/**
 * JSON values and their compact rendering, as `serde_json::to_string`
 * writes them: no whitespace, members in the order given, strings quoted
 * with `"` and `\` escaped, the control characters with a short escape
 * (`\b \f \n \r \t`) escaped that way and the others as `\u00xx` in
 * lowercase hex, every other character as it is.
 *
 * The partner of the rendering is a reader for the compact text; reading
 * back what was rendered gives the value back.
 */
module Json {
  import opened Wrappers
  import opened Encoding
  import opened Text

  datatype Json =
    | JNull
    | JBool(b: bool)
    | JNumber(n: int)
    | JString(s: string)
    | JArray(items: seq<Json>)
    | JObject(members: seq<(string, Json)>)

  // ---------------------------------------------------------------------
  // Rendering
  // ---------------------------------------------------------------------

  const Backspace: char := 8 as char
  const FormFeed: char := 12 as char

  /** How one character of a string is written between the quotes. */
  function EscapeChar(c: char): string {
    if c == '"' then "\\\""
    else if c == '\\' then "\\\\"
    else if c == Backspace then "\\b"
    else if c == FormFeed then "\\f"
    else if c == '\n' then "\\n"
    else if c == '\r' then "\\r"
    else if c == '\t' then "\\t"
    else if c as int < 0x20 then "\\u00" + [HexDigit(c as int / 16), HexDigit(c as int % 16)]
    else [c]
  }

  function Escape(s: string): string {
    if s == [] then [] else EscapeChar(s[0]) + Escape(s[1..])
  }

  function Quote(s: string): string {
    "\"" + Escape(s) + "\""
  }

  function RenderNumber(n: int): string {
    if n < 0 then "-" + Decimal(-n) else Decimal(n)
  }

  function Render(j: Json): string
    decreases j
  {
    match j
    case JNull => "null"
    case JBool(b) => if b then "true" else "false"
    case JNumber(n) => RenderNumber(n)
    case JString(s) => Quote(s)
    case JArray(items) => "[" + RenderItems(items) + "]"
    case JObject(members) => "{" + RenderMembers(members) + "}"
  }

  /** The items of an array, separated by commas. */
  function RenderItems(items: seq<Json>): string
    decreases items, 0
  {
    if items == [] then ""
    else if |items| == 1 then Render(items[0])
    else Render(items[0]) + "," + RenderItems(items[1..])
  }

  /** The members of an object, each `"key":value`, separated by commas. */
  function RenderMembers(members: seq<(string, Json)>): string
    decreases members, 0
  {
    if members == [] then ""
    else if |members| == 1 then RenderMember(members[0])
    else RenderMember(members[0]) + "," + RenderMembers(members[1..])
  }

  function RenderMember(m: (string, Json)): string
    decreases m, 0
  {
    Quote(m.0) + ":" + Render(m.1)
  }

  // ---------------------------------------------------------------------
  // Reading the compact text back
  // ---------------------------------------------------------------------

  /** The value of a hex digit in either case, as a `\u` escape allows. */
  function HexValueAnyCase(c: char): (r: Option<nat>)
    ensures r.Some? ==> r.value < 16
  {
    if 'A' <= c <= 'F' then Some(c as int - 'A' as int + 10) else HexValue(c)
  }

  /** The character an escape (what follows the backslash) stands for, and the length of the escape. */
  function Unescape(s: string): (r: Option<(char, nat)>)
    ensures r.Some? ==> 1 <= r.value.1 <= |s|
  {
    if s == [] then None
    else if s[0] == '"' then Some(('"', 1))
    else if s[0] == '\\' then Some(('\\', 1))
    else if s[0] == '/' then Some(('/', 1))
    else if s[0] == 'b' then Some((Backspace, 1))
    else if s[0] == 'f' then Some((FormFeed, 1))
    else if s[0] == 'n' then Some(('\n', 1))
    else if s[0] == 'r' then Some(('\r', 1))
    else if s[0] == 't' then Some(('\t', 1))
    else if s[0] == 'u' && |s| >= 5 then
      match (HexValueAnyCase(s[1]), HexValueAnyCase(s[2]), HexValueAnyCase(s[3]), HexValueAnyCase(s[4]))
      case (Some(a), Some(b), Some(c), Some(d)) =>
        (match ScalarOf(a * 4096 + b * 256 + c * 16 + d)
         case None => None
         case Some(ch) => Some((ch, 5)))
      case _ => None
    else None
  }

  /** The text of a string up to its closing quote, and what follows the quote. */
  function ParseStringBody(s: string): (r: Option<(string, string)>)
    ensures r.Some? ==> |r.value.1| < |s|
    decreases |s|
  {
    if s == [] then None
    else if s[0] == '"' then Some(([], s[1..]))
    else if s[0] == '\\' then
      match Unescape(s[1..])
      case None => None
      case Some((c, n)) =>
        match ParseStringBody(s[1 + n..])
        case None => None
        case Some((t, rest)) => Some(([c] + t, rest))
    else if s[0] as int < 0x20 then None
    else
      match ParseStringBody(s[1..])
      case None => None
      case Some((t, rest)) => Some(([s[0]] + t, rest))
  }

  /** An optional minus sign and the longest run of digits after it. */
  function ParseNumber(s: string): (r: Option<(Json, string)>)
    ensures r.Some? ==> |r.value.1| < |s|
  {
    if s != [] && s[0] == '-' then
      var k := DigitRun(s[1..]);
      if k == 0 then None else Some((JNumber(0 - ParseDecimal(s[1..][..k])), s[1..][k..]))
    else
      var k := DigitRun(s);
      if k == 0 then None else Some((JNumber(ParseDecimal(s[..k])), s[k..]))
  }

  /** The value the text starts with, and what follows it. */
  function ParseValue(s: string): (r: Option<(Json, string)>)
    ensures r.Some? ==> |r.value.1| < |s|
    decreases |s|, 0
  {
    if s == [] then None
    else if s[0] == 'n' then
      if |s| >= 4 && s[..4] == "null" then Some((JNull, s[4..])) else None
    else if s[0] == 't' then
      if |s| >= 4 && s[..4] == "true" then Some((JBool(true), s[4..])) else None
    else if s[0] == 'f' then
      if |s| >= 5 && s[..5] == "false" then Some((JBool(false), s[5..])) else None
    else if s[0] == '"' then
      match ParseStringBody(s[1..])
      case None => None
      case Some((t, rest)) => Some((JString(t), rest))
    else if s[0] == '[' then
      if |s| >= 2 && s[1] == ']' then Some((JArray([]), s[2..]))
      else
        match ParseItems(s[1..])
        case None => None
        case Some((items, rest)) => Some((JArray(items), rest))
    else if s[0] == '{' then
      if |s| >= 2 && s[1] == '}' then Some((JObject([]), s[2..]))
      else
        match ParseMembers(s[1..])
        case None => None
        case Some((members, rest)) => Some((JObject(members), rest))
    else ParseNumber(s)
  }

  /** One or more values separated by commas, up to and including the closing bracket. */
  function ParseItems(s: string): (r: Option<(seq<Json>, string)>)
    ensures r.Some? ==> |r.value.1| < |s|
    decreases |s|, 1
  {
    match ParseValue(s)
    case None => None
    case Some((v, rest)) =>
      if rest == [] then None
      else if rest[0] == ']' then Some(([v], rest[1..]))
      else if rest[0] == ',' then
        match ParseItems(rest[1..])
        case None => None
        case Some((vs, after)) => Some(([v] + vs, after))
      else None
  }

  /** One or more `"key":value` members separated by commas, up to and including the closing brace. */
  function ParseMembers(s: string): (r: Option<(seq<(string, Json)>, string)>)
    ensures r.Some? ==> |r.value.1| < |s|
    decreases |s|, 1
  {
    if s == [] || s[0] != '"' then None
    else
      match ParseStringBody(s[1..])
      case None => None
      case Some((key, afterKey)) =>
        if afterKey == [] || afterKey[0] != ':' then None
        else
          match ParseValue(afterKey[1..])
          case None => None
          case Some((v, rest)) =>
            if rest == [] then None
            else if rest[0] == '}' then Some(([(key, v)], rest[1..]))
            else if rest[0] == ',' then
              match ParseMembers(rest[1..])
              case None => None
              case Some((ms, after)) => Some(([(key, v)] + ms, after))
            else None
  }

  /** The value a whole text holds, when it holds exactly one. */
  function Parse(s: string): Option<Json> {
    match ParseValue(s)
    case Some((j, rest)) => if rest == [] then Some(j) else None
    case None => None
  }

  // ---------------------------------------------------------------------
  // Reading back what was rendered
  // ---------------------------------------------------------------------

  /** What reading a string gives once the first character of its text is known. */
  function ThenChar(c: char, r: Option<(string, string)>): Option<(string, string)> {
    match r
    case None => None
    case Some((u, rest)) => Some(([c] + u, rest))
  }

  /** Reading an escaped character gives the character, and the reading goes on after it. */
  lemma ParseEscapeChar(c: char, t: string)
    ensures ParseStringBody(EscapeChar(c) + t) == ThenChar(c, ParseStringBody(t))
  {
    var s := EscapeChar(c) + t;
    if c == '"' || c == '\\' || c == Backspace || c == FormFeed || c == '\n' || c == '\r' || c == '\t' {
      assert s[0] == '\\' && Unescape(s[1..]) == Some((c, 1));
      assert s[1 + 1..] == t;
      ParseEscaped(s, c, 1, t);
    } else if c as int < 0x20 {
      ParseUnicodeEscape(c, t);
    } else {
      assert s[1..] == t;
    }
  }

  /** A backslash and an escape of length `n` standing for `c`: the reading goes on after the escape. */
  lemma ParseEscaped(s: string, c: char, n: nat, t: string)
    requires s != [] && s[0] == '\\' && Unescape(s[1..]) == Some((c, n)) && s[1 + n..] == t
    ensures ParseStringBody(s) == ThenChar(c, ParseStringBody(t))
  {
  }

  lemma ParseUnicodeEscape(c: char, t: string)
    requires c as int < 0x20
    requires c != Backspace && c != FormFeed && c != '\n' && c != '\r' && c != '\t'
    ensures ParseStringBody(EscapeChar(c) + t) == ThenChar(c, ParseStringBody(t))
  {
    EscapeControl(c);
    ParseControlEscape(c, t);
  }

  /** The other control characters are written `\u00` and two lowercase hex digits. */
  lemma EscapeControl(c: char)
    requires c as int < 0x20
    requires c != Backspace && c != FormFeed && c != '\n' && c != '\r' && c != '\t'
    ensures EscapeChar(c) == ['\\', 'u', '0', '0', HexDigit(c as int / 16), HexDigit(c as int % 16)]
  {
  }

  lemma ParseControlEscape(c: char, t: string)
    requires c as int < 0x20
    ensures var n := c as int;
      ParseStringBody(['\\', 'u', '0', '0', HexDigit(n / 16), HexDigit(n % 16)] + t) == ThenChar(c, ParseStringBody(t))
  {
    var n := c as int;
    var e := ['u', '0', '0', HexDigit(n / 16), HexDigit(n % 16)];
    var s := ['\\'] + e + t;
    assert s[1..] == e + t;
    UnescapeControl(n, e + t);
    assert s[1 + 5..] == t;
    ParseEscaped(s, c, 5, t);
    assert s == ['\\', 'u', '0', '0', HexDigit(n / 16), HexDigit(n % 16)] + t;
  }

  /** The escape `u00` and two hex digits stands for the character with that code. */
  lemma UnescapeControl(n: nat, x: string)
    requires n < 0x20
    requires |x| >= 5 && x[0] == 'u' && x[1] == '0' && x[2] == '0'
    requires x[3] == HexDigit(n / 16) && x[4] == HexDigit(n % 16)
    ensures Unescape(x) == Some((n as char, 5))
  {
    HexValueDigit(n / 16);
    HexValueDigit(n % 16);
    assert HexValueAnyCase(x[1]) == Some(0);
  }

  /** A quoted string is read back up to its closing quote. */
  lemma {:induction false} ParseEscape(str: string, rest: string)
    ensures ParseStringBody(Escape(str) + "\"" + rest) == Some((str, rest))
  {
    if str == [] {
      assert Escape(str) + "\"" + rest == "\"" + rest;
    } else {
      var tail := Escape(str[1..]) + "\"" + rest;
      assert Escape(str) + "\"" + rest == EscapeChar(str[0]) + tail;
      ParseEscapeChar(str[0], tail);
      ParseEscape(str[1..], rest);
      assert [str[0]] + str[1..] == str;
    }
  }

  /** The digits of a decimal rendering are read back as the number, up to what follows them. */
  lemma ParseDigits(n: nat, rest: string)
    requires Delimited(rest)
    ensures var x := Decimal(n) + rest;
      DigitRun(x) == |Decimal(n)| && x[..|Decimal(n)|] == Decimal(n) && x[|Decimal(n)|..] == rest
  {
    DigitRunDigits(Decimal(n), rest);
    var x := Decimal(n) + rest;
    assert x[..|Decimal(n)|] == Decimal(n);
    assert x[|Decimal(n)|..] == rest;
  }

  lemma ParseRenderNumber(n: int, rest: string)
    requires Delimited(rest)
    ensures ParseValue(RenderNumber(n) + rest) == Some((JNumber(n), rest))
  {
    var s := RenderNumber(n) + rest;
    if n < 0 {
      ParseNegative(-n, rest);
      assert 0 - (-n) == n;
    } else {
      DecimalStart(n);
      ParseNonNegative(n, rest);
    }
    ParseValueNumber(s);
  }

  /** A text starting with a minus sign or a digit is read as a number. */
  lemma ParseValueNumber(s: string)
    requires s != [] && (s[0] == '-' || IsDigit(s[0]))
    ensures ParseValue(s) == ParseNumber(s)
  {
  }

  lemma ParseNegative(m: nat, rest: string)
    requires Delimited(rest)
    ensures ParseNumber("-" + Decimal(m) + rest) == Some((JNumber(0 - m), rest))
  {
    var s := "-" + Decimal(m) + rest;
    assert s[1..] == Decimal(m) + rest;
    ParseDigits(m, rest);
    ParseDecimalDecimal(m);
  }

  lemma ParseNonNegative(n: nat, rest: string)
    requires Delimited(rest)
    ensures ParseNumber(Decimal(n) + rest) == Some((JNumber(n), rest))
  {
    ParseDigits(n, rest);
    ParseDecimalDecimal(n);
    DecimalStart(n);
  }

  lemma DecimalStart(n: nat)
    ensures IsDigit(Decimal(n)[0])
  {
  }

  lemma ParseRenderKeyword(j: Json, rest: string)
    requires j.JNull? || j.JBool?
    ensures ParseValue(Render(j) + rest) == Some((j, rest))
  {
    var s := Render(j) + rest;
    if j.JNull? || j.b {
      assert s[..4] == Render(j);
      assert s[4..] == rest;
    } else {
      assert s[..5] == "false";
      assert s[5..] == rest;
    }
  }

  lemma ParseRenderString(str: string, rest: string)
    ensures ParseValue(Render(JString(str)) + rest) == Some((JString(str), rest))
  {
    var s := Render(JString(str)) + rest;
    assert s[0] == '"';
    assert s[1..] == Escape(str) + "\"" + rest;
    ParseEscape(str, rest);
  }

  /** Reading back the rendering of any value gives the value back, and the rest of the text untouched. */
  lemma {:induction false} ParseRender(j: Json, rest: string)
    requires Delimited(rest)
    ensures ParseValue(Render(j) + rest) == Some((j, rest))
    decreases j, 1
  {
    match j
    case JNull => ParseRenderKeyword(j, rest);
    case JBool(_) => ParseRenderKeyword(j, rest);
    case JNumber(n) => ParseRenderNumber(n, rest);
    case JString(str) => ParseRenderString(str, rest);
    case JArray(items) => ParseRenderArray(items, rest);
    case JObject(members) => ParseRenderObject(members, rest);
  }

  lemma {:induction false} ParseRenderArray(items: seq<Json>, rest: string)
    ensures ParseValue(Render(JArray(items)) + rest) == Some((JArray(items), rest))
    decreases items, 1
  {
    var s := Render(JArray(items)) + rest;
    assert Render(JArray(items)) == "[" + RenderItems(items) + "]";
    assert s[0] == '[';
    if items == [] {
      assert RenderItems(items) == "";
      assert s == "[]" + rest;
      assert s[2..] == rest;
    } else {
      var inner := RenderItems(items) + "]" + rest;
      assert s[1..] == inner;
      RenderItemsStart(items);
      ParseRenderItems(items, rest);
      assert ParseValue(s) == Some((JArray(items), rest));
    }
  }

  lemma {:induction false} ParseRenderObject(members: seq<(string, Json)>, rest: string)
    ensures ParseValue(Render(JObject(members)) + rest) == Some((JObject(members), rest))
    decreases members, 1
  {
    var s := Render(JObject(members)) + rest;
    assert Render(JObject(members)) == "{" + RenderMembers(members) + "}";
    assert s[0] == '{';
    if members == [] {
      assert RenderMembers(members) == "";
      assert s == "{}" + rest;
      assert s[2..] == rest;
    } else {
      var inner := RenderMembers(members) + "}" + rest;
      assert s[1..] == inner;
      RenderMembersStart(members);
      ParseRenderMembers(members, rest);
      assert ParseValue(s) == Some((JObject(members), rest));
    }
  }

  /** A value's rendering is never empty and never starts with a closing bracket or brace. */
  lemma RenderStart(j: Json)
    ensures |Render(j)| >= 1 && Render(j)[0] != ']'
  {
    if j.JNumber? && j.n >= 0 {
      assert Render(j)[0] == Decimal(j.n)[0];
      DecimalStart(j.n);
    }
  }

  lemma RenderItemsStart(items: seq<Json>)
    requires items != []
    ensures |RenderItems(items)| >= 1 && RenderItems(items)[0] != ']'
  {
    RenderStart(items[0]);
  }

  /** Reading back the items of a non-empty array, then its closing bracket. */
  lemma {:induction false} ParseRenderItems(items: seq<Json>, rest: string)
    requires items != []
    ensures ParseItems(RenderItems(items) + "]" + rest) == Some((items, rest))
    decreases items, 0
  {
    var s := RenderItems(items) + "]" + rest;
    if |items| == 1 {
      var after := "]" + rest;
      assert s == Render(items[0]) + after;
      ParseRender(items[0], after);
      assert after[1..] == rest;
      assert [items[0]] == items;
    } else {
      var tail := RenderItems(items[1..]) + "]" + rest;
      var after := "," + tail;
      assert s == Render(items[0]) + after;
      ParseRender(items[0], after);
      assert after[1..] == tail;
      ParseRenderItems(items[1..], rest);
      assert [items[0]] + items[1..] == items;
    }
  }

  lemma RenderMembersStart(members: seq<(string, Json)>)
    requires members != []
    ensures |RenderMembers(members)| >= 1 && RenderMembers(members)[0] == '"'
  {
    var m := RenderMember(members[0]);
    assert m == "\"" + Escape(members[0].0) + "\"" + ":" + Render(members[0].1);
    if |members| > 1 {
      assert RenderMembers(members) == m + "," + RenderMembers(members[1..]);
    }
  }

  /** Reading back the members of a non-empty object, then its closing brace. */
  lemma {:induction false} ParseRenderMembers(members: seq<(string, Json)>, rest: string)
    requires members != []
    ensures ParseMembers(RenderMembers(members) + "}" + rest) == Some((members, rest))
    decreases members, 0
  {
    var m := members[0];
    if |members| == 1 {
      ParseRenderLastMember(m, rest);
      assert RenderMembers(members) + "}" + rest == RenderMember(m) + "}" + rest;
      assert [m] == members;
    } else {
      var tail := RenderMembers(members[1..]) + "}" + rest;
      ParseRenderMembers(members[1..], rest);
      ParseRenderNextMember(m, tail, members[1..], rest);
      assert RenderMembers(members) == RenderMember(m) + "," + RenderMembers(members[1..]);
      Regroup(RenderMember(m) + ",", RenderMembers(members[1..]), "}", rest);
      assert [m] + members[1..] == members;
    }
  }

  lemma Regroup(x: string, b: string, c: string, d: string)
    ensures x + b + c + d == x + (b + c + d)
  {
  }

  lemma {:induction false} ParseRenderLastMember(m: (string, Json), rest: string)
    ensures ParseMembers(RenderMember(m) + "}" + rest) == Some(([m], rest))
    decreases m, 1
  {
    var after := "}" + rest;
    ParseRenderMember(m, after);
    assert RenderMember(m) + "}" + rest == RenderMember(m) + after;
    assert after[1..] == rest;
  }

  lemma {:induction false} ParseRenderNextMember(m: (string, Json), tail: string, ms: seq<(string, Json)>, rest: string)
    requires ParseMembers(tail) == Some((ms, rest))
    ensures ParseMembers(RenderMember(m) + "," + tail) == Some(([m] + ms, rest))
    decreases m, 1
  {
    var after := "," + tail;
    ParseRenderMember(m, after);
    assert RenderMember(m) + "," + tail == RenderMember(m) + after;
    assert after[1..] == tail;
  }

  /** Reading back one member, then either the closing brace or the comma and the members after it. */
  lemma {:induction false} ParseRenderMember(m: (string, Json), after: string)
    requires after != [] && (after[0] == '}' || after[0] == ',')
    ensures ParseMembers(RenderMember(m) + after) ==
      if after[0] == '}' then Some(([m], after[1..]))
      else match ParseMembers(after[1..])
        case None => None
        case Some((ms, rest)) => Some(([m] + ms, rest))
    decreases m, 0
  {
    var x := Render(m.1);
    var s := RenderMember(m) + after;
    assert s == "\"" + (Escape(m.0) + "\"" + (":" + (x + after)));
    assert s[1..] == Escape(m.0) + "\"" + (":" + (x + after));
    ParseEscape(m.0, ":" + (x + after));
    ParseRender(m.1, after);
    ParseMembersFirst(s, m.0, x + after, m.1, after);
  }

  /** Once the first key and value are read, the members go on after them. */
  lemma ParseMembersFirst(s: string, key: string, x: string, v: Json, after: string)
    requires s != [] && s[0] == '"'
    requires ParseStringBody(s[1..]) == Some((key, ":" + x))
    requires ParseValue(x) == Some((v, after))
    requires after != [] && (after[0] == '}' || after[0] == ',')
    ensures ParseMembers(s) ==
      if after[0] == '}' then Some(([(key, v)], after[1..]))
      else match ParseMembers(after[1..])
        case None => None
        case Some((ms, rest)) => Some(([(key, v)] + ms, rest))
  {
    assert (":" + x)[1..] == x;
  }

  /** The compact text of a value is read back as that value: the rendering loses nothing. */
  lemma ParseRendered(j: Json)
    ensures Parse(Render(j)) == Some(j)
  {
    ParseRender(j, "");
    assert Render(j) + "" == Render(j);
  }

  /** Different values have different renderings. */
  lemma RenderInjective(a: Json, b: Json)
    requires Render(a) == Render(b)
    ensures a == b
  {
    ParseRendered(a);
    ParseRendered(b);
  }

  // ---------------------------------------------------------------------
  // Objects
  // ---------------------------------------------------------------------

  /** The keys of an object's members, in order. */
  function Keys(members: seq<(string, Json)>): (r: seq<string>)
    ensures |r| == |members|
    ensures forall i :: 0 <= i < |members| ==> r[i] == members[i].0
  {
    if members == [] then [] else [members[0].0] + Keys(members[1..])
  }

  /** The value of the first member with the key. */
  function Lookup(members: seq<(string, Json)>, key: string): Option<Json> {
    if members == [] then None
    else if members[0].0 == key then Some(members[0].1)
    else Lookup(members[1..], key)
  }

  /** A key finds a value exactly when some member has it. */
  lemma {:induction false} LookupKeys(members: seq<(string, Json)>, key: string)
    ensures Lookup(members, key).None? <==> key !in Keys(members)
  {
    if members != [] {
      LookupKeys(members[1..], key);
      assert Keys(members) == [members[0].0] + Keys(members[1..]);
    }
  }
}
