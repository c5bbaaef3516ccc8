/**
 * The message parser of the receiver: it turns the raw text captured
 * between DATA and the terminating "." line into a `ParsedEmail`, and it
 * provides the address helpers `ExtractEmail`, `ParseAddressList`,
 * `ExtractDomain` and `NormalizeEmail`.
 */
module EmailParser {
  import opened Wrappers
  import opened Text

  /** A structured message. `bodyHtml` is part of the record but never set by the parser. */
  datatype ParsedEmail = ParsedEmail(
    from: string,
    to: seq<string>,
    cc: seq<string>,
    bcc: seq<string>,
    subject: Option<string>,
    bodyText: Option<string>,
    bodyHtml: Option<string>,
    headers: map<string, string>)

  /** `ParsedEmail::new`: every field empty. */
  function Empty(): ParsedEmail {
    ParsedEmail("", [], [], [], None, None, None, map[])
  }

  // ---------------------------------------------------------------------
  // Address helpers
  // ---------------------------------------------------------------------

  /**
   * `extract_email`: the text between the first '<' and the first '>' when
   * the value has both, otherwise the trimmed value. When the first '>'
   * comes before the first '<' the string slice panics.
   */
  function ExtractEmail(value: string): (r: Outcome<string>)
    ensures r.Ok? ==> |r.value| <= |value|
  {
    TrimSlice(value);
    match Find(value, '<')
    case None => Ok(Trim(value))
    case Some(start) =>
      match Find(value, '>')
      case None => Ok(Trim(value))
      case Some(end) => if start < end then Ok(value[start + 1..end]) else Panic
  }

  /** With `i` the first '<' and `j` the first '>', the result is the text strictly between them, or a panic when `j` comes first. */
  lemma ExtractEmailBetweenFirst(v: string, i: nat, j: nat)
    requires i < |v| && v[i] == '<' && '<' !in v[..i]
    requires j < |v| && v[j] == '>' && '>' !in v[..j]
    ensures i < j ==> ExtractEmail(v) == Ok(v[i + 1..j])
    ensures j < i ==> ExtractEmail(v) == Panic
    ensures j != i
  {
    FindAt(v, '<', i);
    FindAt(v, '>', j);
  }

  /** Without both brackets the value is only trimmed. */
  lemma ExtractEmailUnbracketed(v: string)
    requires '<' !in v || '>' !in v
    ensures ExtractEmail(v) == Ok(Trim(v))
  {
  }

  /** The "Display Name <address>" form gives back the address, whatever follows the '>'. */
  lemma ExtractEmailNamed(name: string, address: string, rest: string)
    requires '<' !in name && '>' !in name && '>' !in address
    ensures ExtractEmail(name + "<" + address + ">" + rest) == Ok(address)
  {
    var v := name + "<" + address + ">" + rest;
    var i, j := |name|, |name| + 1 + |address|;
    assert v[..i] == name;
    assert v[..j] == name + "<" + address;
    assert v[i + 1..j] == address;
    ExtractEmailBetweenFirst(v, i, j);
  }

  /** The address of one comma segment: the segment trimmed, then extracted. */
  function AddressOf(segment: string): Outcome<string> {
    ExtractEmail(Trim(segment))
  }

  /** Puts an address in front of a list, dropping it when empty; a panic on either side panics. */
  function Prepend(a: Outcome<string>, rest: Outcome<seq<string>>): (r: Outcome<seq<string>>)
    ensures r.Ok? ==> rest.Ok? && |r.value| <= |rest.value| + 1
  {
    if a.Panic? || rest.Panic? then Panic
    else if a.value == "" then rest
    else Ok([a.value] + rest.value)
  }

  /** The addresses of comma segments, in order, with empty ones dropped. */
  function AddressesOf(segments: seq<string>): (r: Outcome<seq<string>>)
    ensures r.Ok? ==> |r.value| <= |segments|
  {
    if segments == [] then Ok([])
    else Prepend(AddressOf(segments[0]), AddressesOf(segments[1..]))
  }

  /** `parse_address_list`: the addresses of the comma-separated segments of `value`. */
  function ParseAddressList(value: string): (r: Outcome<seq<string>>)
    ensures r.Ok? ==> |r.value| <= |Split(value, ',')|
  {
    AddressesOf(Split(value, ','))
  }

  /** No address of the list is empty. */
  lemma {:induction false} AddressesNonEmpty(segments: seq<string>)
    requires AddressesOf(segments).Ok?
    ensures forall k :: 0 <= k < |AddressesOf(segments).value| ==> AddressesOf(segments).value[k] != ""
  {
    if segments != [] {
      AddressesNonEmpty(segments[1..]);
    }
  }

  /** `parse_address_list` keeps at most one address per comma segment and never an empty one. */
  lemma ParseAddressListShape(value: string)
    requires ParseAddressList(value).Ok?
    ensures |ParseAddressList(value).value| <= |Split(value, ',')|
    ensures forall k :: 0 <= k < |ParseAddressList(value).value| ==> ParseAddressList(value).value[k] != ""
  {
    AddressesNonEmpty(Split(value, ','));
  }

  /** Both outcomes succeed and their lists are concatenated, or the result panics. */
  function Both(x: Outcome<seq<string>>, y: Outcome<seq<string>>): Outcome<seq<string>> {
    if x.Ok? && y.Ok? then Ok(x.value + y.value) else Panic
  }

  /** Order is kept: the addresses of two runs of segments are those of the first run followed by those of the second. */
  lemma {:induction false} AddressesOfAppend(a: seq<string>, b: seq<string>)
    ensures AddressesOf(a + b) == Both(AddressesOf(a), AddressesOf(b))
  {
    if a == [] {
      assert a + b == b;
      if AddressesOf(b).Ok? {
        assert [] + AddressesOf(b).value == AddressesOf(b).value;
      }
    } else {
      var ab := a + b;
      assert ab[0] == a[0];
      assert ab[1..] == a[1..] + b;
      AddressesOfAppend(a[1..], b);
      var x := AddressOf(a[0]);
      var ra, rb := AddressesOf(a[1..]), AddressesOf(b);
      if x.Ok? && ra.Ok? && rb.Ok? && x.value != "" {
        assert [x.value] + (ra.value + rb.value) == ([x.value] + ra.value) + rb.value;
      }
    }
  }

  /** When every segment yields a non-empty address, there is exactly one address per segment, in order. */
  lemma {:induction false} AddressesOfEach(segments: seq<string>)
    requires forall k :: 0 <= k < |segments| ==> AddressOf(segments[k]).Ok? && AddressOf(segments[k]).value != ""
    ensures AddressesOf(segments).Ok?
    ensures |AddressesOf(segments).value| == |segments|
    ensures forall k :: 0 <= k < |segments| ==> AddressesOf(segments).value[k] == AddressOf(segments[k]).value
  {
    if segments != [] {
      AddressesOfEach(segments[1..]);
    }
  }

  /**
   * `extract_domain`: the segment between the first and second '@' (or up
   * to the end), lower-cased; `None` exactly when there is no '@'.
   */
  function ExtractDomain(email: string): (r: Option<string>)
    ensures r.None? <==> '@' !in email
  {
    var parts := Split(email, '@');
    if |parts| >= 2 then Some(ToLower(parts[1])) else None
  }

  /** Every address with an '@' has the form local@domain or local@domain@rest; the domain is the lower-cased middle part. */
  lemma ExtractDomainOf(local: string, domain: string, rest: string)
    requires '@' !in local && '@' !in domain
    ensures ExtractDomain(local + "@" + domain) == Some(ToLower(domain))
    ensures ExtractDomain(local + "@" + domain + "@" + rest) == Some(ToLower(domain))
  {
    SplitPrefix(local, '@', domain);
    assert local + "@" + domain + "@" + rest == local + ['@'] + (domain + ['@'] + rest);
    SplitPrefix(local, '@', domain + ['@'] + rest);
    SplitPrefix(domain, '@', rest);
  }

  /**
   * `normalize_email`: the local part loses everything from its first '+'
   * up to the first '@'; the rest is returned unchanged.
   */
  function NormalizeEmail(email: string): (r: string)
    ensures |r| <= |email|
  {
    match Find(email, '@')
    case None => email
    case Some(at) =>
      match Find(email[..at], '+')
      case None => email
      case Some(plus) => email[..plus] + email[at..]
  }

  /** An address with no '@' is left as it is. */
  lemma NormalizeEmailNoAt(email: string)
    requires '@' !in email
    ensures NormalizeEmail(email) == email
  {
  }

  /** An address whose local part has no '+' is left as it is. */
  lemma NormalizeEmailPlain(local: string, domain: string)
    requires '@' !in local && '+' !in local
    ensures NormalizeEmail(local + "@" + domain) == local + "@" + domain
  {
    var e := local + "@" + domain;
    assert e[..|local|] == local;
    FindAt(e, '@', |local|);
  }

  /** base+tag@domain becomes base@domain, whatever the tag and the domain hold. */
  lemma NormalizeEmailTagged(base: string, tag: string, domain: string)
    requires '@' !in base && '+' !in base && '@' !in tag
    ensures NormalizeEmail(base + "+" + tag + "@" + domain) == base + "@" + domain
  {
    var e := base + "+" + tag + "@" + domain;
    var at := |base| + 1 + |tag|;
    assert e[..at] == base + "+" + tag;
    FindAt(e, '@', at);
    assert e[..at][..|base|] == base;
    FindAt(e[..at], '+', |base|);
    assert e[..|base|] == base;
    assert e[at..] == "@" + domain;
  }

  /**
   * With `at` the first '@': the result ends with the domain part `email[at..]`
   * unchanged, and what precedes it is the start of the local part, which
   * holds no '+' and stops either at the end of the local part or at a '+'.
   */
  lemma NormalizeEmailShape(email: string, at: nat)
    requires at < |email| && email[at] == '@' && '@' !in email[..at]
    ensures var r := NormalizeEmail(email); var n := |r| - (|email| - at);
      0 <= n <= at && r == email[..n] + email[at..] && '+' !in email[..n]
      && (n < at ==> email[n] == '+')
  {
    FindAt(email, '@', at);
    var r := NormalizeEmail(email);
    match Find(email[..at], '+')
    case None =>
      assert email == email[..at] + email[at..];
    case Some(plus) =>
      assert email[..at][..plus] == email[..plus];
      assert email[..at][plus] == email[plus];
  }

  /** Keeping a '+'-free start of the local part and the whole domain part gives an address normalisation leaves alone. */
  lemma NormalizeEmailKept(email: string, at: nat, n: nat)
    requires at < |email| && email[at] == '@' && '@' !in email[..at]
    requires n <= at && '+' !in email[..n]
    ensures NormalizeEmail(email[..n] + email[at..]) == email[..n] + email[at..]
  {
    var base := email[..n];
    assert '@' !in base by {
      assert base == email[..at][..n];
    }
    assert email[..n] + email[at..] == base + "@" + email[at + 1..];
    NormalizeEmailPlain(base, email[at + 1..]);
  }

  /** Normalising twice is normalising once. */
  lemma NormalizeEmailIdempotent(email: string)
    ensures NormalizeEmail(NormalizeEmail(email)) == NormalizeEmail(email)
  {
    match Find(email, '@')
    case None =>
    case Some(at) =>
      NormalizeEmailShape(email, at);
      var n := |NormalizeEmail(email)| - (|email| - at);
      NormalizeEmailKept(email, at, n);
  }

  // ---------------------------------------------------------------------
  // Header dispatch
  // ---------------------------------------------------------------------

  /** The fields a header name can be dispatched to. */
  datatype Field = FromField | ToField | CcField | BccField | SubjectField | OtherField

  /** The field a header name selects, compared lower-cased. */
  function FieldOf(name: string): Field {
    var key := ToLower(name);
    if key == "from" then FromField
    else if key == "to" then ToField
    else if key == "cc" then CcField
    else if key == "bcc" then BccField
    else if key == "subject" then SubjectField
    else OtherField
  }

  /** Sets the selected field from the header value; the address fields replace what they held. */
  function Dispatch(p: ParsedEmail, field: Field, value: string): (r: Outcome<ParsedEmail>)
    ensures r.Ok? ==> r.value.headers == p.headers
    ensures r.Ok? ==> r.value.bodyText == p.bodyText && r.value.bodyHtml == p.bodyHtml
    ensures field == FromField && ExtractEmail(value).Ok? ==> r == Ok(p.(from := ExtractEmail(value).value))
    ensures field == ToField && ParseAddressList(value).Ok? ==> r == Ok(p.(to := ParseAddressList(value).value))
    ensures field == CcField && ParseAddressList(value).Ok? ==> r == Ok(p.(cc := ParseAddressList(value).value))
    ensures field == BccField && ParseAddressList(value).Ok? ==> r == Ok(p.(bcc := ParseAddressList(value).value))
    ensures field == SubjectField ==> r == Ok(p.(subject := Some(value)))
    ensures field == OtherField ==> r == Ok(p)
    ensures r.Panic? <==>
      (field == FromField && ExtractEmail(value).Panic?) ||
      (field in {ToField, CcField, BccField} && ParseAddressList(value).Panic?)
  {
    match field
    case FromField => (match ExtractEmail(value) case Panic => Panic case Ok(a) => Ok(p.(from := a)))
    case ToField => (match ParseAddressList(value) case Panic => Panic case Ok(l) => Ok(p.(to := l)))
    case CcField => (match ParseAddressList(value) case Panic => Panic case Ok(l) => Ok(p.(cc := l)))
    case BccField => (match ParseAddressList(value) case Panic => Panic case Ok(l) => Ok(p.(bcc := l)))
    case SubjectField => Ok(p.(subject := Some(value)))
    case OtherField => Ok(p)
  }

  /**
   * `add_header`: dispatch on the lower-cased name to `from` (one address),
   * `to`/`cc`/`bcc` (an address list that replaces the previous one) or
   * `subject` (the raw value), then record the header under its original
   * name, replacing an earlier value.
   */
  function AddHeader(p: ParsedEmail, name: string, value: string): (r: Outcome<ParsedEmail>)
    ensures r.Ok? ==> r.value.headers == p.headers[name := value]
    ensures r.Ok? ==> r.value.bodyText == p.bodyText && r.value.bodyHtml == p.bodyHtml
    ensures FieldOf(name) == FromField && ExtractEmail(value).Ok? ==>
      r == Ok(p.(from := ExtractEmail(value).value, headers := p.headers[name := value]))
    ensures FieldOf(name) == ToField && ParseAddressList(value).Ok? ==>
      r == Ok(p.(to := ParseAddressList(value).value, headers := p.headers[name := value]))
    ensures FieldOf(name) == CcField && ParseAddressList(value).Ok? ==>
      r == Ok(p.(cc := ParseAddressList(value).value, headers := p.headers[name := value]))
    ensures FieldOf(name) == BccField && ParseAddressList(value).Ok? ==>
      r == Ok(p.(bcc := ParseAddressList(value).value, headers := p.headers[name := value]))
    ensures FieldOf(name) == SubjectField ==> r == Ok(p.(subject := Some(value), headers := p.headers[name := value]))
    ensures FieldOf(name) == OtherField ==> r == Ok(p.(headers := p.headers[name := value]))
    ensures r.Panic? <==>
      (FieldOf(name) == FromField && ExtractEmail(value).Panic?) ||
      (FieldOf(name) in {ToField, CcField, BccField} && ParseAddressList(value).Panic?)
  {
    match Dispatch(p, FieldOf(name), value)
    case Panic => Panic
    case Ok(q) => Ok(q.(headers := q.headers[name := value]))
  }

  /** Last write wins: adding a header twice under one name leaves the state the second value alone gives. */
  lemma AddHeaderLastWriteWins(p: ParsedEmail, name: string, v1: string, v2: string)
    requires AddHeader(p, name, v1).Ok?
    ensures AddHeader(AddHeader(p, name, v1).value, name, v2) == AddHeader(p, name, v2)
  {
    var q := AddHeader(p, name, v1).value;
    assert q.headers[name := v2] == p.headers[name := v2];
    match FieldOf(name)
    case FromField => assert q == p.(from := q.from, headers := q.headers);
    case ToField => assert q == p.(to := q.to, headers := q.headers);
    case CcField => assert q == p.(cc := q.cc, headers := q.headers);
    case BccField => assert q == p.(bcc := q.bcc, headers := q.headers);
    case SubjectField => assert q == p.(subject := q.subject, headers := q.headers);
    case OtherField => assert q == p.(headers := q.headers);
  }

  // ---------------------------------------------------------------------
  // parse_from_data
  // ---------------------------------------------------------------------

  /** The loop state of `parse_from_data`: the message so far, the mode, the pending header and the body text. */
  datatype ParserState = ParserState(
    parsed: ParsedEmail,
    inHeaders: bool,
    name: string,
    value: string,
    body: string)

  const Start := ParserState(Empty(), true, "", "", "")

  /** Records the pending header, unless its name is empty. */
  function Flush(p: ParsedEmail, name: string, value: string): Outcome<ParsedEmail> {
    if name == "" then Ok(p) else AddHeader(p, name, value)
  }

  predicate IsContinuation(line: string) {
    |line| > 0 && (line[0] == ' ' || line[0] == '\t')
  }

  /** One iteration of the loop over the lines. */
  function StepLine(st: ParserState, line: string): Outcome<ParserState> {
    if !st.inHeaders then
      Ok(st.(body := st.body + line + "\n"))
    else if line == "" then
      match Flush(st.parsed, st.name, st.value)
      case Panic => Panic
      case Ok(p) => Ok(st.(parsed := p, inHeaders := false))
    else if IsContinuation(line) then
      Ok(st.(value := st.value + " " + Trim(line)))
    else
      match Flush(st.parsed, st.name, st.value)
      case Panic => Panic
      case Ok(p) => Ok(StartHeader(st.(parsed := p), line))
  }

  /** A header line: split at its first ':' into a new pending name and value; a line with no ':' leaves them as they were. */
  function StartHeader(st: ParserState, line: string): ParserState {
    match Find(line, ':')
    case None => st
    case Some(i) => st.(name := Trim(line[..i]), value := Trim(line[i + 1..]))
  }

  /** The loop run over `lines` from `st`; a panic ends it. */
  function RunLines(st: ParserState, lines: seq<string>): Outcome<ParserState>
    decreases |lines|
  {
    if lines == [] then Ok(st)
    else
      match RunLines(st, lines[..|lines| - 1])
      case Panic => Panic
      case Ok(s) => StepLine(s, lines[|lines| - 1])
  }

  /** After the loop: a non-empty body becomes the trimmed `bodyText`. */
  function Finish(st: ParserState): ParsedEmail {
    if st.body == "" then st.parsed else st.parsed.(bodyText := Some(Trim(st.body)))
  }

  function ParseLines(lines: seq<string>): Outcome<ParsedEmail> {
    match RunLines(Start, lines)
    case Panic => Panic
    case Ok(st) => Ok(Finish(st))
  }

  /** What `parse_from_data` computes for the raw text `data`. */
  function Parse(data: string): Outcome<ParsedEmail> {
    ParseLines(Lines(data))
  }

  /** A panic part-way ends the whole run in a panic. */
  lemma {:induction false} RunLinesPanicSticks(st: ParserState, lines: seq<string>, k: nat)
    requires k <= |lines| && RunLines(st, lines[..k]) == Panic
    ensures RunLines(st, lines) == Panic
    decreases |lines| - k
  {
    if k < |lines| {
      assert lines[..k + 1][..k] == lines[..k];
      RunLinesPanicSticks(st, lines, k + 1);
    } else {
      assert lines[..k] == lines;
    }
  }

  /** `ParsedEmail::parse_from_data`, as the loop the source runs. */
  method ParseFromData(data: string) returns (r: Outcome<ParsedEmail>)
    ensures r == Parse(data)
  {
    var lines := Lines(data);
    var parsed := Empty();
    var inHeaders := true;
    var name, value, body := "", "", "";
    for i := 0 to |lines|
      invariant RunLines(Start, lines[..i]) == Ok(ParserState(parsed, inHeaders, name, value, body))
    {
      assert lines[..i + 1][..i] == lines[..i];
      var next := ParseLine(parsed, inHeaders, name, value, body, lines[i]);
      if next.Panic? {
        RunLinesPanicSticks(Start, lines, i + 1);
        return Panic;
      }
      parsed, inHeaders, name, value, body :=
        next.value.parsed, next.value.inHeaders, next.value.name, next.value.value, next.value.body;
    }
    assert lines[..|lines|] == lines;
    if body != "" {
      parsed := parsed.(bodyText := Some(Trim(body)));
    }
    r := Ok(parsed);
  }

  /** One pass of the loop in `parse_from_data`, on the line it reads. */
  method ParseLine(parsed: ParsedEmail, inHeaders: bool, name: string, value: string, body: string, line: string)
    returns (r: Outcome<ParserState>)
    ensures r == StepLine(ParserState(parsed, inHeaders, name, value, body), line)
  {
    ghost var st := ParserState(parsed, inHeaders, name, value, body);
    var parsed, inHeaders, name, value, body := parsed, inHeaders, name, value, body;
    if inHeaders {
      if line == "" {
        if name != "" {
          var added := AddHeader(parsed, name, value);
          if added.Panic? {
            return Panic;
          }
          parsed := added.value;
        }
        inHeaders := false;
        return Ok(ParserState(parsed, inHeaders, name, value, body));
      }
      if line[0] == ' ' || line[0] == '\t' {
        value := value + " " + Trim(line);
      } else {
        if name != "" {
          var added := AddHeader(parsed, name, value);
          if added.Panic? {
            return Panic;
          }
          parsed := added.value;
        }
        assert Flush(st.parsed, st.name, st.value) == Ok(parsed);
        var colon := Find(line, ':');
        if colon.Some? {
          name := Trim(line[..colon.value]);
          value := Trim(line[colon.value + 1..]);
        }
        assert StartHeader(st.(parsed := parsed), line) == ParserState(parsed, inHeaders, name, value, body);
      }
    } else {
      body := body + line + "\n";
    }
    r := Ok(ParserState(parsed, inHeaders, name, value, body));
  }

  // ---------------------------------------------------------------------
  // Properties of the parser
  // ---------------------------------------------------------------------

  /** The index of the first empty line, if there is one. */
  function FirstEmpty(lines: seq<string>): (r: Option<nat>)
    ensures r.Some? ==> r.value < |lines| && lines[r.value] == ""
    ensures r.Some? ==> forall k :: 0 <= k < r.value ==> lines[k] != ""
    ensures r.None? ==> forall k :: 0 <= k < |lines| ==> lines[k] != ""
  {
    if lines == [] then None
    else
      match FirstEmpty(lines[..|lines| - 1])
      case Some(k) => Some(k)
      case None => if lines[|lines| - 1] == "" then Some(|lines| - 1) else None
  }

  /** Each line followed by a line feed. */
  function Terminated(lines: seq<string>): (r: string)
    ensures r == "" <==> lines == []
  {
    if lines == [] then ""
    else Terminated(lines[..|lines| - 1]) + lines[|lines| - 1] + "\n"
  }

  /** The body text: the lines after the first empty one, each with its line feed, trimmed; none when no line follows it. */
  function BodyOf(lines: seq<string>): Option<string> {
    match FirstEmpty(lines)
    case None => None
    case Some(k) => if k + 1 < |lines| then Some(Trim(Terminated(lines[k + 1..]))) else None
  }

  /** The body text collected from the lines read so far: those after the first empty line. */
  ghost function BodySoFar(lines: seq<string>): string {
    match FirstEmpty(lines)
    case None => ""
    case Some(k) => Terminated(lines[k + 1..])
  }

  /** Once the headers have ended, each line read is appended to the body text. */
  lemma BodySoFarSnoc(prefix: seq<string>, line: string)
    requires FirstEmpty(prefix).Some?
    ensures FirstEmpty(prefix + [line]) == FirstEmpty(prefix)
    ensures BodySoFar(prefix + [line]) == BodySoFar(prefix) + line + "\n"
  {
    var lines := prefix + [line];
    var k := FirstEmpty(prefix).value;
    assert lines[..|lines| - 1] == prefix;
    assert FirstEmpty(lines) == Some(k);
    var after := lines[k + 1..];
    assert after == prefix[k + 1..] + [line];
    assert after[..|after| - 1] == prefix[k + 1..];
    assert Terminated(after) == Terminated(prefix[k + 1..]) + line + "\n";
  }

  /** What the loop keeps between iterations, stated against the lines read so far. */
  ghost predicate Consistent(st: ParserState, lines: seq<string>) {
    && st.inHeaders == FirstEmpty(lines).None?
    && st.body == BodySoFar(lines)
    && st.parsed.bodyText == None
    && st.parsed.bodyHtml == None
  }

  lemma {:induction false} RunLinesConsistent(lines: seq<string>)
    requires RunLines(Start, lines).Ok?
    ensures Consistent(RunLines(Start, lines).value, lines)
    decreases |lines|
  {
    if lines != [] {
      var prefix := lines[..|lines| - 1];
      var line := lines[|lines| - 1];
      assert RunLines(Start, prefix).Ok?;
      var s := RunLines(Start, prefix).value;
      assert RunLines(Start, lines) == StepLine(s, line);
      RunLinesConsistent(prefix);
      assert lines == prefix + [line];
      ConsistentStep(s, prefix, line);
    }
  }

  lemma ConsistentStep(s: ParserState, prefix: seq<string>, line: string)
    requires Consistent(s, prefix) && StepLine(s, line).Ok?
    ensures Consistent(StepLine(s, line).value, prefix + [line])
  {
    StepLineShape(s, line);
    var t := StepLine(s, line).value;
    if FirstEmpty(prefix).None? {
      ConsistentInHeaders(s, t, prefix, line);
    } else {
      ConsistentInBody(s, t, prefix, line);
    }
  }

  /** A step while still in the headers: the first empty line, if this is it, starts an empty body. */
  lemma ConsistentInHeaders(s: ParserState, t: ParserState, prefix: seq<string>, line: string)
    requires Consistent(s, prefix) && FirstEmpty(prefix).None?
    requires t.inHeaders == (s.inHeaders && line != "")
    requires t.body == (if s.inHeaders then s.body else s.body + line + "\n")
    requires t.parsed.bodyText == s.parsed.bodyText && t.parsed.bodyHtml == s.parsed.bodyHtml
    ensures Consistent(t, prefix + [line])
  {
    var lines := prefix + [line];
    assert lines[..|lines| - 1] == prefix;
    if line == "" {
      assert FirstEmpty(lines) == Some(|prefix|);
      assert lines[|prefix| + 1..] == [];
    } else {
      assert FirstEmpty(lines) == None;
    }
  }

  /** A step in the body: the line is appended to the body text. */
  lemma ConsistentInBody(s: ParserState, t: ParserState, prefix: seq<string>, line: string)
    requires Consistent(s, prefix) && FirstEmpty(prefix).Some?
    requires t.inHeaders == (s.inHeaders && line != "")
    requires t.body == (if s.inHeaders then s.body else s.body + line + "\n")
    requires t.parsed.bodyText == s.parsed.bodyText && t.parsed.bodyHtml == s.parsed.bodyHtml
    ensures Consistent(t, prefix + [line])
  {
    BodySoFarSnoc(prefix, line);
  }

  /** What one step does to the mode, the body text and the two body fields. */
  lemma StepLineShape(s: ParserState, line: string)
    requires StepLine(s, line).Ok?
    ensures var t := StepLine(s, line).value;
      && t.inHeaders == (s.inHeaders && line != "")
      && t.body == (if s.inHeaders then s.body else s.body + line + "\n")
      && t.parsed.bodyText == s.parsed.bodyText
      && t.parsed.bodyHtml == s.parsed.bodyHtml
  {
  }

  /** The first empty line ends the headers; `bodyText` is the trimmed rest, present exactly when some line follows it. */
  lemma ParseBody(lines: seq<string>)
    ensures ParseLines(lines).Ok? ==> ParseLines(lines).value.bodyText == BodyOf(lines)
  {
    if RunLines(Start, lines).Ok? {
      RunLinesConsistent(lines);
      match FirstEmpty(lines)
      case None =>
      case Some(k) =>
        assert k + 1 < |lines| <==> lines[k + 1..] != [];
    }
  }

  /** The parser never sets `bodyHtml`. */
  lemma ParseNeverSetsHtml(data: string)
    ensures Parse(data).Ok? ==> Parse(data).value.bodyHtml == None
  {
    if RunLines(Start, Lines(data)).Ok? {
      RunLinesConsistent(Lines(data));
    }
  }

  /**
   * Without an empty line the input never leaves the headers, and the
   * header still pending at the end is never recorded: the result is the
   * message as the last flush left it.
   */
  lemma UnterminatedHeaderDropped(lines: seq<string>)
    requires forall k :: 0 <= k < |lines| ==> lines[k] != ""
    requires RunLines(Start, lines).Ok?
    ensures RunLines(Start, lines).value.inHeaders
    ensures ParseLines(lines) == Ok(RunLines(Start, lines).value.parsed)
  {
    RunLinesConsistent(lines);
  }

  /** The empty line that ends the headers records the pending header (when it has a name). */
  lemma SeparatorRecordsPending(lines: seq<string>)
    requires forall k :: 0 <= k < |lines| ==> lines[k] != ""
    requires RunLines(Start, lines).Ok?
    ensures var st := RunLines(Start, lines).value;
      ParseLines(lines + [""]) == Flush(st.parsed, st.name, st.value)
  {
    RunLinesConsistent(lines);
    assert (lines + [""])[..|lines|] == lines;
  }

  /** A header line starts a new pending header: split at its first ':' only, both sides trimmed, after the previous one is flushed. */
  lemma HeaderLineStartsHeader(st: ParserState, n: string, v: string)
    requires st.inHeaders && ':' !in n
    requires n == [] || (n[0] != ' ' && n[0] != '\t')
    requires Flush(st.parsed, st.name, st.value).Ok?
    ensures StepLine(st, n + ":" + v) ==
      Ok(st.(parsed := Flush(st.parsed, st.name, st.value).value, name := Trim(n), value := Trim(v)))
  {
    var line := n + ":" + v;
    assert line[..|n|] == n;
    FindAt(line, ':', |n|);
    assert line[|n| + 1..] == v;
    assert line != "" && !IsContinuation(line) by {
      assert line[|n|] == ':';
      if n != [] {
        assert line[0] == n[0];
      }
    }
    var p := Flush(st.parsed, st.name, st.value).value;
    assert StartHeader(st.(parsed := p), line) == st.(parsed := p, name := Trim(n), value := Trim(v));
  }

  /** A line starting with a space or a tab extends the pending value with one space and the trimmed line. */
  lemma ContinuationAppends(st: ParserState, line: string)
    requires st.inHeaders && IsContinuation(line)
    ensures StepLine(st, line) == Ok(st.(value := st.value + " " + Trim(line)))
  {
  }

  /** Running two stretches of lines one after the other is running them together. */
  lemma {:induction false} RunLinesAppend(st: ParserState, a: seq<string>, b: seq<string>)
    ensures RunLines(st, a + b) ==
      match RunLines(st, a)
      case Panic => Panic
      case Ok(s) => RunLines(s, b)
    decreases |b|
  {
    if b == [] {
      assert a + b == a;
    } else {
      var front := b[..|b| - 1];
      assert (a + b)[..|a + b| - 1] == a + front;
      assert (a + b)[|a + b| - 1] == b[|b| - 1];
      RunLinesAppend(st, a, front);
    }
  }

  /** Once the headers have ended, every line goes to the body text and nothing else changes. */
  lemma {:induction false} BodyLinesCollected(st: ParserState, lines: seq<string>)
    requires !st.inHeaders
    ensures RunLines(st, lines) == Ok(st.(body := st.body + Terminated(lines)))
    decreases |lines|
  {
    if lines != [] {
      var front := lines[..|lines| - 1];
      var last := lines[|lines| - 1];
      BodyLinesCollected(st, front);
      var mid := st.(body := st.body + Terminated(front));
      assert RunLines(st, lines) == StepLine(mid, last);
      assert StepLine(mid, last) == Ok(mid.(body := mid.body + last + "\n"));
      assert mid.body + last + "\n" == st.body + Terminated(lines);
    } else {
      assert st.body + Terminated(lines) == st.body;
    }
  }

  /** A header name as the parser reads it off a line: no ':' in it and no leading space or tab. */
  predicate HeaderName(n: string) {
    ':' !in n && (n == [] || (n[0] != ' ' && n[0] != '\t'))
  }

  /** The message after a From, a To and a Subject header line have been recorded. */
  function ThreeHeaders(nf: string, f: string, nt: string, t: string, ns: string, s: string): Outcome<ParsedEmail> {
    match (ExtractEmail(Trim(f)), ParseAddressList(Trim(t)))
    case (Ok(from), Ok(to)) =>
      Ok(Empty().(from := from, to := to, subject := Some(Trim(s)),
                  headers := map[Trim(nf) := Trim(f), Trim(nt) := Trim(t), Trim(ns) := Trim(s)]))
    case _ => Panic
  }

  /** A From and then a To header line: the From header is flushed by the To line, which is left pending. */
  lemma FromToLines(nf: string, f: string, nt: string, t: string)
    requires HeaderName(nf) && HeaderName(nt)
    requires FieldOf(Trim(nf)) == FromField && ExtractEmail(Trim(f)).Ok?
    ensures RunLines(Start, [nf + ":" + f, nt + ":" + t]) ==
      Ok(Start.(parsed := Empty().(from := ExtractEmail(Trim(f)).value, headers := map[Trim(nf) := Trim(f)]),
                name := Trim(nt), value := Trim(t)))
  {
    var lines := [nf + ":" + f, nt + ":" + t];
    assert ToLower("") == "";
    HeaderLineStartsHeader(Start, nf, f);
    var s1 := Start.(name := Trim(nf), value := Trim(f));
    assert RunLines(Start, lines[..1]) == Ok(s1) by {
      assert lines[..1][..0] == [];
    }
    var p1 := Empty().(from := ExtractEmail(Trim(f)).value, headers := map[Trim(nf) := Trim(f)]);
    assert Flush(s1.parsed, s1.name, s1.value) == Ok(p1);
    HeaderLineStartsHeader(s1, nt, t);
  }

  /** A From, a To and a Subject header line, then the empty line: each header is flushed by the line after it. */
  lemma HeaderBlock(nf: string, f: string, nt: string, t: string, ns: string, s: string)
    requires HeaderName(nf) && HeaderName(nt) && HeaderName(ns)
    requires FieldOf(Trim(nf)) == FromField && FieldOf(Trim(nt)) == ToField && FieldOf(Trim(ns)) == SubjectField
    requires ExtractEmail(Trim(f)).Ok? && ParseAddressList(Trim(t)).Ok?
    ensures RunLines(Start, [nf + ":" + f, nt + ":" + t, ns + ":" + s, ""]) ==
      Ok(ParserState(ThreeHeaders(nf, f, nt, t, ns, s).value, false, Trim(ns), Trim(s), ""))
  {
    var lines := [nf + ":" + f, nt + ":" + t, ns + ":" + s, ""];
    FromToLines(nf, f, nt, t);
    var p1 := Empty().(from := ExtractEmail(Trim(f)).value, headers := map[Trim(nf) := Trim(f)]);
    var s2 := Start.(parsed := p1, name := Trim(nt), value := Trim(t));
    assert RunLines(Start, lines[..2]) == Ok(s2) by {
      assert lines[..2] == [nf + ":" + f, nt + ":" + t];
    }
    var p2 := p1.(to := ParseAddressList(Trim(t)).value, headers := p1.headers[Trim(nt) := Trim(t)]);
    assert Flush(s2.parsed, s2.name, s2.value) == Ok(p2);
    HeaderLineStartsHeader(s2, ns, s);
    var s3 := s2.(parsed := p2, name := Trim(ns), value := Trim(s));
    assert RunLines(Start, lines[..3]) == Ok(s3) by {
      assert lines[..3][..2] == lines[..2];
    }
    var p3 := p2.(subject := Some(Trim(s)), headers := p2.headers[Trim(ns) := Trim(s)]);
    assert Flush(s3.parsed, s3.name, s3.value) == Ok(p3);
    assert p3 == ThreeHeaders(nf, f, nt, t, ns, s).value;
    assert lines[..3] == lines[..|lines| - 1];
  }

  /**
   * A message whose header block is a From, a To and a Subject line: the
   * three fields hold what their trimmed values give, the raw headers are
   * recorded under their trimmed names, and the body is the lines after
   * the empty one.
   */
  lemma ParseThreeHeaders(nf: string, f: string, nt: string, t: string, ns: string, s: string, body: seq<string>)
    requires HeaderName(nf) && HeaderName(nt) && HeaderName(ns)
    requires FieldOf(Trim(nf)) == FromField && FieldOf(Trim(nt)) == ToField && FieldOf(Trim(ns)) == SubjectField
    requires ExtractEmail(Trim(f)).Ok? && ParseAddressList(Trim(t)).Ok?
    ensures var r := ParseLines([nf + ":" + f, nt + ":" + t, ns + ":" + s, ""] + body);
      && r.Ok?
      && r.value.from == ExtractEmail(Trim(f)).value
      && r.value.to == ParseAddressList(Trim(t)).value
      && r.value.cc == [] && r.value.bcc == []
      && r.value.subject == Some(Trim(s))
      && r.value.headers == map[Trim(nf) := Trim(f), Trim(nt) := Trim(t), Trim(ns) := Trim(s)]
      && r.value.bodyText == (if body == [] then None else Some(Trim(Terminated(body))))
  {
    var head := [nf + ":" + f, nt + ":" + t, ns + ":" + s, ""];
    HeaderBlock(nf, f, nt, t, ns, s);
    var st := ParserState(ThreeHeaders(nf, f, nt, t, ns, s).value, false, Trim(ns), Trim(s), "");
    RunLinesAppend(Start, head, body);
    BodyLinesCollected(st, body);
    assert "" + Terminated(body) == Terminated(body);
  }

  /** A lone address, after the space that follows the header's colon, is read back as itself. */
  lemma LoneAddress(address: string)
    requires Unpadded(address) && '<' !in address
    ensures ExtractEmail(Trim(" " + address)) == Ok(address)
  {
    TrimLeadingSpace(address);
    ExtractEmailUnbracketed(address);
    TrimUnpadded(address);
  }

  /** A lone address without a comma, after the header's colon and space, is a list of itself alone. */
  lemma LoneRecipient(address: string)
    requires Unpadded(address) && '<' !in address && ',' !in address
    ensures ParseAddressList(Trim(" " + address)) == Ok([address])
  {
    LoneAddress(address);
    assert Split(address, ',') == [address];
    assert AddressOf(address) == Ok(address);
    assert AddressesOf([address]) == Prepend(AddressOf(address), AddressesOf([]));
    assert [address] + [] == [address];
  }

  /** The header lines of a plain client, as name, ':' and value. */
  lemma PlainHeaderLines(sender: string, recipient: string, subject: string)
    ensures ["From: " + sender, "To: " + recipient, "Subject: " + subject, ""] ==
      ["From" + ":" + (" " + sender), "To" + ":" + (" " + recipient), "Subject" + ":" + (" " + subject), ""]
  {
    assert "From: " + sender == "From" + ":" + (" " + sender);
    assert "To: " + recipient == "To" + ":" + (" " + recipient);
    assert "Subject: " + subject == "Subject" + ":" + (" " + subject);
  }

  /**
   * The message text of a plain client: `From: sender`, `To: recipient`,
   * `Subject: subject` and an empty line, each ended by CR LF, then one
   * body line. The parse gives the sender, the one recipient, the subject
   * and the body line back.
   */
  lemma ParseSimpleEmail(sender: string, recipient: string, subject: string, body: string)
    requires Unpadded(sender) && Unpadded(recipient) && Unpadded(subject) && Unpadded(body)
    requires '<' !in sender && '<' !in recipient && ',' !in recipient
    ensures var r := Parse(CrLfTerminated(["From: " + sender, "To: " + recipient, "Subject: " + subject, ""]) + body);
      && r.Ok?
      && r.value.from == sender
      && r.value.to == [recipient]
      && r.value.subject == Some(subject)
      && r.value.bodyText == Some(body)
  {
    SimpleLines(sender, recipient, subject, body);
    PlainHeaderNames();
    LoneAddress(sender);
    LoneRecipient(recipient);
    TrimLeadingSpace(subject);
    ParseThreeHeaders("From", " " + sender, "To", " " + recipient, "Subject", " " + subject, [body]);
    OneBodyLine(body);
  }

  /** The lines of a plain client's message: the three headers as name, ':' and value, the empty line and the body line. */
  lemma SimpleLines(sender: string, recipient: string, subject: string, body: string)
    requires Unpadded(sender) && Unpadded(recipient) && Unpadded(subject) && Unpadded(body)
    ensures Lines(CrLfTerminated(["From: " + sender, "To: " + recipient, "Subject: " + subject, ""]) + body) ==
      ["From" + ":" + (" " + sender), "To" + ":" + (" " + recipient), "Subject" + ":" + (" " + subject), ""] + [body]
  {
    var head := ["From: " + sender, "To: " + recipient, "Subject: " + subject, ""];
    assert '\n' !in head[0] && '\n' !in head[1] && '\n' !in head[2] && '\n' !in head[3];
    LinesCrLfTerminated(head, body);
    LinesLast(body);
    PlainHeaderLines(sender, recipient, subject);
  }

  /** The body text of one body line is that line, when it is unpadded. */
  lemma OneBodyLine(body: string)
    requires Unpadded(body)
    ensures (if [body] == [] then None else Some(Trim(Terminated([body])))) == Some(body)
  {
    assert [body][..0] == [];
    assert Terminated([body]) == "" + body + "\n";
    assert "" + body + "\n" == body + "\n";
    TrimLineFeed(body);
  }

  /** The three header names of a plain client, as the parser classifies them. */
  lemma PlainHeaderNames()
    ensures HeaderName("From") && HeaderName("To") && HeaderName("Subject")
    ensures FieldOf(Trim("From")) == FromField && FieldOf(Trim("To")) == ToField
    ensures FieldOf(Trim("Subject")) == SubjectField
  {
    TrimUnpadded("From");
    TrimUnpadded("To");
    TrimUnpadded("Subject");
    assert ToLower("From") == "from";
    assert ToLower("To") == "to";
    assert ToLower("Subject") == "subject";
  }
}
