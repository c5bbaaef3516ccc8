/**
 * ASCII versions of the Rust `str` operations the receiver relies on:
 * `trim`, `to_lowercase`, `to_uppercase`, `starts_with`, `ends_with`,
 * `find`, `split` and `lines`.
 */
module Text {
  import opened Wrappers

  /** The ASCII characters for which Rust's `char::is_whitespace` holds. */
  predicate IsSpace(c: char) {
    c == ' ' || c == '\t' || c == '\n' || c == '\r' || c == '\U{000B}' || c == '\U{000C}'
  }

  /** `s` with its leading whitespace removed (`str::trim_start`). */
  function TrimStart(s: string): string {
    if |s| > 0 && IsSpace(s[0]) then TrimStart(s[1..]) else s
  }

  /** `TrimStart` drops a run of leading whitespace and stops at the first other character. */
  lemma {:induction false} TrimStartShape(s: string)
    ensures var r := TrimStart(s);
      |r| <= |s| && r == s[|s| - |r|..] && (r == [] || !IsSpace(r[0]))
    ensures forall i :: 0 <= i < |s| - |TrimStart(s)| ==> IsSpace(s[i])
  {
    if |s| > 0 && IsSpace(s[0]) {
      TrimStartShape(s[1..]);
    }
  }

  /** `s` with its trailing whitespace removed (`str::trim_end`). */
  function TrimEnd(s: string): string {
    if |s| > 0 && IsSpace(s[|s| - 1]) then TrimEnd(s[..|s| - 1]) else s
  }

  /** `TrimEnd` drops a run of trailing whitespace and stops at the last other character. */
  lemma {:induction false} TrimEndShape(s: string)
    ensures var r := TrimEnd(s);
      |r| <= |s| && r == s[..|r|] && (r == [] || !IsSpace(r[|r| - 1]))
    ensures forall i :: |TrimEnd(s)| <= i < |s| ==> IsSpace(s[i])
  {
    if |s| > 0 && IsSpace(s[|s| - 1]) {
      TrimEndShape(s[..|s| - 1]);
    }
  }

  /** `str::trim`: whitespace removed at both ends. */
  function Trim(s: string): string {
    TrimEnd(TrimStart(s))
  }

  /** Trimming never lengthens a text: it keeps the part between a leading and a trailing run of whitespace. */
  lemma TrimSlice(s: string)
    ensures |Trim(s)| <= |s|
    ensures var k := |s| - |TrimStart(s)|; 0 <= k <= k + |Trim(s)| <= |s| && Trim(s) == s[k..k + |Trim(s)|]
  {
    TrimStartShape(s);
    TrimEndShape(TrimStart(s));
  }

  /** Text that neither starts nor ends with whitespace is its own trim. */
  lemma TrimUnpadded(s: string)
    requires s == [] || (!IsSpace(s[0]) && !IsSpace(s[|s| - 1]))
    ensures Trim(s) == s
  {
  }

  /** A non-empty line that neither starts nor ends with whitespace and holds no line feed. */
  predicate Unpadded(s: string) {
    s != [] && !IsSpace(s[0]) && !IsSpace(s[|s| - 1]) && '\n' !in s
  }

  /** One leading space is trimmed off a text that is otherwise unpadded. */
  lemma TrimLeadingSpace(s: string)
    requires Unpadded(s)
    ensures Trim(" " + s) == s
  {
    calc {
      Trim(" " + s);
      TrimEnd(TrimStart(" " + s));
      { assert (" " + s)[1..] == s; }
      TrimEnd(TrimStart(s));
      TrimEnd(s);
      s;
    }
  }

  /** A line feed after an unpadded text is trimmed off. */
  lemma TrimLineFeed(s: string)
    requires Unpadded(s)
    ensures Trim(s + "\n") == s
  {
    var t := s + "\n";
    calc {
      Trim(t);
      TrimEnd(TrimStart(t));
      { assert t[0] == s[0]; }
      TrimEnd(t);
      { assert t[..|t| - 1] == s; }
      TrimEnd(s);
      s;
    }
  }

  /** Text made of whitespace only (the empty text among it). */
  predicate Blank(s: string) {
    s == [] || (IsSpace(s[0]) && Blank(s[1..]))
  }

  lemma {:induction false} BlankTrimStart(s: string)
    ensures Blank(s) <==> TrimStart(s) == []
  {
    if s != [] && IsSpace(s[0]) {
      BlankTrimStart(s[1..]);
    }
  }

  /** A text trims to nothing exactly when it is blank. */
  lemma BlankTrim(s: string)
    ensures Blank(s) <==> Trim(s) == []
  {
    BlankTrimStart(s);
    var t := TrimStart(s);
    TrimStartShape(s);
    TrimEndShape(t);
  }

  function LowerChar(c: char): char {
    if 'A' <= c <= 'Z' then (c as int + 32) as char else c
  }

  function UpperChar(c: char): char {
    if 'a' <= c <= 'z' then (c as int - 32) as char else c
  }

  /** `str::to_lowercase` on ASCII text. */
  function ToLower(s: string): string {
    seq(|s|, i requires 0 <= i < |s| => LowerChar(s[i]))
  }

  /** `str::to_uppercase` on ASCII text. */
  function ToUpper(s: string): string {
    seq(|s|, i requires 0 <= i < |s| => UpperChar(s[i]))
  }

  predicate StartsWith(s: string, prefix: string) {
    |prefix| <= |s| && s[..|prefix|] == prefix
  }

  predicate EndsWith(s: string, suffix: string) {
    |suffix| <= |s| && s[|s| - |suffix|..] == suffix
  }

  /** `str::find` for one character: the index of its first occurrence. */
  function Find(s: string, c: char): (r: Option<nat>)
    ensures r.None? <==> c !in s
    ensures r.Some? ==> r.value < |s| && s[r.value] == c && c !in s[..r.value]
  {
    if |s| == 0 then None
    else if s[0] == c then Some(0)
    else match Find(s[1..], c)
      case None =>
        assert s == [s[0]] + s[1..];
        None
      case Some(i) =>
        assert s[..i + 1] == [s[0]] + s[1..][..i];
        Some(i + 1)
  }

  /** The first occurrence is unique: any index before which `c` does not occur is the one `Find` gives. */
  lemma FindAt(s: string, c: char, i: nat)
    requires i < |s| && s[i] == c && c !in s[..i]
    ensures Find(s, c) == Some(i)
  {
  }

  /** `str::split` on one character, including the empty segments. */
  function Split(s: string, c: char): (r: seq<string>)
    ensures |r| >= 1
    ensures |r| == 1 <==> c !in s
    decreases |s|
  {
    match Find(s, c)
    case None => [s]
    case Some(i) => [s[..i]] + Split(s[i + 1..], c)
  }

  /** Splitting at the first separator peels off the text before it. */
  lemma SplitPrefix(a: string, c: char, b: string)
    requires c !in a
    ensures Split(a + [c] + b, c) == [a] + Split(b, c)
  {
    var s := a + [c] + b;
    assert s[..|a|] == a;
    FindAt(s, c, |a|);
    assert s[|a| + 1..] == b;
  }

  /** Splitting at the first separator, at index `i`. */
  lemma SplitCons(s: string, c: char, i: nat)
    requires i < |s| && s[i] == c && c !in s[..i]
    ensures Split(s, c) == [s[..i]] + Split(s[i + 1..], c)
  {
    FindAt(s, c, i);
  }

  /** The text after the last occurrence of `c`, or all of `s` when there is none. */
  function AfterLast(s: string, c: char): string
    decreases |s|
  {
    match Find(s, c)
    case None => s
    case Some(i) => AfterLast(s[i + 1..], c)
  }

  /** The last segment of a split is the text after the last separator. */
  lemma {:induction false} SplitLastSegment(s: string, c: char)
    ensures var parts := Split(s, c); parts[|parts| - 1] == AfterLast(s, c)
    decreases |s|
  {
    match Find(s, c)
    case None =>
    case Some(i) =>
      var tail := Split(s[i + 1..], c);
      assert Split(s, c) == [s[..i]] + tail;
      assert Split(s, c)[|Split(s, c)| - 1] == tail[|tail| - 1];
      SplitLastSegment(s[i + 1..], c);
  }

  /** When `c` occurs, the text after the last one starts just past an occurrence at the index `k` returned and holds none. */
  lemma {:induction false} AfterLastShape(s: string, c: char) returns (k: nat)
    requires c in s
    ensures k < |s| && s[k] == c
    ensures AfterLast(s, c) == s[k + 1..]
    ensures c !in AfterLast(s, c)
    decreases |s|
  {
    var i := Find(s, c).value;
    var rest := s[i + 1..];
    if c in rest {
      var k' := AfterLastShape(rest, c);
      k := i + 1 + k';
      assert s[k] == rest[k'];
      DropDrop(s, i + 1, k' + 1);
    } else {
      k := i;
    }
  }

  /** The last segment of a split is the text after the last separator, at the index `k` returned. */
  lemma SplitLast(s: string, c: char) returns (k: nat)
    requires c in s
    ensures k < |s| && s[k] == c
    ensures var parts := Split(s, c); parts[|parts| - 1] == s[k + 1..]
    ensures c !in s[k + 1..]
  {
    SplitLastSegment(s, c);
    k := AfterLastShape(s, c);
  }

  lemma DropDrop(s: string, m: nat, n: nat)
    requires m + n <= |s|
    ensures s[m..][n..] == s[m + n..]
  {
  }

  /** Drops one trailing carriage return. */
  function StripCr(l: string): string {
    if |l| > 0 && l[|l| - 1] == '\r' then l[..|l| - 1] else l
  }

  /**
   * `str::lines`: split after each line feed, drop the line feed and a
   * carriage return just before it; no empty last line after a final
   * line feed. A last line with no line feed is kept as it is.
   */
  function Lines(s: string): (r: seq<string>)
    ensures forall k :: 0 <= k < |r| ==> '\n' !in r[k]
    decreases |s|
  {
    if s == [] then []
    else match Find(s, '\n')
      case None => [s]
      case Some(i) => [StripCr(s[..i])] + Lines(s[i + 1..])
  }

  /** A line ended by CR LF. */
  lemma LinesCrLf(l: string, rest: string)
    requires '\n' !in l
    ensures Lines(l + "\r\n" + rest) == [l] + Lines(rest)
  {
    var s := l + "\r\n" + rest;
    assert s[..|l| + 1] == l + "\r";
    assert '\n' !in s[..|l| + 1];
    FindAt(s, '\n', |l| + 1);
    assert s[|l| + 2..] == rest;
    assert StripCr(l + "\r") == l;
  }

  /** The lines, each followed by CR LF. */
  function CrLfTerminated(lines: seq<string>): string {
    if lines == [] then "" else lines[0] + "\r\n" + CrLfTerminated(lines[1..])
  }

  /** Lines written with CR LF endings are read back by `Lines`, whatever follows them. */
  lemma {:induction false} LinesCrLfTerminated(lines: seq<string>, rest: string)
    requires forall k :: 0 <= k < |lines| ==> '\n' !in lines[k]
    ensures Lines(CrLfTerminated(lines) + rest) == lines + Lines(rest)
  {
    if lines != [] {
      var tail := CrLfTerminated(lines[1..]) + rest;
      calc {
        Lines(CrLfTerminated(lines) + rest);
      == { assert CrLfTerminated(lines) + rest == lines[0] + "\r\n" + tail; }
        Lines(lines[0] + "\r\n" + tail);
      == { LinesCrLf(lines[0], tail); }
        [lines[0]] + Lines(tail);
      == { LinesCrLfTerminated(lines[1..], rest); }
        [lines[0]] + (lines[1..] + Lines(rest));
      == { assert lines == [lines[0]] + lines[1..]; }
        lines + Lines(rest);
      }
    } else {
      assert CrLfTerminated(lines) + rest == rest;
    }
  }

  /** A last line with no terminator. */
  lemma LinesLast(l: string)
    requires l != [] && '\n' !in l
    ensures Lines(l) == [l]
  {
  }
}
