/**
 * The policy service of the receiver (port 12345): a mail transfer agent
 * sends one query of `key=value` lines ended by an empty line and gets one
 * verdict back. The only attribute looked at is `recipient`, and the
 * verdict is a fixed rule on its domain.
 *
 * The connection is given as the successive results of `read_line`; an
 * empty chunk is a read of 0 bytes, the end of the stream, and so is the
 * end of the sequence.
 */
module PolicyService {
  import opened Wrappers
  import opened Text

  const Accept := "action=OK\n\n"
  const Reject := "action=REJECT Domene ikke støttet\n\n"
  const Domain := "@restmail.org"
  const RecipientKey := "recipient="

  /** The verdict for the recipient recorded so far. */
  function Verdict(recipient: string): string {
    if EndsWith(recipient, Domain) then Accept else Reject
  }

  /** A recipient is accepted exactly when it ends with "@restmail.org", and rejected otherwise (the empty one among them). */
  lemma VerdictRule(recipient: string)
    ensures Verdict(recipient) == Accept <==> EndsWith(recipient, Domain)
    ensures Verdict(recipient) == Reject <==> !EndsWith(recipient, Domain)
    ensures Verdict("") == Reject
  {
    assert Accept[7] != Reject[7];
  }

  /** The recipient a trimmed `recipient=` line gives: the text after its last '='. */
  function RecipientOf(trimmed: string): string {
    var parts := Split(trimmed, '=');
    parts[|parts| - 1]
  }

  predicate IsRecipientLine(trimmed: string) {
    StartsWith(trimmed, RecipientKey)
  }

  /** The recipient recorded after reading `chunks`: from the last `recipient=` line, or empty when there is none. */
  function Recorded(chunks: seq<string>): string {
    if chunks == [] then ""
    else
      var t := Trim(chunks[|chunks| - 1]);
      if IsRecipientLine(t) then RecipientOf(t) else Recorded(chunks[..|chunks| - 1])
  }

  /** A chunk that ends the query: empty after trimming (the empty chunk, end of stream, among them). */
  predicate Ends(chunk: string) {
    Blank(chunk)
  }

  /** The index of the first chunk that ends the query. */
  function FirstEnd(input: seq<string>): (r: Option<nat>)
    ensures r.Some? ==> r.value < |input| && Ends(input[r.value])
  {
    if input == [] then None
    else
      match FirstEnd(input[..|input| - 1])
      case Some(k) => Some(k)
      case None => if Ends(input[|input| - 1]) then Some(|input| - 1) else None
  }

  /** `FirstEnd` finds the first chunk that ends the query, and finds nothing only when no chunk does. */
  lemma {:induction false} FirstEndIsFirst(input: seq<string>)
    ensures FirstEnd(input).Some? ==> forall k :: 0 <= k < FirstEnd(input).value ==> !Ends(input[k])
    ensures FirstEnd(input).None? ==> forall k :: 0 <= k < |input| ==> !Ends(input[k])
  {
    if input != [] {
      var init := input[..|input| - 1];
      FirstEndIsFirst(init);
      assert forall k :: 0 <= k < |init| ==> init[k] == input[k];
    }
  }

  /**
   * What the handler writes on the connection: the verdict for the
   * recipient recorded before the first blank line, or nothing when the
   * stream ends before one.
   */
  function Response(input: seq<string>): Option<string> {
    match FirstEnd(input)
    case None => None
    case Some(k) => if input[k] == "" then None else Some(Verdict(Recorded(input[..k])))
  }

  /** `handle_policy`: read lines until a blank one, keep the last recipient, then answer once. */
  method HandlePolicy(input: seq<string>) returns (written: Option<string>, consumed: nat)
    ensures written == Response(input)
    ensures FirstEnd(input).Some? ==> consumed == FirstEnd(input).value + 1
    ensures FirstEnd(input).None? ==> consumed == |input|
  {
    var recipient := "";
    var i := 0;
    written := None;
    while i < |input|
      invariant i <= |input|
      invariant FirstEnd(input[..i]) == None
      invariant recipient == Recorded(input[..i])
      decreases |input| - i
    {
      var line := input[i];
      if line == "" {
        PolicyStepEnds(input, i);
        assert Response(input) == None;
        consumed := i + 1;
        return;
      }
      var trimmed := Trim(line);
      BlankTrim(line);
      if trimmed == "" {
        PolicyStepEnds(input, i);
        assert Response(input) == Some(Verdict(recipient));
        written := Some(if EndsWith(recipient, Domain) then Accept else Reject);
        consumed := i + 1;
        return;
      }
      PolicyStepGoesOn(input, i);
      if StartsWith(trimmed, RecipientKey) {
        var parts := Split(trimmed, '=');
        recipient := parts[|parts| - 1];
      }
      i := i + 1;
    }
    assert input[..i] == input;
    consumed := i;
  }

  /** A loop iteration at a chunk that ends the query: that chunk fixes the response. */
  lemma PolicyStepEnds(input: seq<string>, i: nat)
    requires i < |input| && FirstEnd(input[..i]) == None && Ends(input[i])
    ensures FirstEnd(input) == Some(i)
  {
    assert input[..i + 1][..i] == input[..i];
    assert FirstEnd(input[..i + 1]) == Some(i);
    FirstEndPrefix(input, i + 1);
  }

  /** A loop iteration at any other chunk: the query goes on, and a recipient line replaces the recorded recipient. */
  lemma PolicyStepGoesOn(input: seq<string>, i: nat)
    requires i < |input| && FirstEnd(input[..i]) == None && !Ends(input[i])
    ensures FirstEnd(input[..i + 1]) == None
    ensures Recorded(input[..i + 1]) ==
      var t := Trim(input[i]); if IsRecipientLine(t) then RecipientOf(t) else Recorded(input[..i])
  {
    assert input[..i + 1][..i] == input[..i];
  }

  /** Once a prefix of the input holds the end of the query, the rest of the input is never looked at. */
  lemma {:induction false} FirstEndPrefix(input: seq<string>, n: nat)
    requires n <= |input| && FirstEnd(input[..n]).Some?
    ensures FirstEnd(input) == FirstEnd(input[..n])
    decreases |input| - n
  {
    if n < |input| {
      assert input[..n + 1][..n] == input[..n];
      FirstEndPrefix(input, n + 1);
    } else {
      assert input[..n] == input;
    }
  }

  /** Chunks after the blank line change nothing: the handler has stopped reading. */
  lemma ResponseIgnoresRest(input: seq<string>, rest: seq<string>)
    requires FirstEnd(input).Some?
    ensures Response(input + rest) == Response(input)
  {
    var all := input + rest;
    assert all[..|input|] == input;
    FirstEndPrefix(all, |input|);
    var k := FirstEnd(input).value;
    assert all[..k] == input[..k];
  }

  /** The recipient is the text after the last '=' of the line: it holds no '=' and what precedes it ends with one. */
  lemma RecipientAfterLastEquals(trimmed: string)
    requires IsRecipientLine(trimmed)
    ensures '=' !in RecipientOf(trimmed)
    ensures exists k :: 0 <= k < |trimmed| && trimmed[k] == '=' && RecipientOf(trimmed) == trimmed[k + 1..]
  {
    assert trimmed[9] == '=';
    var k := SplitLast(trimmed, '=');
  }

  /** A line `recipient=` followed by an address with no '=' records exactly that address. */
  lemma RecipientOfAddress(address: string)
    requires '=' !in address
    ensures IsRecipientLine(RecipientKey + address)
    ensures RecipientOf(RecipientKey + address) == address
  {
    var t := RecipientKey + address;
    assert t[..10] == RecipientKey;
    assert t == "recipient" + ['='] + address;
    SplitPrefix("recipient", '=', address);
    assert Split(address, '=') == [address];
  }

  /** The last `recipient=` line wins: lines after it that are not recipient lines do not change the recorded value. */
  lemma {:induction false} RecordedLastWins(before: seq<string>, line: string, after: seq<string>)
    requires IsRecipientLine(Trim(line))
    requires forall k :: 0 <= k < |after| ==> !IsRecipientLine(Trim(after[k]))
    ensures Recorded(before + [line] + after) == RecipientOf(Trim(line))
    decreases |after|
  {
    var all := before + [line] + after;
    if after == [] {
      assert all[..|all| - 1] == before;
    } else {
      var shorter := after[..|after| - 1];
      assert all[..|all| - 1] == before + [line] + shorter;
      assert all[|all| - 1] == after[|after| - 1];
      RecordedLastWins(before, line, shorter);
    }
  }

  /** With no `recipient=` line at all the recorded value is empty. */
  lemma {:induction false} RecordedNone(chunks: seq<string>)
    requires forall k :: 0 <= k < |chunks| ==> !IsRecipientLine(Trim(chunks[k]))
    ensures Recorded(chunks) == ""
  {
    if chunks != [] {
      RecordedNone(chunks[..|chunks| - 1]);
    }
  }

  /** A query without a recipient is rejected. */
  lemma NoRecipientRejects(input: seq<string>)
    requires FirstEnd(input).Some? && input[FirstEnd(input).value] != ""
    requires forall k :: 0 <= k < |input| ==> !IsRecipientLine(Trim(input[k]))
    ensures Response(input) == Some(Reject)
  {
    var k := FirstEnd(input).value;
    RecordedNone(input[..k]);
  }

  /**
   * The query of the test client: attribute lines, the recipient line, an
   * empty line. A recipient in the restmail.org domain is accepted and any
   * other is rejected.
   */
  lemma QueryVerdict(attributes: seq<string>, address: string)
    requires forall k :: 0 <= k < |attributes| ==> !Ends(attributes[k])
    requires '=' !in address
    requires address != [] && !IsSpace(address[|address| - 1])
    ensures Response(attributes + [RecipientKey + address + "\n", "\n"]) == Some(Verdict(address))
  {
    var line := RecipientKey + address + "\n";
    var input := attributes + [line, "\n"];
    TrimRecipientLine(address);
    RecipientOfAddress(address);
    assert Blank("\n") by {
      assert "\n"[1..] == [];
    }
    BlankTrim(line);
    assert Ends(input[|attributes| + 1]);
    assert !Ends(input[|attributes|]);
    assert forall k :: 0 <= k < |attributes| ==> input[k] == attributes[k];
    FirstEndAt(input, |attributes| + 1);
    assert input[..|attributes| + 1] == attributes + [line] + [];
    RecordedLastWins(attributes, line, []);
  }

  /** The trimmed recipient line is the key and the address. */
  lemma TrimRecipientLine(address: string)
    requires address != [] && !IsSpace(address[|address| - 1])
    ensures Trim(RecipientKey + address + "\n") == RecipientKey + address
  {
    var t := RecipientKey + address;
    var s := t + "\n";
    assert TrimStart(s) == s;
    assert s[..|s| - 1] == t;
    assert TrimEnd(s) == TrimEnd(t);
    assert TrimEnd(t) == t;
  }

  /** The first chunk ending the query is the one at `i` when none before it does. */
  lemma {:induction false} FirstEndAt(input: seq<string>, i: nat)
    requires i < |input| && Ends(input[i])
    requires forall k :: 0 <= k < i ==> !Ends(input[k])
    ensures FirstEnd(input) == Some(i)
  {
    FirstEndNone(input[..i]);
    assert input[..i + 1][..i] == input[..i];
    assert FirstEnd(input[..i + 1]) == Some(i);
    FirstEndPrefix(input, i + 1);
  }

  /** When no chunk ends the query there is no first one. */
  lemma {:induction false} FirstEndNone(input: seq<string>)
    requires forall k :: 0 <= k < |input| ==> !Ends(input[k])
    ensures FirstEnd(input) == None
  {
    if input != [] {
      FirstEndNone(input[..|input| - 1]);
    }
  }
}
