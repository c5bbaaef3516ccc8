/**
 * The delivery service of the receiver (port 2525): a minimal SMTP dialog.
 * After the greeting, every command line gets one reply; after DATA the
 * lines are collected verbatim until a line that trims to ".", at which
 * point the collected message is written to a file and the write's outcome
 * is reported.
 *
 * The connection is given as the successive results of `read_line`; an
 * empty chunk is a read of 0 bytes, the end of the stream, and so is the
 * end of the sequence. The outcome of the n-th file write (counting from
 * 0) is `writeOk(n)`.
 */
module MailDelivery {
  import opened Text

  const Greeting := "220 localhost ESMTP Restmail-Receiver\r\n"
  const HelloReply := "250 Hello\r\n"
  const OkReply := "250 Ok\r\n"
  const DataReply := "354 End data with <CR><LF>.<CR><LF>\r\n"
  const ByeReply := "221 Bye\r\n"
  const UnknownReply := "500 Unknown\r\n"
  const QueuedReply := "250 2.0.0 Ok: Queued\r\n"
  const WriteFailedReply := "451 4.3.0 Error: Could not write file\r\n"

  /** The commands the dialog tells apart. */
  datatype Command = Hello | Envelope | DataCmd | QuitCmd | Unknown

  /** The command an upper-cased, trimmed line stands for. */
  function Classify(t: string): Command {
    if StartsWith(t, "HELO") || StartsWith(t, "EHLO") then Hello
    else if StartsWith(t, "MAIL FROM") || StartsWith(t, "RCPT TO") then Envelope
    else if t == "DATA" then DataCmd
    else if t == "QUIT" then QuitCmd
    else Unknown
  }

  /** The command a line read in command mode stands for: it is trimmed and upper-cased first. */
  function CommandOf(chunk: string): Command {
    Classify(ToUpper(Trim(chunk)))
  }

  function ReplyTo(c: Command): string {
    match c
    case Hello => HelloReply
    case Envelope => OkReply
    case DataCmd => DataReply
    case QuitCmd => ByeReply
    case Unknown => UnknownReply
  }

  /** The line that ends the message text. */
  predicate IsTerminator(chunk: string) {
    Trim(chunk) == "."
  }

  /**
   * The state of one connection: the mode, the message collected so far,
   * what was written back, the messages stored, the number of writes tried
   * and whether the session is over.
   */
  datatype Session = Session(
    inData: bool,
    data: string,
    replies: seq<string>,
    stored: seq<string>,
    writes: nat,
    closed: bool)

  /** The session once the greeting is written and before any line is read. */
  const Initial := Session(false, "", [Greeting], [], 0, false)

  /** The terminator line: write the message, report the outcome, leave data mode with an empty buffer. */
  function Store(s: Session, ok: bool): Session {
    Session(
      false,
      "",
      s.replies + [if ok then QueuedReply else WriteFailedReply],
      if ok then s.stored + [s.data] else s.stored,
      s.writes + 1,
      s.closed)
  }

  /** A line in command mode: one reply; DATA enters data mode and QUIT ends the session. */
  function Execute(s: Session, c: Command): Session {
    s.(replies := s.replies + [ReplyTo(c)],
       inData := c == DataCmd,
       closed := c == QuitCmd)
  }

  /** One iteration of the loop, for one chunk. */
  function Step(s: Session, chunk: string, writeOk: nat -> bool): Session {
    if chunk == "" then s.(closed := true)
    else if s.inData then
      if IsTerminator(chunk) then Store(s, writeOk(s.writes)) else s.(data := s.data + chunk)
    else Execute(s, CommandOf(chunk))
  }

  /** The session after the loop has been fed `chunks` from `s`; nothing more is read once it is closed. */
  function RunFrom(s: Session, chunks: seq<string>, writeOk: nat -> bool): Session
    decreases |chunks|
  {
    if chunks == [] then s
    else
      var before := RunFrom(s, chunks[..|chunks| - 1], writeOk);
      if before.closed then before else Step(before, chunks[|chunks| - 1], writeOk)
  }

  function Run(input: seq<string>, writeOk: nat -> bool): Session {
    RunFrom(Initial, input, writeOk)
  }

  /** The chunks one after the other. */
  function Concat(chunks: seq<string>): string {
    if chunks == [] then "" else Concat(chunks[..|chunks| - 1]) + chunks[|chunks| - 1]
  }

  /** `handle_mail_delivery`: greet, then answer line by line until QUIT or the end of the stream. */
  method HandleMailDelivery(input: seq<string>, writeOk: nat -> bool) returns (replies: seq<string>, stored: seq<string>)
    ensures replies == Run(input, writeOk).replies
    ensures stored == Run(input, writeOk).stored
  {
    replies := [Greeting];
    stored := [];
    var writes := 0;
    var inData := false;
    var data := "";
    var i := 0;
    while i < |input|
      invariant i <= |input|
      invariant Run(input[..i], writeOk) == Session(inData, data, replies, stored, writes, false)
      decreases |input| - i
    {
      var line := input[i];
      ghost var s := Session(inData, data, replies, stored, writes, false);
      RunStep(input, i, writeOk);
      if line == "" {
        RunClosedSticks(input, i + 1, writeOk);
        return;
      }
      var trimmed := Trim(line);
      if inData {
        if trimmed == "." {
          var ok := writeOk(writes);
          if ok {
            stored := stored + [data];
            replies := replies + [QueuedReply];
          } else {
            replies := replies + [WriteFailedReply];
          }
          writes := writes + 1;
          inData := false;
          data := "";
          assert Step(s, line, writeOk) == Session(inData, data, replies, stored, writes, false);
        } else {
          data := data + line;
        }
      } else {
        var t := ToUpper(trimmed);
        if StartsWith(t, "HELO") || StartsWith(t, "EHLO") {
          replies := replies + [HelloReply];
        } else if StartsWith(t, "MAIL FROM") || StartsWith(t, "RCPT TO") {
          replies := replies + [OkReply];
        } else if t == "DATA" {
          inData := true;
          replies := replies + [DataReply];
        } else if t == "QUIT" {
          replies := replies + [ByeReply];
          assert Run(input[..i + 1], writeOk).closed;
          RunClosedSticks(input, i + 1, writeOk);
          return;
        } else {
          replies := replies + [UnknownReply];
        }
        assert Step(s, line, writeOk) == Session(inData, data, replies, stored, writes, false);
      }
      i := i + 1;
    }
    assert input[..i] == input;
  }

  /** The run over one more chunk is one more step, unless the session is already closed. */
  lemma RunStep(input: seq<string>, i: nat, writeOk: nat -> bool)
    requires i < |input|
    ensures var before := Run(input[..i], writeOk);
      Run(input[..i + 1], writeOk) == if before.closed then before else Step(before, input[i], writeOk)
  {
    assert input[..i + 1][..i] == input[..i];
  }

  /** Once the session is closed, the rest of the input is never read. */
  lemma {:induction false} RunClosedSticks(input: seq<string>, n: nat, writeOk: nat -> bool)
    requires n <= |input| && Run(input[..n], writeOk).closed
    ensures Run(input, writeOk) == Run(input[..n], writeOk)
    decreases |input| - n
  {
    if n < |input| {
      RunStep(input, n, writeOk);
      RunClosedSticks(input, n + 1, writeOk);
    } else {
      assert input[..n] == input;
    }
  }

  // ---------------------------------------------------------------------
  // Properties of the dialog
  // ---------------------------------------------------------------------

  /** A step only appends to what was written back and to what was stored. */
  lemma StepExtends(s: Session, chunk: string, writeOk: nat -> bool)
    ensures var t := Step(s, chunk, writeOk); s.replies <= t.replies && s.stored <= t.stored
  {
  }

  /**
   * Every line read in command mode gets exactly the reply of its command;
   * DATA, and nothing else, enters data mode and QUIT, and nothing else,
   * ends the session.
   */
  lemma CommandLineReply(s: Session, chunk: string, writeOk: nat -> bool)
    requires !s.inData && chunk != ""
    ensures var t := Step(s, chunk, writeOk);
      t.replies == s.replies + [ReplyTo(CommandOf(chunk))]
      && (t.inData <==> CommandOf(chunk) == DataCmd)
      && (t.closed <==> CommandOf(chunk) == QuitCmd)
      && t.data == s.data && t.stored == s.stored && t.writes == s.writes
  {
  }

  /** A line of message text is appended as it was read, line ending included, and gets no reply. */
  lemma DataLineAppended(s: Session, chunk: string, writeOk: nat -> bool)
    requires s.inData && chunk != "" && !IsTerminator(chunk)
    ensures Step(s, chunk, writeOk) == s.(data := s.data + chunk)
  {
  }

  /**
   * The terminator line writes the collected message: on success it is
   * stored and "250 2.0.0 Ok: Queued" is sent, on failure "451 4.3.0 Error:
   * Could not write file"; either way data mode ends with an empty buffer.
   */
  lemma TerminatorWrites(s: Session, chunk: string, writeOk: nat -> bool)
    requires s.inData && chunk != "" && IsTerminator(chunk)
    ensures var t := Step(s, chunk, writeOk);
      && !t.inData && t.data == "" && t.writes == s.writes + 1 && t.closed == s.closed
      && (writeOk(s.writes) ==> t.replies == s.replies + [QueuedReply] && t.stored == s.stored + [s.data])
      && (!writeOk(s.writes) ==> t.replies == s.replies + [WriteFailedReply] && t.stored == s.stored)
  {
  }

  /** A session ends only on the end of the stream or on QUIT in command mode. */
  lemma StepCloses(s: Session, chunk: string, writeOk: nat -> bool)
    requires !s.closed
    ensures Step(s, chunk, writeOk).closed <==> chunk == "" || (!s.inData && CommandOf(chunk) == QuitCmd)
  {
  }

  /** What every reachable session satisfies: the greeting came first, and the buffer is empty outside data mode. */
  ghost predicate Reachable(s: Session) {
    && |s.replies| >= 1 && s.replies[0] == Greeting
    && (!s.inData ==> s.data == "")
    && |s.stored| <= s.writes
  }

  lemma StepReachable(s: Session, chunk: string, writeOk: nat -> bool)
    requires Reachable(s)
    ensures Reachable(Step(s, chunk, writeOk))
  {
    StepExtends(s, chunk, writeOk);
  }

  /** The greeting is the first thing written, whatever is read; outside data mode nothing is buffered; no more messages are stored than writes were tried. */
  lemma {:induction false} RunReachable(input: seq<string>, writeOk: nat -> bool)
    ensures Reachable(Run(input, writeOk))
    decreases |input|
  {
    if input != [] {
      var n := |input| - 1;
      RunReachable(input[..n], writeOk);
      RunStep(input, n, writeOk);
      assert input[..n + 1] == input;
      StepReachable(Run(input[..n], writeOk), input[n], writeOk);
    }
  }

  /** What was written back and stored only grows as more input is read. */
  lemma {:induction false} RunExtends(input: seq<string>, more: seq<string>, writeOk: nat -> bool)
    ensures var s, t := Run(input, writeOk), Run(input + more, writeOk);
      s.replies <= t.replies && s.stored <= t.stored
    decreases |more|
  {
    if more == [] {
      assert input + more == input;
    } else {
      var all := input + more;
      var shorter := more[..|more| - 1];
      assert all[..|all| - 1] == input + shorter;
      RunExtends(input, shorter, writeOk);
      var mid := Run(input + shorter, writeOk);
      StepExtends(mid, all[|all| - 1], writeOk);
      PrefixTransitive(Run(input, writeOk).replies, mid.replies, Run(all, writeOk).replies);
      PrefixTransitive(Run(input, writeOk).stored, mid.stored, Run(all, writeOk).stored);
    }
  }

  lemma PrefixTransitive(a: seq<string>, b: seq<string>, c: seq<string>)
    requires a <= b && b <= c
    ensures a <= c
  {
    assert c[..|a|] == c[..|b|][..|a|];
  }

  /** In data mode, text lines pile up in the buffer verbatim and get no reply. */
  lemma {:induction false} DataLinesAppended(s: Session, body: seq<string>, writeOk: nat -> bool)
    requires s.inData && !s.closed
    requires forall k :: 0 <= k < |body| ==> body[k] != "" && !IsTerminator(body[k])
    ensures RunFrom(s, body, writeOk) == s.(data := s.data + Concat(body))
    decreases |body|
  {
    if body != [] {
      var init := body[..|body| - 1];
      DataLinesAppended(s, init, writeOk);
      assert s.data + Concat(init) + body[|body| - 1] == s.data + Concat(body);
    }
  }

  /** Feeding two pieces of input one after the other is feeding their concatenation. */
  lemma {:induction false} RunFromAppend(s: Session, a: seq<string>, b: seq<string>, writeOk: nat -> bool)
    ensures RunFrom(s, a + b, writeOk) == RunFrom(RunFrom(s, a, writeOk), b, writeOk)
    decreases |b|
  {
    if b == [] {
      assert a + b == a;
    } else {
      var init := b[..|b| - 1];
      assert (a + b)[..|a + b| - 1] == a + init;
      RunFromAppend(s, a, init, writeOk);
    }
  }

  /** A line of whitespace only (the empty chunk among them) is an unknown command and never the terminator. */
  lemma BlankIsUnknown(chunk: string)
    requires Blank(chunk)
    ensures CommandOf(chunk) == Unknown && !IsTerminator(chunk)
  {
    BlankTrim(chunk);
    assert ToUpper("") == "";
  }

  /** Feeding one more chunk is one more step, unless the session is already closed. */
  lemma RunFromSnoc(s: Session, a: seq<string>, chunk: string, writeOk: nat -> bool)
    ensures var before := RunFrom(s, a, writeOk);
      RunFrom(s, a + [chunk], writeOk) == if before.closed then before else Step(before, chunk, writeOk)
  {
    assert (a + [chunk])[..|a|] == a;
  }

  /** The envelope of the test client's session: greeting, then EHLO, MAIL FROM, RCPT TO and DATA answered in turn. */
  lemma Envelope4(hello: string, mailFrom: string, rcptTo: string, dataCmd: string, writeOk: nat -> bool)
    requires CommandOf(hello) == Hello && CommandOf(mailFrom) == Envelope && CommandOf(rcptTo) == Envelope
    requires CommandOf(dataCmd) == DataCmd
    ensures Run([hello, mailFrom, rcptTo, dataCmd], writeOk) == Session(true, "", EnvelopeReplies, [], 0, false)
  {
    BlankIsUnknown("");
    RunFromSnoc(Initial, [], hello, writeOk);
    var s1 := Session(false, "", [Greeting, HelloReply], [], 0, false);
    assert RunFrom(Initial, [hello], writeOk) == s1;
    RunFromSnoc(Initial, [hello], mailFrom, writeOk);
    assert [hello] + [mailFrom] == [hello, mailFrom];
    var s2 := Session(false, "", [Greeting, HelloReply, OkReply], [], 0, false);
    assert RunFrom(Initial, [hello, mailFrom], writeOk) == s2;
    RunFromSnoc(Initial, [hello, mailFrom], rcptTo, writeOk);
    assert [hello, mailFrom] + [rcptTo] == [hello, mailFrom, rcptTo];
    var s3 := Session(false, "", [Greeting, HelloReply, OkReply, OkReply], [], 0, false);
    assert RunFrom(Initial, [hello, mailFrom, rcptTo], writeOk) == s3;
    RunFromSnoc(Initial, [hello, mailFrom, rcptTo], dataCmd, writeOk);
    assert [hello, mailFrom, rcptTo] + [dataCmd] == [hello, mailFrom, rcptTo, dataCmd];
  }

  /** The end of the test client's session: the terminator stores the message, QUIT says goodbye. */
  lemma DotQuit(s: Session, dot: string, quit: string, writeOk: nat -> bool)
    requires s.inData && !s.closed && IsTerminator(dot) && CommandOf(quit) == QuitCmd && writeOk(s.writes)
    ensures RunFrom(s, [dot, quit], writeOk).replies == s.replies + [QueuedReply, ByeReply]
    ensures RunFrom(s, [dot, quit], writeOk).stored == s.stored + [s.data]
  {
    BlankIsUnknown("");
    RunFromSnoc(s, [], dot, writeOk);
    var s1 := Store(s, true);
    assert RunFrom(s, [dot], writeOk) == s1;
    RunFromSnoc(s, [dot], quit, writeOk);
    assert [dot] + [quit] == [dot, quit];
    assert RunFrom(s, [dot, quit], writeOk) == Execute(s1, QuitCmd);
  }

  /** The four envelope commands, as a script, leave the session in DATA mode. */
  /** EHLO, MAIL FROM, RCPT TO and DATA, as the test client sends them. */
  predicate EnvelopeScript(envelope: seq<string>) {
    && |envelope| == 4 && CommandOf(envelope[0]) == Hello
    && CommandOf(envelope[1]) == Envelope && CommandOf(envelope[2]) == Envelope
    && CommandOf(envelope[3]) == DataCmd
  }

  /** Message lines: none is the end of input and none is the terminator. */
  predicate MessageLines(body: seq<string>) {
    forall k :: 0 <= k < |body| ==> body[k] != "" && !IsTerminator(body[k])
  }

  /** The terminator, then QUIT. */
  predicate EndingScript(ending: seq<string>) {
    |ending| == 2 && IsTerminator(ending[0]) && CommandOf(ending[1]) == QuitCmd
  }

  lemma EnvelopeRun(envelope: seq<string>, writeOk: nat -> bool)
    requires EnvelopeScript(envelope)
    ensures Run(envelope, writeOk) == Session(true, "", EnvelopeReplies, [], 0, false)
  {
    Envelope4(envelope[0], envelope[1], envelope[2], envelope[3], writeOk);
    assert envelope == [envelope[0], envelope[1], envelope[2], envelope[3]];
  }

  /** The terminator and QUIT store the message and close the session. */
  lemma EndingRun(s: Session, ending: seq<string>, writeOk: nat -> bool)
    requires s.inData && !s.closed && writeOk(s.writes)
    requires EndingScript(ending)
    ensures RunFrom(s, ending, writeOk).replies == s.replies + [QueuedReply, ByeReply]
    ensures RunFrom(s, ending, writeOk).stored == s.stored + [s.data]
  {
    DotQuit(s, ending[0], ending[1], writeOk);
    assert ending == [ending[0], ending[1]];
  }

  /** The five replies written once the envelope and DATA are accepted. */
  const EnvelopeReplies := [Greeting, HelloReply, OkReply, OkReply, DataReply]

  /**
   * The session of the test client: EHLO, MAIL FROM, RCPT TO and DATA, the
   * message lines, then the terminator and QUIT. With a successful write
   * the replies are the greeting, 250 Hello, 250 Ok twice, 354, the queued
   * reply and 221 Bye, and the one stored message is the lines as read.
   */
  lemma ClientSession(envelope: seq<string>, body: seq<string>, ending: seq<string>, writeOk: nat -> bool)
    requires EnvelopeScript(envelope) && MessageLines(body) && EndingScript(ending)
    requires writeOk(0)
    ensures var s := Run(envelope + body + ending, writeOk);
      s.replies == EnvelopeReplies + [QueuedReply, ByeReply] && s.stored == [Concat(body)]
  {
    EnvelopeRun(envelope, writeOk);
    DataThenEnd(envelope, body, ending, writeOk);
  }

  /** After an accepted envelope, the message lines, the terminator and QUIT. */
  lemma DataThenEnd(envelope: seq<string>, body: seq<string>, ending: seq<string>, writeOk: nat -> bool)
    requires Run(envelope, writeOk) == Session(true, "", EnvelopeReplies, [], 0, false)
    requires MessageLines(body) && EndingScript(ending)
    requires writeOk(0)
    ensures var s := Run(envelope + body + ending, writeOk);
      s.replies == EnvelopeReplies + [QueuedReply, ByeReply] && s.stored == [Concat(body)]
  {
    var full := Session(true, Concat(body), EnvelopeReplies, [], 0, false);
    EndingRun(full, ending, writeOk);
    Compose(envelope, body, ending, writeOk);
  }

  lemma Compose(commands: seq<string>, body: seq<string>, ending: seq<string>, writeOk: nat -> bool)
    requires Run(commands, writeOk) == Session(true, "", EnvelopeReplies, [], 0, false)
    requires MessageLines(body)
    requires var full := Session(true, Concat(body), EnvelopeReplies, [], 0, false);
      && RunFrom(full, ending, writeOk).replies == full.replies + [QueuedReply, ByeReply]
      && RunFrom(full, ending, writeOk).stored == full.stored + [full.data]
    ensures var s := Run(commands + body + ending, writeOk);
      s.replies == EnvelopeReplies + [QueuedReply, ByeReply] && s.stored == [Concat(body)]
  {
    var afterData := Run(commands, writeOk);
    DataLinesAppended(afterData, body, writeOk);
    assert afterData.data + Concat(body) == Concat(body);
    var full := RunFrom(afterData, body, writeOk);
    assert full == Session(true, Concat(body), EnvelopeReplies, [], 0, false);
    RunThree(commands, body, ending, writeOk);
    assert Run(commands + body + ending, writeOk) == RunFrom(full, ending, writeOk);
    assert full.stored + [full.data] == [Concat(body)];
  }

  /** Feeding three pieces of input one after the other. */
  lemma RunThree(a: seq<string>, b: seq<string>, c: seq<string>, writeOk: nat -> bool)
    ensures Run(a + b + c, writeOk) == RunFrom(RunFrom(Run(a, writeOk), b, writeOk), c, writeOk)
  {
    RunFromAppend(Initial, a, b, writeOk);
    RunFromAppend(Initial, a + b, c, writeOk);
  }
}
