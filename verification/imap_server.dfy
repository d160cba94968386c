/**
 * The IMAP front end with its sockets taken away: one connection is the sequence of
 * lines its client sends, and the server's side of it is the sequence of strings it
 * writes back. A line the reader returns as null (the end of the stream) is `None`.
 */
module ImapServer {
  import opened Wrappers
  import Ascii

  /** Sent for `CAPABILITY`: capability names of RFC 3501, section 7.2.1. */
  const CapabilityResponse := "IMAP4rev1 STARTTLS LOGINDISABLED"
  /** Sent for `OLHA`. */
  const GreetingResponse := "Hello! Welcome to the IMAP server."
  /** The line terminator of RFC 3501, section 2.2. */
  const CRLF := "\r\n"

  /** `RespondToClient`: what one response puts on the stream. */
  function RespondToClient(response: string): (written: string)
    ensures |written| == |response| + 2
    ensures written[..|response|] == response && written[|response|..] == CRLF
  {
    response + CRLF
  }

  /**
   * `ParseCommands`: the whole line, upper-cased, selects at most one response. The
   * switch also has a `"Hello"` label, which an upper-cased line can never equal.
   */
  function ParseCommands(command: string): (response: Option<string>)
    ensures response.Some? ==> response == Some(CapabilityResponse) || response == Some(GreetingResponse)
  {
    var key := Ascii.ToUpper(command);
    if key == "CAPABILITY" then Some(CapabilityResponse)
    else if key == "Hello" || key == "OLHA" then
      HelloNeverMatches(command);
      Some(GreetingResponse)
    else None
  }

  /** Which lines are answered, and with what. */
  lemma DispatchTable(command: string)
    ensures ParseCommands(command) == Some(CapabilityResponse) <==> Ascii.ToUpper(command) == "CAPABILITY"
    ensures ParseCommands(command) == Some(GreetingResponse) <==> Ascii.ToUpper(command) == "OLHA"
  {
  }

  /** The `"Hello"` label is dead: the upper-cased line never equals it. */
  lemma HelloNeverMatches(command: string)
    ensures Ascii.ToUpper(command) != "Hello"
  {
    if |command| == 5 {
      Ascii.UpperHasNoLower(command, 1);
    }
  }

  /** The line `HandleClient` works on: `ReadLineAsync() ?? ""`. */
  function LineText(line: Option<string>): string {
    line.GetOr("")
  }

  /** The line ends the connection. */
  predicate Ends(line: Option<string>) {
    Ascii.IsNullOrWhiteSpace(LineText(line))
  }

  /** What dispatching one line writes: its framed response, if it has one. */
  function Written(line: Option<string>): (writes: seq<string>)
    ensures |writes| <= 1
  {
    match ParseCommands(LineText(line))
    case Some(response) => [RespondToClient(response)]
    case None => []
  }

  /**
   * What a read loop writes when it dispatches `lines` in order, stopping before the
   * first line that `ends` the connection, and each dispatched line writes `answer`.
   */
  function DispatchUntil<L>(lines: seq<L>, ends: L -> bool, answer: L -> seq<string>): (writes: seq<string>)
  {
    if lines == [] || ends(lines[0]) then []
    else answer(lines[0]) + DispatchUntil(lines[1..], ends, answer)
  }

  /** What a connection writes. */
  function Transcript(lines: seq<Option<string>>): seq<string> {
    DispatchUntil(lines, Ends, Written)
  }

  /**
   * The read loop of `HandleClient`. It returns what was written and how many lines
   * were dispatched: exactly those before the first line that ends the connection.
   */
  method HandleClient(lines: seq<Option<string>>) returns (writes: seq<string>, dispatched: nat)
    ensures dispatched <= |lines|
    ensures forall k :: 0 <= k < dispatched ==> !Ends(lines[k])
    ensures dispatched < |lines| ==> Ends(lines[dispatched])
    ensures |writes| <= dispatched
    ensures writes == Transcript(lines)
  {
    writes, dispatched := [], 0;
    assert lines[dispatched..] == lines;
    while dispatched < |lines|
      invariant dispatched <= |lines|
      invariant forall k :: 0 <= k < dispatched ==> !Ends(lines[k])
      invariant |writes| <= dispatched
      invariant writes + Transcript(lines[dispatched..]) == Transcript(lines)
    {
      var command := LineText(lines[dispatched]);
      if Ascii.IsNullOrWhiteSpace(command) {
        TranscriptAt(lines, dispatched);
        break;
      }
      ghost var before := writes;
      var response := ParseCommands(command);
      if response.Some? {
        writes := writes + [RespondToClient(response.value)];
      }
      DispatchStep(lines, dispatched, before, writes);
      dispatched := dispatched + 1;
    }
  }

  /** One step of the transcript from position `d`. */
  lemma TranscriptAt(lines: seq<Option<string>>, d: nat)
    requires d < |lines|
    ensures Ends(lines[d]) ==> Transcript(lines[d..]) == []
    ensures !Ends(lines[d]) ==>
      Transcript(lines[d..]) == Written(lines[d]) + Transcript(lines[d + 1..])
  {
    assert lines[d..][0] == lines[d];
    assert lines[d..][1..] == lines[d + 1..];
  }

  /** Appending what line `d` writes moves the transcript on by one line. */
  lemma DispatchStep(lines: seq<Option<string>>, d: nat, before: seq<string>, after: seq<string>)
    requires d < |lines| && !Ends(lines[d])
    requires var response := ParseCommands(LineText(lines[d]));
      after == if response.Some? then before + [RespondToClient(response.value)] else before
    ensures after + Transcript(lines[d + 1..]) == before + Transcript(lines[d..])
  {
    TranscriptAt(lines, d);
    assert after == before + Written(lines[d]);
  }

  /** No line after the first one that ends the connection is ever dispatched. */
  lemma {:induction false} NothingAfterEnd(before: seq<Option<string>>, end: Option<string>, after: seq<Option<string>>)
    requires forall k :: 0 <= k < |before| ==> !Ends(before[k])
    requires Ends(end)
    ensures Transcript(before + [end] + after) == Transcript(before)
    decreases |before|
  {
    if before == [] {
      assert (before + [end] + after)[0] == end;
    } else {
      var lines := before + [end] + after;
      assert lines[0] == before[0];
      assert lines[1..] == before[1..] + [end] + after;
      NothingAfterEnd(before[1..], end, after);
    }
  }

  /** Lines that do not end the loop contribute their answers in order. */
  lemma {:induction false} DispatchAppend<L>(before: seq<L>, after: seq<L>, ends: L -> bool, answer: L -> seq<string>)
    requires forall k :: 0 <= k < |before| ==> !ends(before[k])
    ensures DispatchUntil(before + after, ends, answer)
      == DispatchUntil(before, ends, answer) + DispatchUntil(after, ends, answer)
    decreases |before|
  {
    if before == [] {
      assert before + after == after;
    } else {
      var lines := before + after;
      assert lines[0] == before[0] && lines[1..] == before[1..] + after;
      DispatchAppend(before[1..], after, ends, answer);
    }
  }

  /** Lines that do not end the connection contribute their writes in order. */
  lemma TranscriptAppend(before: seq<Option<string>>, after: seq<Option<string>>)
    requires forall k :: 0 <= k < |before| ==> !Ends(before[k])
    ensures Transcript(before + after) == Transcript(before) + Transcript(after)
  {
    DispatchAppend(before, after, Ends, Written);
  }

  /**
   * A connection never gets more writes than it sent lines, and every write is the
   * framed capability list or the framed greeting.
   */
  lemma {:induction false} TranscriptWrites(lines: seq<Option<string>>)
    ensures |Transcript(lines)| <= |lines|
    ensures forall k :: 0 <= k < |Transcript(lines)| ==>
      Transcript(lines)[k] == RespondToClient(CapabilityResponse)
      || Transcript(lines)[k] == RespondToClient(GreetingResponse)
    decreases |lines|
  {
    if lines != [] {
      TranscriptAt(lines, 0);
      assert lines[0..] == lines;
      TranscriptWrites(lines[1..]);
    }
  }

  /** Lines that differ only in letter case get the same answer. */
  lemma {:induction false} TranscriptIgnoresCase(a: seq<Option<string>>, b: seq<Option<string>>)
    requires |a| == |b|
    requires forall k :: 0 <= k < |a| ==> Ascii.EqualsIgnoreCase(LineText(a[k]), LineText(b[k]))
    ensures Transcript(a) == Transcript(b)
    decreases |a|
  {
    if a != [] {
      Ascii.BlankIgnoresCase(LineText(a[0]));
      Ascii.BlankIgnoresCase(LineText(b[0]));
      assert ParseCommands(LineText(a[0])) == ParseCommands(LineText(b[0]));
      TranscriptIgnoresCase(a[1..], b[1..]);
    }
  }

  /** `Olha` is answered with the greeting: the dispatch ignores letter case. */
  lemma GreetingInAnyCase()
    ensures ParseCommands("Olha") == Some(GreetingResponse)
  {
    assert Ascii.ToUpper("Olha") == "OLHA";
  }

  /** Only a line exactly as long as `CAPABILITY` or `OLHA` gets an answer. */
  lemma AnsweredLength(command: string)
    ensures ParseCommands(command).Some? ==> |command| == 10 || |command| == 4
  {
    DispatchTable(command);
    assert |Ascii.ToUpper(command)| == |command|;
  }

  /** Greetings spelled `hello` in any case, and tagged or padded commands, get no answer. */
  lemma UnansweredLines()
    ensures ParseCommands("hello") == None && ParseCommands("HELLO") == None
    ensures ParseCommands("a1 CAPABILITY") == None
    ensures ParseCommands("CAPABILITY ") == None
  {
    AnsweredLength("hello");
    AnsweredLength("HELLO");
    AnsweredLength("a1 CAPABILITY");
    AnsweredLength("CAPABILITY ");
  }
}
