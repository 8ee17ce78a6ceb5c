/** When APPEND keeps in step with the server. */
module AppendRuns {
  import opened Wrappers
  import opened Text
  import opened Responses
  import opened Parsing
  import opened Framing
  import opened Transport
  import opened Connections
  import opened Lockstep
  import opened Appending
  import opened Sessions
  import Clients

  /** The command goes out, and so will the literal, once it is asked for. */
  predicate WritesGoOut(c: Conn, a: AppendArgs) {
    var (sent, c1) := SendCommand(c, AppendCommand(a));
    sent.Success? && WriteThenFlush(c1.out, [a.content, CRLF]).0.Success?
  }

  predicate Asks(line: bytes) {
    IsLine(line) && Terminated(line) && StartsWith(line, "+")
  }

  /** What APPEND makes of the first line it gets. */
  lemma AppendNext(p: Parser, c: Conn, a: AppendArgs, line: bytes, rest: seq<Event>)
    requires WritesGoOut(c, a) && IsLine(line) && Terminated(line) && c.incoming == Clean(line) + rest
    ensures var c1 := SendCommand(c, AppendCommand(a)).1;
            var (r, c') := FinishAppend(p, c, a);
            if StartsWith(line, "+") then
              exists c3: Conn ::
                && c3.incoming == rest && c3.tag == NextTag(c.tag)
                && c3.out == WriteThenFlush(c1.out, [a.content, CRLF]).1 && (r, c') == TakeReply(p, c3)
            else r == Failure(Error.Append) && c'.incoming == rest && c'.out == c1.out
  {
    hide ReadReply, WriteThenFlush, AppendCommand;
    ReadLineBack(line, rest);
    assert c.incoming[|line|..] == rest;
    var c2 := TakeLine(SendCommand(c, AppendCommand(a)).1).1;
    var c3 := c2.(out := WriteThenFlush(c2.out, [a.content, CRLF]).1);
    if StartsWith(line, "+") {
      assert FinishAppend(p, c, a) == TakeReply(p, c3);
    }
  }

  /** APPEND has got its own answer, and nothing that the server has sent for it is left. */
  ghost predicate InStep(p: Parser, c: Conn, a: AppendArgs, s: Segment, rest: seq<Event>)
    requires Answers(p, NextTag(c.tag), s)
  {
    FinishAppend(p, c, a).0 == OwnAnswer(p, NextTag(c.tag), s) && FinishAppend(p, c, a).1.incoming == rest
  }

  /**
   A server that asks for the literal, after whatever else it says: APPEND is in step exactly if it
   says nothing else first. Otherwise it gives up at the first line, the literal that the server
   waits for is never written, and the request for it stays unread.
   */
  lemma AskedInStepIff(p: Parser, c: Conn, a: AppendArgs, first: bytes, ask: bytes, s: Segment, rest: seq<Event>)
    requires WritesGoOut(c, a) && Answers(p, NextTag(c.tag), s) && Asks(ask)
    requires (first == [] || Terminated(first)) && !StartsWith(first, "+")
    requires c.incoming == Clean(first) + (Clean(ask) + (Clean(s.reply) + rest))
    ensures InStep(p, c, a, s, rest) <==> first == []
    ensures first != [] ==>
              var (r, c') := FinishAppend(p, c, a);
              && r == Failure(Error.Append)
              && c'.incoming == Clean(first[LineStop(first, 0)..]) + (Clean(ask) + (Clean(s.reply) + rest))
              && c'.out == SendCommand(c, AppendCommand(a)).1.out
  {
    hide FinishAppend, WriteThenFlush, AppendCommand, Answers, OwnAnswer, ReadReply;
    var later := Clean(ask) + (Clean(s.reply) + rest);
    if first == [] {
      CleanNothing(later);
      AppendNext(p, c, a, ask, Clean(s.reply) + rest);
      var c3: Conn :| c3.incoming == Clean(s.reply) + rest && c3.tag == NextTag(c.tag)
                      && FinishAppend(p, c, a) == TakeReply(p, c3);
      Clients.ReplyRead(p, c3, s, rest);
    } else {
      var line, more := first[..LineStop(first, 0)], first[LineStop(first, 0)..];
      FirstLine(first);
      assert first == line + more;
      CleanAppend(line, more, later);
      NotAsking(first, line);
      AppendNext(p, c, a, line, Clean(more) + later);
      NeverAppendError(p, NextTag(c.tag), s);
    }
  }

  lemma NotAsking(first: bytes, line: bytes)
    requires line <= first && line != [] && !StartsWith(first, "+")
    ensures !StartsWith(line, "+")
  {
  }

  lemma NeverAppendError(p: Parser, tag: u32, s: Segment)
    requires Answers(p, tag, s)
    ensures OwnAnswer(p, tag, s) != Failure(Error.Append)
  {
  }

  /** A server that answers without asking for the literal: its answer is not looked at, and nothing
      of it is left exactly if it is a single line. */
  lemma RefusedInStepIff(p: Parser, c: Conn, a: AppendArgs, s: Segment, rest: seq<Event>)
    requires WritesGoOut(c, a) && Answers(p, NextTag(c.tag), s) && !StartsWith(s.reply, "+")
    requires c.incoming == Clean(s.reply) + rest
    ensures FinishAppend(p, c, a).0 == Failure(Error.Append)
    ensures FinishAppend(p, c, a).1.incoming == rest <==> LineStop(s.reply, 0) == |s.reply|
  {
    hide FinishAppend, WriteThenFlush, AppendCommand, Answers;
    SegmentTerminated(p, NextTag(c.tag), s);
    var first := s.reply;
    var line, more := first[..LineStop(first, 0)], first[LineStop(first, 0)..];
    FirstLine(first);
    assert first == line + more;
    CleanAppend(line, more, rest);
    NotAsking(first, line);
    AppendNext(p, c, a, line, Clean(more) + rest);
    if more == [] {
      CleanNothing(rest);
    } else {
      assert |Clean(more) + rest| > |rest|;
    }
  }
}
