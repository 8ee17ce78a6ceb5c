/** Whole runs of commands stay in step with a server that answers exactly those whose writes succeed. */
module Lockstep {
  import opened Wrappers
  import opened Text
  import opened Responses
  import opened Parsing
  import opened Framing
  import opened Transport
  import opened Connections
  import opened Replies

  // ------------------------------------------------------------------ The server

  /** What the server sends for one command; the completion starts at `start`. */
  datatype Segment = Segment(reply: bytes, start: nat)

  /** Any untagged responses and then one completion, of any status, that bears the tag. */
  predicate Answers(p: Parser, tag: u32, s: Segment) {
    && s.start < |s.reply|
    && Whole(p, s.reply[..s.start]) && NoneDone(ResponsesOf(p, s.reply[..s.start]))
    && var q := ResponseAt(p, s.reply, s.start);
       q.Complete? && q.length == |s.reply| - s.start && q.response.Done? && q.response.tag == TagText(tag)
  }

  /** The segments answer the commands tagged `tag + 1`, `tag + 2` and so on; tags do not wrap. */
  predicate AnswersInTurn(p: Parser, tag: nat, segments: seq<Segment>)
    decreases |segments|
  {
    segments == [] || (tag + 1 < 0x1_0000_0000 && Answers(p, tag + 1, segments[0])
                       && AnswersInTurn(p, tag + 1, segments[1..]))
  }

  /** What the command that `s` answers must return: its own segment, or its own error. */
  function OwnAnswer(p: Parser, tag: u32, s: Segment): Res<Answer>
    requires Answers(p, tag, s)
  {
    var done := ResponseAt(p, s.reply, s.start).response;
    match done.status
    case OK => Success(Answer(s.reply, s.start))
    case NO => Failure(Error.No(done.code, Explain(done.information)))
    case BAD => Failure(Error.Bad(done.code, Explain(done.information)))
    case BYE => Failure(Error.Bye(done.code, Explain(done.information)))
    case PREAUTH => Failure(Error.Parse(Invalid(s.reply)))
  }

  function Script(segments: seq<Segment>): bytes {
    if segments == [] then [] else segments[0].reply + Script(segments[1..])
  }

  // ------------------------------------------------------------------ The client

  function RunAll(p: Parser, c: Conn, commands: seq<bytes>): (seq<Res<Answer>>, Conn)
    decreases |commands|
  {
    if commands == [] then ([], c)
    else
      var (r, c1) := RunCommandAndReply(p, c, commands[0]);
      var (rs, c2) := RunAll(p, c1, commands[1..]);
      ([r] + rs, c2)
  }

  /** Which of the commands are written successfully, as the script of write outcomes has it. A
      write that fails may have put some or all of its line on the wire all the same. */
  function Delivered(o: Outbox, tag: u32, commands: seq<bytes>): (oks: seq<bool>)
    ensures |oks| == |commands|
    decreases |commands|
  {
    if commands == [] then []
    else
      var (r, o') := WriteThenFlush(o, [CommandLine(NextTag(tag), commands[0]), CRLF]);
      [r.Success?] + Delivered(o', if r.Success? then NextTag(tag) else tag, commands[1..])
  }

  /** How many of the flags are set. */
  function Count(oks: seq<bool>): (n: nat)
    ensures n <= |oks|
  {
    if oks == [] then 0 else (if oks[0] then 1 else 0) + Count(oks[1..])
  }

  /** The tags of the commands that were written, in order. */
  function SentTags(log: seq<Call>): seq<nat> {
    if log == [] then []
    else
      var last := log[|log| - 1];
      SentTags(log[..|log| - 1]) + (if last.Commanded? && last.ok then [last.tag] else [])
  }

  function Upwards(tag: nat, n: nat): (tags: seq<nat>)
    ensures |tags| == n && forall k :: 0 <= k < n ==> tags[k] == tag + 1 + k
    decreases n
  {
    if n == 0 then [] else [tag + 1] + Upwards(tag + 1, n - 1)
  }

  // ------------------------------------------------------------------ One command

  lemma SegmentTerminated(p: Parser, tag: u32, s: Segment)
    requires Answers(p, tag, s)
    ensures Terminated(s.reply)
  {
    EndsAtLf(p, s.reply[s.start..]);
  }

  lemma ReadsOwnSegment(p: Parser, tag: u32, s: Segment, rest: seq<Event>)
    requires Answers(p, tag, s)
    ensures ReadReply(p, tag, Clean(s.reply) + rest) ==
            var done := ResponseAt(p, s.reply, s.start).response;
            Reading(Verdict(tag, s.start, done, s.reply), BufferLeft(tag, done, s.reply), rest)
  {
    var pending := Clean(s.reply) + rest;
    SegmentTerminated(p, tag, s);
    ArriveAfterLines(s.reply, rest);
    assert s.reply[s.start..|s.reply|] == s.reply[s.start..];
    AnswerConsumed(p, tag, pending, s.reply, s.start, ResponseAt(p, s.reply, s.start).response);
    assert pending[|s.reply|..] == rest;
  }

  /** One command against its own segment: nothing of a later segment is touched. */
  lemma RunsOwnSegment(p: Parser, c: Conn, command: bytes, s: Segment, rest: seq<Event>)
    requires SendCommand(c, command).0.Success?
    requires Answers(p, NextTag(c.tag), s)
    requires c.incoming == Clean(s.reply) + rest
    ensures var (r, c') := RunCommandAndReply(p, c, command);
            && r == OwnAnswer(p, NextTag(c.tag), s)
            && c'.incoming == rest && c'.tag == NextTag(c.tag)
            && c'.out == SendCommand(c, command).1.out
            && c'.log == SendCommand(c, command).1.log + [Replied(NextTag(c.tag), r.Success?)]
  {
    ReadsOwnSegment(p, NextTag(c.tag), s, rest);
  }

  lemma SentTagsGrow(log: seq<Call>, call: Call)
    ensures SentTags(log + [call]) ==
            SentTags(log) + (if call.Commanded? && call.ok then [call.tag] else [])
  {
    assert (log + [call])[..|log|] == log;
  }

  // ------------------------------------------------------------------ Whole runs

  /** The results of the commands whose writes succeed are the answers of its segments, in turn;
      the others report the failed write. */
  ghost predicate InStep(p: Parser, tag: nat, oks: seq<bool>, segments: seq<Segment>, results: seq<Res<Answer>>)
    decreases |oks|
  {
    if oks == [] then segments == [] && results == []
    else if results == [] then false
    else if oks[0] then
      && segments != [] && tag + 1 < 0x1_0000_0000
      && Answers(p, tag + 1, segments[0]) && results[0] == OwnAnswer(p, tag + 1, segments[0])
      && InStep(p, tag + 1, oks[1..], segments[1..], results[1..])
    else
      && results[0].Failure? && results[0].error.Io?
      && InStep(p, tag, oks[1..], segments, results[1..])
  }

  /** Call by call: the `i`-th result is that of the segment numbered by the writes before it. */
  lemma {:induction false} InStepAt(p: Parser, tag: nat, oks: seq<bool>, segments: seq<Segment>,
                                    results: seq<Res<Answer>>, i: nat)
    requires InStep(p, tag, oks, segments, results) && i < |oks|
    ensures |results| == |oks| && Count(oks) == |segments|
    ensures var k := Count(oks[..i]);
            if oks[i] then
              && k < |segments| && tag + 1 + k < 0x1_0000_0000
              && Answers(p, tag + 1 + k, segments[k]) && results[i] == OwnAnswer(p, tag + 1 + k, segments[k])
            else results[i].Failure? && results[i].error.Io?
    decreases |oks|
  {
    hide Answers, OwnAnswer, Count;
    CountFirst(oks, i);
    if |oks| > 1 {
      var tag', segments' := if oks[0] then tag + 1 else tag, if oks[0] then segments[1..] else segments;
      InStepAt(p, tag', oks[1..], segments', results[1..], if i > 0 then i - 1 else 0);
    } else {
      CountNone(oks[1..]);
    }
  }

  lemma CountFirst(oks: seq<bool>, i: nat)
    requires i < |oks|
    ensures Count(oks) == (if oks[0] then 1 else 0) + Count(oks[1..])
    ensures Count(oks[..i]) == if i == 0 then 0 else (if oks[0] then 1 else 0) + Count(oks[1..][..i - 1])
  {
    if i > 0 {
      assert oks[..i][1..] == oks[1..][..i - 1];
    }
  }

  lemma CountNone(oks: seq<bool>)
    ensures oks == [] ==> Count(oks) == 0
  {
  }

  lemma InStepOk(p: Parser, tag: u32, oks: seq<bool>, segments: seq<Segment>, r: Res<Answer>,
                 results: seq<Res<Answer>>)
    requires segments != [] && tag + 1 < 0x1_0000_0000 && Answers(p, tag + 1, segments[0])
    requires r == OwnAnswer(p, tag + 1, segments[0]) && InStep(p, tag + 1, oks, segments[1..], results)
    ensures InStep(p, tag, [true] + oks, segments, [r] + results)
  {
    assert ([true] + oks)[1..] == oks && ([r] + results)[1..] == results;
  }

  lemma InStepFailed(p: Parser, tag: u32, oks: seq<bool>, segments: seq<Segment>, r: Res<Answer>,
                     results: seq<Res<Answer>>)
    requires r.Failure? && r.error.Io? && InStep(p, tag, oks, segments, results)
    ensures InStep(p, tag, [false] + oks, segments, [r] + results)
  {
    assert ([false] + oks)[1..] == oks && ([r] + results)[1..] == results;
  }

  /**
   Every run of fewer than 2^32 commands, with any of the writes failing, against a server that
   answers exactly the commands whose writes succeed: each call returns its own segment (or the
   failure its completion reports, or the write's own failure), the stream ends up exactly past the
   last segment, and the tags written count upwards by one.
   */
  lemma {:induction false} RunsInLockstep(p: Parser, c: Conn, commands: seq<bytes>, segments: seq<Segment>,
                                          rest: seq<Event>)
    requires AnswersInTurn(p, c.tag, segments)
    requires Count(Delivered(c.out, c.tag, commands)) == |segments|
    requires c.incoming == Clean(Script(segments)) + rest
    ensures var (results, c') := RunAll(p, c, commands);
            && InStep(p, c.tag, Delivered(c.out, c.tag, commands), segments, results)
            && c'.incoming == rest && c'.tag == c.tag + |segments|
            && SentTags(c'.log) == SentTags(c.log) + Upwards(c.tag, |segments|)
    decreases |commands|
  {
    if commands == [] {
      CleanNothing(rest);
    } else {
      hide *;
      FirstOfRun(p, c, commands);
      var (r, c1) := RunCommandAndReply(p, c, commands[0]);
      var rs := RunAll(p, c1, commands[1..]).0;
      var later := Delivered(c1.out, c1.tag, commands[1..]);
      if SendCommand(c, commands[0]).0.Success? {
        FirstAnswers(p, c.tag, SentTags(c.log), segments);
        DeliveredStep(p, c, commands[0], segments, rest);
        RunsInLockstep(p, c1, commands[1..], segments[1..], rest);
        InStepOk(p, c.tag, later, segments, r, rs);
      } else {
        FailedStep(p, c, commands[0]);
        RunsInLockstep(p, c1, commands[1..], segments, rest);
        InStepFailed(p, c.tag, later, segments, r, rs);
      }
    }
  }

  lemma FirstOfRun(p: Parser, c: Conn, commands: seq<bytes>)
    requires commands != []
    ensures var ok := SendCommand(c, commands[0]).0.Success?;
            var (r, c1) := RunCommandAndReply(p, c, commands[0]);
            var (rs, c2) := RunAll(p, c1, commands[1..]);
            && RunAll(p, c, commands) == ([r] + rs, c2)
            && Delivered(c.out, c.tag, commands) == [ok] + Delivered(c1.out, c1.tag, commands[1..])
            && Count(Delivered(c.out, c.tag, commands)) ==
               (if ok then 1 else 0) + Count(Delivered(c1.out, c1.tag, commands[1..]))
  {
    hide ReadReply;
  }

  lemma FirstAnswers(p: Parser, tag: u32, sent: seq<nat>, segments: seq<Segment>)
    requires AnswersInTurn(p, tag, segments) && segments != []
    ensures tag + 1 < 0x1_0000_0000 && Answers(p, tag + 1, segments[0])
    ensures AnswersInTurn(p, tag + 1, segments[1..])
    ensures (sent + [tag + 1]) + Upwards(tag + 1, |segments| - 1) == sent + Upwards(tag, |segments|)
  {
  }

  lemma DeliveredStep(p: Parser, c: Conn, command: bytes, segments: seq<Segment>, rest: seq<Event>)
    requires segments != [] && c.tag + 1 < 0x1_0000_0000
    requires SendCommand(c, command).0.Success?
    requires Answers(p, c.tag + 1, segments[0])
    requires c.incoming == Clean(Script(segments)) + rest
    ensures var (r, c1) := RunCommandAndReply(p, c, command);
            && r == OwnAnswer(p, c.tag + 1, segments[0])
            && c1.incoming == Clean(Script(segments[1..])) + rest && c1.tag == c.tag + 1
            && SentTags(c1.log) == SentTags(c.log) + [c.tag + 1]
  {
    CleanAppend(segments[0].reply, Script(segments[1..]), rest);
    RunsOwnSegment(p, c, command, segments[0], Clean(Script(segments[1..])) + rest);
    SentTagsGrow(c.log, Commanded(c.tag + 1, command, true));
    SentTagsGrow(SendCommand(c, command).1.log,
                 Replied(c.tag + 1, RunCommandAndReply(p, c, command).0.Success?));
  }

  lemma FailedStep(p: Parser, c: Conn, command: bytes)
    requires SendCommand(c, command).0.Failure?
    ensures var (r, c1) := RunCommandAndReply(p, c, command);
            && r.Failure? && r.error.Io?
            && c1.incoming == c.incoming && c1.tag == c.tag && SentTags(c1.log) == SentTags(c.log)
  {
    WriteThenFlushWrites(c.out, [CommandLine(NextTag(c.tag), command), CRLF]);
    SentTagsGrow(c.log, Commanded(NextTag(c.tag), command, false));
  }

  /** Different tags print differently. */
  lemma TagsPrintDistinctly(s: u32, t: u32)
    requires s != t
    ensures TagText(s) != TagText(t)
  {
    if TagText(s) == TagText(t) {
      TagsDiffer(s, t);
    }
  }
}
