/** The unsolicited queue over whole runs of a session. */
module UnsolicitedRuns {
  import opened Wrappers
  import opened Sequences
  import opened Text
  import opened Responses
  import opened Parsing
  import opened Connections
  import opened Folds
  import opened Demultiplexing
  import opened Results
  import opened Sessions
  import opened Mailboxes
  import opened Framing
  import opened Transport
  import opened Replies
  import opened Appending

  datatype Step = Do(op: Op) | TakeAll

  /** The state of the session and the batches that have been taken from its queue. */
  datatype Progress = Progress(state: State, taken: seq<seq<UnsolicitedResponse>>)

  function StepOn(p: Parser, g: Progress, step: Step): Progress {
    match step
    case Do(op) => g.(state := Perform(p, g.state, op))
    case TakeAll => Progress(g.state.(queue := []), g.taken + [g.state.queue])
  }

  function RunSteps(p: Parser, g: Progress, steps: seq<Step>): Progress
    decreases |steps|
  {
    if steps == [] then g else RunSteps(p, StepOn(p, g, steps[0]), steps[1..])
  }

  function GainOf(p: Parser, g: Progress, step: Step): seq<UnsolicitedResponse> {
    match step
    case Do(op) => Gain(p, g.state.conn, op)
    case TakeAll => []
  }

  /** What the operations of a run add to the queue, all told. */
  function Gains(p: Parser, g: Progress, steps: seq<Step>): seq<UnsolicitedResponse>
    decreases |steps|
  {
    if steps == [] then [] else GainOf(p, g, steps[0]) + Gains(p, StepOn(p, g, steps[0]), steps[1..])
  }

  function Batches(taken: seq<seq<UnsolicitedResponse>>): seq<UnsolicitedResponse> {
    if taken == [] then [] else Batches(taken[..|taken| - 1]) + taken[|taken| - 1]
  }

  /** The batches taken and what is still in the queue. */
  function Known(g: Progress): seq<UnsolicitedResponse> {
    Batches(g.taken) + g.state.queue
  }

  lemma KnownStep(p: Parser, g: Progress, step: Step)
    ensures Known(StepOn(p, g, step)) == Known(g) + GainOf(p, g, step)
  {
    hide Gain, RunOp;
    match step {
      case Do(op) => Associative(Batches(g.taken), g.state.queue, Gain(p, g.state.conn, op));
      case TakeAll =>
        assert (g.taken + [g.state.queue])[..|g.taken|] == g.taken;
        assert Known(g) + [] == Known(g);
    }
  }

  /** Taking the queue and adding to it keep everything, in order. */
  lemma {:induction false} NothingReordered(p: Parser, g: Progress, steps: seq<Step>)
    ensures Known(RunSteps(p, g, steps)) == Known(g) + Gains(p, g, steps)
    decreases |steps|
  {
    if steps == [] {
      assert Known(g) + [] == Known(g);
    } else {
      hide StepOn, Known, GainOf;
      var g' := StepOn(p, g, steps[0]);
      NothingReordered(p, g', steps[1..]);
      KnownStep(p, g, steps[0]);
      Associative(Known(g), GainOf(p, g, steps[0]), Gains(p, g', steps[1..]));
    }
  }

  // ------------------------------------------------------------------ What an operation gains

  /** Whether the parser of the operation takes the response for itself. */
  predicate TakenBy(op: Op, r: Response) {
    if op.SelectMailbox? then MailboxRoute(r).Claimed? else Claims(op, r)
  }

  function NotTakenBy(op: Op): Response -> bool {
    r => !TakenBy(op, r)
  }

  lemma UnclaimedRoute(op: Op, r: Response)
    ensures RouteFor(op)(r).Queued? ==> RouteFor(op)(r) == Queued(Convert(r).value) && Convertible(r)
    ensures RouteFor(op)(r).Claimed? <==> TakenBy(op, r)
    ensures RouteFor(op)(r).Refused? && !op.SelectMailbox? ==> !Convertible(r)
  {
  }

  lemma {:induction false} SpilledIsUnclaimed(op: Op, rs: seq<Response>)
    requires forall i :: 0 <= i < |rs| ==> !RouteFor(op)(rs[i]).Refused?
    ensures Spilled(RouteFor(op), rs) == ConvertAll(Filter(NotTakenBy(op), rs))
  {
    if rs != [] {
      SpilledIsUnclaimed(op, rs[1..]);
      var rest := Filter(NotTakenBy(op), rs[1..]);
      assert ([rs[0]] + rest)[1..] == rest;
      assert [] + rest == rest;
      UnclaimedRoute(op, rs[0]);
    }
  }

  /** What a buffer has for the queue: the conversions of the responses that the parser does not
      take, in arrival order, up to the first one it refuses. */
  function Unsolicited(p: Parser, op: Op, lines: bytes): seq<UnsolicitedResponse> {
    var rs := ResponsesOf(p, lines);
    ConvertAll(Filter(NotTakenBy(op), rs[..Accepted(RouteFor(op), rs)]))
  }

  lemma QueuedIsUnsolicited(p: Parser, op: Op, lines: bytes)
    ensures Demux(p, RouteFor(op), lines).queued == Unsolicited(p, op, lines)
  {
    hide Demux;
    var rs := ResponsesOf(p, lines);
    DemuxPartition(p, RouteFor(op), lines);
    SpilledIsUnclaimed(op, rs[..Accepted(RouteFor(op), rs)]);
  }

  /** The first response of a reply that is refused is not taken, and, other than by SELECT, only
      what does not convert is refused. */
  lemma RefusedIsForeign(op: Op, rs: seq<Response>)
    ensures var k := Accepted(RouteFor(op), rs);
            k < |rs| ==> !TakenBy(op, rs[k]) && (op.SelectMailbox? || !Convertible(rs[k]))
  {
    var k := Accepted(RouteFor(op), rs);
    if k < |rs| {
      UnclaimedRoute(op, rs[k]);
    }
  }

  /** The kinds of responses that the parser of each operation takes for itself. */
  lemma TakenIff(op: Op, r: Response)
    ensures TakenBy(op, r) <==>
            match op
            case Noop => false
            case SearchFor(_) => r.MailboxData? && (r.datum.Search? || r.datum.Sort?)
            case FetchMessages(_, _) => r.Fetch?
            case SelectMailbox(_) => r.Done? || (r.Data? && r.status == OK) || (r.MailboxData? && !r.datum.StatusOf?)
            case StatusOfMailbox(mailbox, _) => r.MailboxData? && r.datum.StatusOf? && r.datum.mailbox == mailbox
            case ExpungeMessages => r.Done? || r.Expunge? || r.Vanished?
            case AppendMessage(_) => r.Done?
            case GetMetadata(_, _, _, _) => r.MailboxData? && r.datum.MetadataSolicited?
            case ListWithStatus(_, _, _) => r.MailboxData? && (r.datum.List? || r.datum.StatusOf?)
            case GetQuotaRoot(_) => r.QuotaRoot? || r.Quota?
  {
  }

  /** Whether the parser is given the completion, or only what comes before it. */
  lemma HandedOn(op: Op, data: bytes, i: nat)
    requires i <= |data|
    ensures LinesOf(op, Answer(data, i)) ==
            if op.SelectMailbox? || op.ExpungeMessages? || op.AppendMessage? then data else data[..i]
  {
  }

  lemma {:induction false} OriginsOfConverted(rs: seq<Response>)
    requires forall r :: r in rs ==> Convertible(r)
    ensures OriginsOf(ConvertAll(rs)) == rs
  {
    if rs != [] {
      OriginsOfConverted(rs[1..]);
      assert rs[0] in rs;
      var u := Convert(rs[0]).value;
      ConvertIff(rs[0], u);
      assert ConvertAll(rs) == [u] + ConvertAll(rs[1..]);
      assert ([u] + ConvertAll(rs[1..]))[1..] == ConvertAll(rs[1..]);
      assert rs == [rs[0]] + rs[1..];
    }
  }

  /** Each response that is not refused is either taken, or in the queue as just what it was. */
  lemma OriginsAreResponses(p: Parser, op: Op, lines: bytes)
    ensures var rs := ResponsesOf(p, lines);
            var k := Accepted(RouteFor(op), rs);
            OriginsOf(Unsolicited(p, op, lines)) == Filter(NotTakenBy(op), rs[..k])
  {
    var rs := ResponsesOf(p, lines);
    var k := Accepted(RouteFor(op), rs);
    var kept := Filter(NotTakenBy(op), rs[..k]);
    Appending.FilterHas(NotTakenBy(op), rs[..k]);
    forall r | r in kept
      ensures Convertible(r)
    {
      var i :| 0 <= i < k && rs[..k][i] == r;
      UnclaimedRoute(op, rs[i]);
    }
    OriginsOfConverted(kept);
  }

  /** The connection as it is when the operation comes to reading the reply, if it does. */
  function AtReply(c: Conn, op: Op): Option<Conn> {
    if (op.FetchMessages? && op.sequenceSet == []) || CommandOf(op).Failure? then None
    else
      var (sent, c1) := SendCommand(c, CommandOf(op).value);
      if sent.Failure? then None
      else if !op.AppendMessage? then Some(c1)
      else
        var (line, c2) := TakeLine(c1);
        if line.Failure? || !StartsWith(line.value, "+") then None
        else
          var (wrote, out) := WriteThenFlush(c2.out, [op.args.content, CRLF]);
          if wrote.Failure? then None else Some(c2.(out := out))
  }

  lemma RunOpReads(p: Parser, c: Conn, op: Op)
    ensures match AtReply(c, op)
            case None => RunOp(p, c, op).0.Failure? || RunOp(p, c, op).0.value == []
            case Some(c') =>
              var (answer, after) := TakeReply(p, c');
              RunOp(p, c, op) ==
              (if answer.Success? then Success(LinesOf(op, answer.value)) else Failure(answer.error), after)
  {
    hide ReadReply, WriteThenFlush, NextRead, AfterRead, LinesOf, AppendCommand;
  }

  /** What an operation hears that is not for its parser: everything of the kind in a reply that is
      accepted, and nothing at all of one that is not. */
  function Heard(p: Parser, c: Conn, op: Op): seq<UnsolicitedResponse> {
    match AtReply(c, op)
    case None => []
    case Some(c') =>
      match TakeReply(p, c').0
      case Failure(_) => []
      case Success(answer) => Unsolicited(p, op, LinesOf(op, answer))
  }

  lemma GainIsHeard(p: Parser, c: Conn, op: Op)
    ensures Gain(p, c, op) == Heard(p, c, op)
  {
    hide RunOp, AtReply, TakeReply, Demux, Unsolicited, RouteFor, LinesOf;
    RunOpReads(p, c, op);
    var lines := RunOp(p, c, op).0;
    if lines.Success? {
      QueuedIsUnsolicited(p, op, lines.value);
      NothingUnsolicited(p, op);
    }
  }

  lemma NothingUnsolicited(p: Parser, op: Op)
    ensures Unsolicited(p, op, []) == []
  {
  }

  /** In terms of what the server sends: an accepted reply is heard. */
  lemma AcceptedIsHeard(p: Parser, c: Conn, op: Op, data: bytes, i: nat)
    requires AtReply(c, op).Some?
    requires var c' := AtReply(c, op).value;
             data <= Arrived(c'.incoming) && OkReply(p, c'.tag, data, i)
    ensures Heard(p, c, op) == Unsolicited(p, op, LinesOf(op, Answer(data, i)))
  {
    hide OkReply, ReadReply, AtReply, Unsolicited, LinesOf;
    var c' := AtReply(c, op).value;
    ReplyOkIff(p, c'.tag, c'.incoming, data, i);
  }

  /** And the untagged data of a reply that is completed with any other status than OK is lost: it is
      consumed, and none of it gets into the queue. */
  lemma RefusedIsLost(p: Parser, s: State, op: Op, reply: bytes, start: nat, done: Response)
    requires AtReply(s.conn, op).Some?
    requires var c := AtReply(s.conn, op).value;
             && reply <= Arrived(c.incoming) && BeginsWithReply(p, reply, start, |reply|, done)
             && done.tag == TagText(c.tag) && done.status != OK
    ensures var c := AtReply(s.conn, op).value;
            var s' := Perform(p, s, op);
            && RunOp(p, s.conn, op).0.Failure?
            && s'.queue == s.queue && s'.conn.incoming == c.incoming[|reply|..]
  {
    hide RunOp, AtReply, ReadReply, BeginsWithReply, Demux;
    var c := AtReply(s.conn, op).value;
    AnswerConsumed(p, c.tag, c.incoming, reply, start, done);
    RunOpReads(p, s.conn, op);
    assert s.queue + [] == s.queue;
  }

  // ------------------------------------------------------------------ Whole runs

  /** What the operations of a run hear, all told. */
  function HeardIn(p: Parser, g: Progress, steps: seq<Step>): seq<UnsolicitedResponse>
    decreases |steps|
  {
    if steps == [] then []
    else
      (if steps[0].Do? then Heard(p, g.state.conn, steps[0].op) else [])
      + HeardIn(p, StepOn(p, g, steps[0]), steps[1..])
  }

  lemma {:induction false} GainsAreHeard(p: Parser, g: Progress, steps: seq<Step>)
    ensures Gains(p, g, steps) == HeardIn(p, g, steps)
    decreases |steps|
  {
    if steps != [] {
      hide Gain, Heard, StepOn;
      GainsAreHeard(p, StepOn(p, g, steps[0]), steps[1..]);
      if steps[0].Do? {
        GainIsHeard(p, g.state.conn, steps[0].op);
      }
    }
  }

  /**
   For every interleaving of operations and of taking the queue: the batches taken followed by the
   queue are the initial ones followed by, operation by operation, the conversions of what its
   parser does not take of its reply, if that was accepted. Of that nothing is lost, repeated or
   reordered; but a reply that is not accepted adds nothing (see `RefusedIsLost`).
   */
  lemma QueueHoldsAllHeard(p: Parser, g: Progress, steps: seq<Step>)
    ensures Known(RunSteps(p, g, steps)) == Known(g) + HeardIn(p, g, steps)
  {
    hide *;
    NothingReordered(p, g, steps);
    GainsAreHeard(p, g, steps);
  }

  lemma {:induction false} OriginsOfBoth(a: seq<UnsolicitedResponse>, b: seq<UnsolicitedResponse>)
    ensures OriginsOf(a + b) == OriginsOf(a) + OriginsOf(b)
  {
    if a == [] {
      assert a + b == b;
    } else {
      assert (a + b)[1..] == a[1..] + b;
      OriginsOfBoth(a[1..], b);
    }
  }

  /** The responses of a reply, if it is accepted, that the parser of the operation neither takes nor
      comes to refuse. */
  function Untaken(p: Parser, c: Conn, op: Op): seq<Response> {
    match AtReply(c, op)
    case None => []
    case Some(c') =>
      match TakeReply(p, c').0
      case Failure(_) => []
      case Success(answer) =>
        var rs := ResponsesOf(p, LinesOf(op, answer));
        Filter(NotTakenBy(op), rs[..Accepted(RouteFor(op), rs)])
  }

  function UntakenIn(p: Parser, g: Progress, steps: seq<Step>): seq<Response>
    decreases |steps|
  {
    if steps == [] then []
    else
      (if steps[0].Do? then Untaken(p, g.state.conn, steps[0].op) else [])
      + UntakenIn(p, StepOn(p, g, steps[0]), steps[1..])
  }

  /** The same in terms of the responses themselves: the batches and the queue are made from those
      that were there before, and then just from the untaken responses of each reply, in order. */
  lemma QueueIsMadeOfUntaken(p: Parser, g: Progress, steps: seq<Step>)
    ensures OriginsOf(Known(RunSteps(p, g, steps))) == OriginsOf(Known(g)) + UntakenIn(p, g, steps)
  {
    QueueHoldsAllHeard(p, g, steps);
    OriginsOfBoth(Known(g), HeardIn(p, g, steps));
    HeardIsUntaken(p, g, steps);
  }

  lemma {:induction false} HeardIsUntaken(p: Parser, g: Progress, steps: seq<Step>)
    ensures OriginsOf(HeardIn(p, g, steps)) == UntakenIn(p, g, steps)
    decreases |steps|
  {
    if steps != [] {
      hide Heard, StepOn, Untaken, OriginsOf;
      var later := HeardIn(p, StepOn(p, g, steps[0]), steps[1..]);
      HeardIsUntaken(p, StepOn(p, g, steps[0]), steps[1..]);
      NoOrigins();
      if steps[0].Do? {
        OneIsUntaken(p, g.state.conn, steps[0].op);
        OriginsOfBoth(Heard(p, g.state.conn, steps[0].op), later);
      } else {
        OriginsOfBoth([], later);
      }
    } else {
      NoOrigins();
    }
  }

  lemma NoOrigins()
    ensures OriginsOf([]) == []
  {
  }

  lemma OneIsUntaken(p: Parser, c: Conn, op: Op)
    ensures OriginsOf(Heard(p, c, op)) == Untaken(p, c, op)
  {
    hide AtReply, TakeReply, Unsolicited, LinesOf, OriginsOf;
    NoOrigins();
    var at := AtReply(c, op);
    if at.Some? && TakeReply(p, at.value).0.Success? {
      OriginsAreResponses(p, op, LinesOf(op, TakeReply(p, at.value).0.value));
    }
  }
}
