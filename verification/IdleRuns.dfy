/** What holds of IDLE over whole runs: what is delivered, and that every IDLE is ended once. */
module IdleRuns {
  import opened Wrappers
  import opened Sequences
  import opened Text
  import opened Responses
  import opened Parsing
  import opened Transport
  import opened Connections
  import opened Replies
  import opened Idling
  import Sessions

  // ------------------------------------------------------------------ The order of calls

  datatype Phase =
    | Between             // no IDLE is under way
    | Asked(tag: u32)     // IDLE has been sent
    | Refusing(tag: u32)  // its answer is not a continuation
    | Open(tag: u32)      // IDLE has been accepted
    | Ending(tag: u32)    // DONE has been sent
    | Dead              // something has failed, nothing more is to be done

  /** What may be called when: IDLE only between two IDLEs, DONE only in an accepted one, and then
      the completion of that very IDLE is to be read. */
  function Next(phase: Phase, call: Call): Option<Phase> {
    match call
    case Commanded(tag, text, ok) =>
      if phase.Between? && text == IDLE then Some(if ok then Asked(tag) else Dead) else None
    case Got(line) =>
      if !phase.Asked? then None
      else Some(if StartsWith(line, "+") then Open(phase.tag) else Refusing(phase.tag))
    case Missed(_) => if phase.Asked? then Some(Dead) else None
    case Waited(_) => if phase.Open? then Some(phase) else None
    case Wrote(text, ok) =>
      if phase.Open? && text == DONE then Some(if ok then Ending(phase.tag) else Dead) else None
    case Replied(tag, ok) =>
      if phase == Ending(tag) then Some(if ok then Between else Dead)
      else if phase == Refusing(tag) then Some(Dead)
      else None
  }

  function Follow(start: Phase, calls: seq<Call>): Option<Phase> {
    if calls == [] then Some(start)
    else
      match Follow(start, calls[..|calls| - 1])
      case None => None
      case Some(phase) => Next(phase, calls[|calls| - 1])
  }

  lemma {:induction false} FollowOn(start: Phase, a: seq<Call>, b: seq<Call>)
    requires Follow(start, a).Some?
    ensures Follow(start, a + b) == Follow(Follow(start, a).value, b)
  {
    if b == [] {
      assert a + b == a;
    } else {
      assert (a + b)[..|a + b| - 1] == a + b[..|b| - 1];
      FollowOn(start, a, b[..|b| - 1]);
    }
  }

  lemma FollowOne(start: Phase, call: Call)
    ensures Follow(start, [call]) == Next(start, call)
  {
    assert [call][..0] == [];
  }

  lemma FollowTwo(start: Phase, a: Call, b: Call)
    requires Next(start, a).Some?
    ensures Follow(start, [a, b]) == Next(Next(start, a).value, b)
  {
    FollowOne(start, a);
    assert [a, b][..1] == [a];
  }

  // ------------------------------------------------------------------ Counting

  predicate AcceptedLast(calls: seq<Call>) {
    && |calls| >= 2
    && calls[|calls| - 2].Commanded? && calls[|calls| - 2].text == IDLE && calls[|calls| - 2].ok
    && calls[|calls| - 1].Got? && StartsWith(calls[|calls| - 1].line, "+")
  }

  /** How many IDLEs the server has accepted. */
  function AcceptedIdles(calls: seq<Call>): nat {
    if calls == [] then 0
    else AcceptedIdles(calls[..|calls| - 1]) + if AcceptedLast(calls) then 1 else 0
  }

  /** How many times it has been tried to send DONE. */
  function AttemptedDones(calls: seq<Call>): nat {
    if calls == [] then 0
    else
      var last := calls[|calls| - 1];
      AttemptedDones(calls[..|calls| - 1]) + if last.Wrote? && last.text == DONE then 1 else 0
  }

  /** In calls that are in order, exactly the IDLE that is open has not been ended. */
  lemma {:induction false} InOrderBalanced(calls: seq<Call>)
    requires Follow(Between, calls).Some?
    ensures AcceptedIdles(calls) == AttemptedDones(calls) + if Follow(Between, calls).value.Open? then 1 else 0
    ensures Follow(Between, calls).value.Asked? ==>
              calls != [] && calls[|calls| - 1].Commanded? && calls[|calls| - 1].ok && calls[|calls| - 1].text == IDLE
  {
    if calls != [] {
      InOrderBalanced(calls[..|calls| - 1]);
    }
  }

  lemma {:induction false} InOrderSoFar(calls: seq<Call>, k: nat)
    requires Follow(Between, calls).Some? && k <= |calls|
    ensures Follow(Between, calls[..k]).Some?
  {
    if k < |calls| {
      InOrderSoFar(calls[..|calls| - 1], k);
      assert calls[..|calls| - 1][..k] == calls[..k];
    } else {
      assert calls[..k] == calls;
    }
  }

  /** At every step the attempts are as many as the accepted IDLEs, or one fewer. */
  predicate Balanced(calls: seq<Call>) {
    forall k :: 0 <= k <= |calls| ==>
      AttemptedDones(calls[..k]) <= AcceptedIdles(calls[..k]) <= AttemptedDones(calls[..k]) + 1
  }

  lemma InOrderIsBalanced(calls: seq<Call>)
    requires Follow(Between, calls).Some?
    ensures Balanced(calls)
  {
    forall k | 0 <= k <= |calls|
      ensures AttemptedDones(calls[..k]) <= AcceptedIdles(calls[..k]) <= AttemptedDones(calls[..k]) + 1
    {
      InOrderSoFar(calls, k);
      InOrderBalanced(calls[..k]);
    }
  }

  // ------------------------------------------------------------------ What becomes of IDLE

  /** IDLE goes out, and the next line is a continuation. */
  predicate AcceptsIdle(s: Idle) {
    && SendCommand(s.conn, IDLE).0.Success?
    && NextRead(s.conn.incoming).Line? && StartsWith(NextRead(s.conn.incoming).line, "+")
  }

  lemma InitAcceptedIff(p: Parser, s: Idle)
    ensures InitIdle(p, s).0.Success? <==> AcceptsIdle(s)
  {
    hide WriteThenFlush, ReadReply;
  }

  /** The server completes IDLE at once, with OK: what it sends begins with such a reply. */
  ghost predicate CompletesIdle(p: Parser, s: Idle) {
    exists data: bytes, i: nat ::
      data <= Arrived(s.conn.incoming) && OkReply(p, NextTag(s.conn.tag), data, i)
  }

  /** `init` reaches its `unreachable!()` exactly if IDLE goes out, the next line is there and not a
      continuation, and the server completes IDLE at once. */
  lemma InitPanicsIff(p: Parser, s: Idle)
    ensures InitIdle(p, s).0 == Failure(Panic) <==>
            && SendCommand(s.conn, IDLE).0.Success?
            && NextRead(s.conn.incoming).Line? && !StartsWith(NextRead(s.conn.incoming).line, "+")
            && CompletesIdle(p, s)
  {
    hide WriteThenFlush, ReadReply, OkReply;
    var tag := NextTag(s.conn.tag);
    WriteThenFlushWrites(s.conn.out, [CommandLine(tag, IDLE), CRLF]);
    var reading := ReadReply(p, tag, s.conn.incoming);
    NeverPanics(p, tag, s.conn.incoming);
    if reading.result.Success? {
      ReplyOkIff(p, tag, s.conn.incoming, reading.data, reading.result.value);
    }
    if CompletesIdle(p, s) {
      var data: bytes, i: nat :| data <= Arrived(s.conn.incoming) && OkReply(p, tag, data, i);
      ReplyOkIff(p, tag, s.conn.incoming, data, i);
    }
  }

  lemma NeverPanics(p: Parser, tag: u32, pending: seq<Event>)
    ensures ReadReply(p, tag, pending).result != Failure(Panic)
  {
  }

  /** What goes out on the wire, in the protocol's own words. */
  lemma IdleOnTheWire(p: Parser, s: Idle)
    ensures SendCommand(s.conn, IDLE).0.Success? ==>
              InitIdle(p, s).1.conn.out.written ==
              s.conn.out.written + ("a" + Decimal(NextTag(s.conn.tag)) + " IDLE" + "\r\n")
    ensures s.done ==> TerminateIdle(p, s).1.conn.out == s.conn.out
    ensures !s.done && SendLine(s.conn, DONE).0.Success? ==>
              TerminateIdle(p, s).1.conn.out.written == s.conn.out.written + "DONE\r\n"
  {
    hide ReadReply, WriteThenFlush, Decimal, NextRead, AfterRead;
    var line := CommandLine(NextTag(s.conn.tag), IDLE);
    WriteThenFlushWrites(s.conn.out, [line, CRLF]);
    Sessions.FlattenTwo(line, CRLF);
    assert line == "a" + Decimal(NextTag(s.conn.tag)) + " IDLE";
    WriteThenFlushWrites(s.conn.out, [DONE, CRLF]);
    Sessions.FlattenTwo(DONE, CRLF);
    assert DONE + CRLF == "DONE\r\n";
  }

  /** Without keepalive a timeout ends the wait, successfully and with the IDLE still open. */
  lemma WaitWithoutKeepalive(p: Parser, go: Callback, armed: Res<()>, s: Idle)
    ensures var (begun, s1) := InitIdle(p, s);
            var w := WatchFor(p, go, [], s1.conn.incoming);
            var (r, seen, s') := WaitWhileIdle(p, go, false, armed, s);
            if begun.Failure? then r == Failure(begun.error) && seen == [] && s' == s1
            else if armed.Failure? then r == Failure(armed.error) && seen == [] && s' == s1
            else
              && r == w.result && seen == w.seen && s'.conn.incoming == w.rest
              && s'.done == s1.done && s'.conn.out == s1.conn.out && s'.conn.tag == s1.conn.tag
  {
    hide InitIdle, WatchFor;
  }

  // ------------------------------------------------------------------ The handle's calls

  /** `done` is kept exactly while no IDLE is open. */
  predicate Tracks(s: Idle, phase: Option<Phase>) {
    phase == Some(if s.done then Dead else Open(s.conn.tag))
  }

  lemma InitInOrder(p: Parser, s: Idle) returns (calls: seq<Call>)
    ensures var (r, s') := InitIdle(p, s);
            && s'.conn.log == s.conn.log + calls
            && (r.Success? ==> !s'.done && Follow(Between, calls) == Some(Open(s'.conn.tag)))
            && (r.Failure? ==> s'.done == s.done && Follow(Between, calls) == Some(Dead)
                               && AcceptedIdles(calls) == 0 && AttemptedDones(calls) == 0)
  {
    hide WriteThenFlush, ReadReply, NextRead, AfterRead, Follow, AcceptedIdles, AttemptedDones;
    var (sent, c1) := SendCommand(s.conn, IDLE);
    var tag := NextTag(s.conn.tag);
    calls := [Commanded(tag, IDLE, sent.Success?)];
    FollowOne(Between, calls[0]);
    if sent.Success? {
      var (line, c2) := TakeLine(c1);
      var read := if line.Success? then Got(line.value) else Missed(line.error);
      FollowTwo(Between, calls[0], read);
      calls := calls + [read];
      assert calls == [calls[0], read];
      if line.Success? && !StartsWith(line.value, "+") {
        var replied := Replied(tag, TakeReply(p, c1.(log := c2.log)).0.Success?);
        FollowOn(Between, calls, [replied]);
        FollowOne(Refusing(tag), replied);
        calls := calls + [replied];
      }
    }
    if InitIdle(p, s).0.Failure? {
      InOrderBalanced(calls);
      NoneAttempted(calls);
    }
  }

  lemma {:induction false} NoneAttempted(calls: seq<Call>)
    requires forall i :: 0 <= i < |calls| ==> !calls[i].Wrote?
    ensures AttemptedDones(calls) == 0
  {
    if calls != [] {
      NoneAttempted(calls[..|calls| - 1]);
    }
  }

  lemma TerminateInOrder(p: Parser, s: Idle) returns (calls: seq<Call>)
    requires !s.done
    ensures var (r, s') := TerminateIdle(p, s);
            && s'.conn.log == s.conn.log + calls && s'.done && s'.conn.tag == s.conn.tag
            && Follow(Open(s.conn.tag), calls) == Some(if r.Success? then Between else Dead)
            && calls != [] && calls[0].Wrote? && calls[0].text == DONE
            && forall i :: 0 < i < |calls| ==> calls[i].Replied?
  {
    hide WriteThenFlush, ReadReply;
    var (sent, c1) := SendLine(s.conn, DONE);
    var wrote := Wrote(DONE, sent.Success?);
    calls := [wrote];
    FollowOne(Open(s.conn.tag), wrote);
    if sent.Success? {
      var replied := Replied(s.conn.tag, TakeReply(p, c1).0.Success?);
      FollowTwo(Open(s.conn.tag), wrote, replied);
      calls := [wrote, replied];
      assert s.conn.log + [wrote] + [replied] == s.conn.log + calls;
    }
  }

  lemma {:induction false} WaitInOrder(p: Parser, go: Callback, reconnect: bool, seen: seq<UnsolicitedResponse>, s: Idle)
    returns (calls: seq<Call>)
    requires !s.done
    ensures var s' := WaitOn(p, go, reconnect, seen, s).2;
            && s'.conn.log == s.conn.log + calls
            && Tracks(s', Follow(Open(s.conn.tag), calls))
    decreases |s.conn.incoming|
  {
    hide WatchFor, InitIdle, TerminateIdle, Follow;
    var start := Open(s.conn.tag);
    var (r, seen1, s1) := WatchIdle(p, go, seen, s);
    calls := [Waited(r == Success(WaitOutcome.TimedOut))];
    FollowOne(start, calls[0]);
    if reconnect && r == Success(WaitOutcome.TimedOut) {
      TimeoutConsumes(p, go, seen, s.conn.incoming);
      TerminateConsumes(p, s1);
      var (terminated, s2) := TerminateIdle(p, s1);
      var ended := TerminateInOrder(p, s1);
      FollowOn(start, calls, ended);
      Associative(s.conn.log, calls, ended);
      calls := calls + ended;
      if terminated.Success? {
        InitConsumes(p, s2);
        var (begun, s3) := InitIdle(p, s2);
        var asked := InitInOrder(p, s2);
        FollowOn(start, calls, asked);
        Associative(s.conn.log, calls, asked);
        calls := calls + asked;
        if begun.Success? {
          var later := WaitInOrder(p, go, reconnect, seen1, s3);
          FollowOn(start, calls, later);
          Associative(s.conn.log, calls, later);
          calls := calls + later;
        }
      }
    }
  }

  /** `wait_while` on a handle just made, and then its drop. */
  function WaitAndDrop(p: Parser, go: Callback, keepalive: bool, armed: Res<()>, c: Conn): Idle {
    TerminateIdle(p, WaitWhileIdle(p, go, keepalive, armed, Idle(c, false)).2).1
  }

  lemma WaitWhileInOrder(p: Parser, go: Callback, keepalive: bool, armed: Res<()>, s: Idle)
    returns (calls: seq<Call>)
    requires InitIdle(p, s).0.Success?
    ensures var s' := WaitWhileIdle(p, go, keepalive, armed, s).2;
            && s'.conn.log == s.conn.log + calls
            && Tracks(s', Follow(Between, calls))
  {
    hide InitIdle, WaitOn, Follow;
    calls := InitInOrder(p, s);
    if armed.Success? {
      var s1 := InitIdle(p, s).1;
      var later := WaitInOrder(p, go, keepalive, [], s1);
      FollowOn(Between, calls, later);
      Associative(s.conn.log, calls, later);
      calls := calls + later;
    }
  }

  /**
   For every pattern of timeouts, refreshes and failures: if the first IDLE goes out and the next
   line is a continuation, the calls are in order, DONE has never been tried more often than IDLE
   has been accepted, and equally often once the handle is dropped. Otherwise the drop tries to send
   a DONE out of turn.
   */
  lemma IdleIsEndedOnce(p: Parser, go: Callback, keepalive: bool, armed: Res<()>, c: Conn)
    returns (calls: seq<Call>)
    ensures WaitAndDrop(p, go, keepalive, armed, c).conn.log == c.log + calls
    ensures AcceptsIdle(Idle(c, false)) ==>
              && Follow(Between, calls) in {Some(Between), Some(Dead)}
              && Balanced(calls) && AcceptedIdles(calls) == AttemptedDones(calls)
    ensures !AcceptsIdle(Idle(c, false)) ==>
              Follow(Between, calls) == None && AcceptedIdles(calls) == 0 && AttemptedDones(calls) == 1
  {
    hide InitIdle, WaitOn, TerminateIdle, Follow, AcceptedIdles, AttemptedDones, AcceptsIdle;
    var s := Idle(c, false);
    InitAcceptedIff(p, s);
    var s1 := WaitWhileIdle(p, go, keepalive, armed, s).2;
    var dropped: seq<Call> := [];
    if InitIdle(p, s).0.Success? {
      calls := WaitWhileInOrder(p, go, keepalive, armed, s);
    } else {
      calls := InitInOrder(p, s);
    }
    if s1.done {
      DropDone(p, s1);
    } else {
      dropped := TerminateInOrder(p, s1);
      Associative(c.log, calls, dropped);
      if InitIdle(p, s).0.Failure? {
        OutOfTurn(calls, dropped);
      }
      FollowOn(Between, calls, dropped);
      calls := calls + dropped;
    }
    if InitIdle(p, s).0.Success? {
      InOrderIsBalanced(calls);
      InOrderBalanced(calls);
    }
  }

  lemma DropDone(p: Parser, s: Idle)
    requires s.done
    ensures TerminateIdle(p, s).1 == s
  {
  }

  /** DONE with no IDLE open. */
  lemma {:induction false} OutOfTurn(calls: seq<Call>, dropped: seq<Call>)
    requires Follow(Between, calls) == Some(Dead) && AcceptedIdles(calls) == 0 && AttemptedDones(calls) == 0
    requires dropped != [] && dropped[0].Wrote? && dropped[0].text == DONE
    requires forall i :: 0 < i < |dropped| ==> dropped[i].Replied?
    ensures Follow(Between, calls + dropped) == None
    ensures AcceptedIdles(calls + dropped) == 0 && AttemptedDones(calls + dropped) == 1
    decreases |dropped|
  {
    var all := calls + dropped;
    assert all[..|all| - 1] == calls + dropped[..|dropped| - 1];
    if |dropped| == 1 {
      assert calls + [] == calls;
    } else {
      OutOfTurn(calls, dropped[..|dropped| - 1]);
    }
  }
}
