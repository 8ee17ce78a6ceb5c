/** Watching a mailbox with IDLE (src/extensions/idle.rs; section 3 of RFC 2177). */
module Idling {
  import opened Wrappers
  import opened Text
  import opened Responses
  import opened Parsing
  import opened Framing
  import opened Transport
  import opened Connections
  import opened Sessions

  datatype WaitOutcome = TimedOut | MailboxChanged

  /** The callback, with all the responses it has been called on so far: whether to go on. What a
      closure remembers between its calls is a function of these. */
  type Callback = seq<UnsolicitedResponse> -> bool

  // ------------------------------------------------------------------ What is delivered

  const STILL_HERE: bytes := "* OK Still here\r\n"

  predicate IsStillHere(v: bytes) {
    EqIgnoringCase(v, STILL_HERE)
  }

  /** `parse_idle`: what is left of the buffer, and the response or the failure, if it has come to one. */
  function ParseIdle(p: Parser, lines: bytes): (bytes, Option<Res<UnsolicitedResponse>>) {
    match ParseResponse(p, lines)
    case Complete(n, r) =>
      (lines[n..], Some(if Convertible(r) then Success(Convert(r).value) else Failure(Unexpected(r))))
    case Incomplete => (lines, None)
    case Malformed => (lines, Some(Failure(Error.Parse(Invalid(lines)))))
  }

  /** How the delivery of the octets that arrive ends: with the response up to `end` being one that
      the callback stops at, or one that cannot be delivered, or with the octets running out. */
  datatype Delivery =
    | Stopped(seen: seq<UnsolicitedResponse>, end: nat)
    | Undelivered(seen: seq<UnsolicitedResponse>, end: nat, error: Error)
    | Exhausted(seen: seq<UnsolicitedResponse>, start: nat)

  predicate Reminds(v: bytes, from: nat)
    requires from <= |v|
  {
    IsStillHere(v[from..LineStop(v, from)])
  }

  /** All of it in one pass: responses are handed to the callback one by one, reminders are not. */
  function Deliver(p: Parser, go: Callback, seen: seq<UnsolicitedResponse>, v: bytes, from: nat): (d: Delivery)
    requires from <= |v|
    ensures d.Stopped? || d.Undelivered? ==> from < d.end <= |v|
    ensures d.Exhausted? ==> from <= d.start <= |v|
    decreases |v| - from
  {
    if from == |v| then Exhausted(seen, from)
    else if Reminds(v, from) then Deliver(p, go, seen, v, LineStop(v, from))
    else
      match ParseResponse(p, v[from..])
      case Incomplete => Exhausted(seen, from)
      case Malformed =>
        var end := from + FirstBad(p, v[from..], 0);
        Undelivered(seen, end, Error.Parse(Invalid(v[from..end])))
      case Complete(n, r) =>
        match Convert(r)
        case None => Undelivered(seen, from + n, Unexpected(r))
        case Some(u) =>
          if go(seen + [u]) then Deliver(p, go, seen + [u], v, from + n) else Stopped(seen + [u], from + n)
  }

  predicate IsTimeout(io: IoError) {
    io.TimedOut? || io.WouldBlock?
  }

  datatype Watch = Watch(result: Res<WaitOutcome>, seen: seq<UnsolicitedResponse>, rest: seq<Event>)

  /** What the loop of `wait_inner` amounts to on all that is pending. */
  function WatchFor(p: Parser, go: Callback, seen: seq<UnsolicitedResponse>, pending: seq<Event>): Watch {
    var arrival := Arrive(pending);
    match Deliver(p, go, seen, arrival.octets, 0)
    case Stopped(seen', end) => Watch(Success(MailboxChanged), seen', pending[end..])
    case Undelivered(seen', end, error) => Watch(Failure(error), seen', pending[end..])
    case Exhausted(seen', _) =>
      var result :=
        match arrival.failed
        case Broke(_, io) => if IsTimeout(io) then Success(WaitOutcome.TimedOut) else Failure(Error.Io(io))
        case _ => Failure(ConnectionLost);
      Watch(result, seen', arrival.after)
  }

  // ------------------------------------------------------------------ The state machine

  /** A handle: the connection below it, and whether there is an IDLE that is not yet done. */
  datatype Idle = Idle(conn: Conn, done: bool)

  const DONE: bytes := "DONE"
  const IDLE: bytes := "IDLE"

  function InitIdle(p: Parser, s: Idle): (Res<()>, Idle) {
    var (sent, c1) := SendCommand(s.conn, IDLE);
    if sent.Failure? then (Failure(sent.error), s.(conn := c1))
    else
      var (line, c2) := TakeLine(c1);
      if line.Failure? then (Failure(line.error), s.(conn := c2))
      else if StartsWith(line.value, "+") then (Success(()), Idle(c2, false))
      else
        var (answer, c3) := TakeReply(p, c1.(log := c2.log));
        (Failure(if answer.Failure? then answer.error else Panic), s.(conn := c3))
  }

  function TerminateIdle(p: Parser, s: Idle): (Res<()>, Idle) {
    if s.done then (Success(()), s)
    else
      var (sent, c1) := SendLine(s.conn, DONE);
      if sent.Failure? then (Failure(sent.error), Idle(c1, true))
      else
        var (answer, c2) := TakeReply(p, c1);
        (if answer.Success? then Success(()) else Failure(answer.error), Idle(c2, true))
  }

  function WatchIdle(p: Parser, go: Callback, seen: seq<UnsolicitedResponse>, s: Idle):
    (Res<WaitOutcome>, seq<UnsolicitedResponse>, Idle)
  {
    var w := WatchFor(p, go, seen, s.conn.incoming);
    (w.result, w.seen,
     s.(conn := s.conn.(incoming := w.rest, log := s.conn.log + [Waited(w.result == Success(WaitOutcome.TimedOut))])))
  }

  /** A timeout needs a fault, so something is consumed. */
  lemma TimeoutConsumes(p: Parser, go: Callback, seen: seq<UnsolicitedResponse>, pending: seq<Event>)
    requires WatchFor(p, go, seen, pending).result == Success(WaitOutcome.TimedOut)
    ensures |WatchFor(p, go, seen, pending).rest| < |pending|
  {
    assert pending != [];
  }

  lemma TerminateConsumes(p: Parser, s: Idle)
    ensures |TerminateIdle(p, s).1.conn.incoming| <= |s.conn.incoming|
  {
  }

  lemma InitConsumes(p: Parser, s: Idle)
    ensures |InitIdle(p, s).1.conn.incoming| <= |s.conn.incoming|
  {
  }

  /** `wait_inner`: with `reconnect`, each timeout ends the IDLE and begins another. */
  function WaitOn(p: Parser, go: Callback, reconnect: bool, seen: seq<UnsolicitedResponse>, s: Idle):
    (Res<WaitOutcome>, seq<UnsolicitedResponse>, Idle)
    decreases |s.conn.incoming|
  {
    var (r, seen1, s1) := WatchIdle(p, go, seen, s);
    if !reconnect || r != Success(WaitOutcome.TimedOut) then (r, seen1, s1)
    else
      TimeoutConsumes(p, go, seen, s.conn.incoming);
      TerminateConsumes(p, s1);
      var (terminated, s2) := TerminateIdle(p, s1);
      if terminated.Failure? then (Failure(terminated.error), seen1, s2)
      else
        InitConsumes(p, s2);
        var (begun, s3) := InitIdle(p, s2);
        if begun.Failure? then (Failure(begun.error), seen1, s3) else WaitOn(p, go, reconnect, seen1, s3)
  }

  /** `wait_while`; `armed` is the outcome of setting the read timeout. */
  function WaitWhileIdle(p: Parser, go: Callback, keepalive: bool, armed: Res<()>, s: Idle):
    (Res<WaitOutcome>, seq<UnsolicitedResponse>, Idle)
  {
    var (begun, s1) := InitIdle(p, s);
    if begun.Failure? then (Failure(begun.error), [], s1)
    else if armed.Failure? then (Failure(armed.error), [], s1)
    else WaitOn(p, go, keepalive, [], s1)
  }

  // ------------------------------------------------------------------ The handle

  class Handle {
    const session: Session
    var timeout: nat
    var keepalive: bool
    var done: bool

    /** `make`. */
    constructor (session: Session)
      ensures this.session == session && timeout == 29 * 60 && keepalive && !done
    {
      this.session := session;
      timeout := 29 * 60;
      keepalive := true;
      done := false;
    }

    ghost function State(): Idle
      reads this, session.conn, session.conn.stream
    {
      Idle(session.conn.State(), done)
    }

    method Init() returns (r: Res<()>)
      modifies this`done, session.conn, session.conn.stream
      ensures (r, State()) == InitIdle(session.conn.parse, old(State()))
    {
      hide ReadReply, WriteThenFlush, NextRead, AfterRead;
      var sent := session.conn.RunCommand("IDLE");
      if sent.Failure? {
        return Failure(sent.error);
      }
      ghost var c := session.conn.State();
      var v, n := session.conn.ReadLine([]);
      if n.Failure? {
        return Failure(n.error);
      }
      LineTaken(c);
      assert v == TakeLine(c).0.value;
      if StartsWith(v, "+") {
        done := false;
        return Success(());
      }
      var _, answer := session.conn.ReadResponseOnto(v);
      if answer.Failure? {
        return Failure(answer.error);
      }
      r := Failure(Panic);  // `unreachable!()`: the server has completed IDLE at once, with OK
    }

    method Terminate() returns (r: Res<()>)
      modifies this`done, session.conn, session.conn.stream
      ensures (r, State()) == TerminateIdle(session.conn.parse, old(State()))
    {
      if done {
        return Success(());
      }
      done := true;
      var sent := session.conn.WriteLine("DONE");
      if sent.Failure? {
        return Failure(sent.error);
      }
      var answer := session.conn.ReadResponse();
      r := if answer.Success? then Success(()) else Failure(answer.error);
    }

    /** The loop of `wait_inner`. */
    method Attend(go: Callback, before: seq<UnsolicitedResponse>)
      returns (r: Res<WaitOutcome>, seen: seq<UnsolicitedResponse>)
      modifies session.conn`log, session.conn.stream`incoming
      ensures (r, seen, State()) == WatchIdle(session.conn.parse, go, before, old(State()))
    {
      hide Watching, Consumed, WatchFor, IsStillHere, ParseIdle, NextRead, AfterRead;
      ghost var calls, pending, read: bytes := session.conn.log, session.conn.stream.incoming, [];
      BeginsWatching(session.conn.parse, go, before, pending);
      seen := before;
      var v: bytes := [];
      while true
        invariant Holds(read, v)
        invariant Consumed(pending, read, session.conn.stream.incoming)
        invariant Watching(session.conn.parse, go, Arrived(pending), before, seen, |read| - |v|, |read|)
        invariant v == [] || ParseResponse(session.conn.parse, v).Incomplete?
        decreases |session.conn.stream.incoming|
      {
        ghost var was, incoming := v, session.conn.stream.incoming;
        var n;
        v, n := session.conn.ReadLine(v);
        match n {
          case Failure(e) =>
            Exhausts(session.conn.parse, go, pending, before, seen, read, was, incoming);
            r := if e.Io? && IsTimeout(e.io) then Success(WaitOutcome.TimedOut) else Failure(e);
            break;
          case Success(_) =>
            LineMore(session.conn.parse, go, pending, before, seen, read, was, incoming);
            read := read + NextRead(incoming).line;
            if IsStillHere(v) {
              v := [];
              continue;
            }
            var (rest, parsed) := ParseIdle(session.conn.parse, v);
            match parsed {
              case Some(Failure(e)) =>
                r := Failure(e);
                break;
              case Some(Success(response)) =>
                seen := seen + [response];
                if !go(seen) {
                  r := Success(MailboxChanged);
                  break;
                }
                assert rest == [];  // the `debug_assert!`
                v := v[|v| - |rest|..];
              case None =>
            }
        }
      }
      session.conn.log := calls + [Waited(r == Success(WaitOutcome.TimedOut))];
    }

    method WaitInner(reconnect: bool, go: Callback, before: seq<UnsolicitedResponse>)
      returns (r: Res<WaitOutcome>, seen: seq<UnsolicitedResponse>)
      modifies this`done, session.conn, session.conn.stream
      ensures (r, seen, State()) == WaitOn(session.conn.parse, go, reconnect, before, old(State()))
      decreases |session.conn.stream.incoming|
    {
      ghost var s := State();
      r, seen := Attend(go, before);
      if reconnect && r == Success(WaitOutcome.TimedOut) {
        TimeoutConsumes(session.conn.parse, go, before, s.conn.incoming);
        TerminateConsumes(session.conn.parse, State());
        var terminated := Terminate();
        if terminated.Failure? {
          return Failure(terminated.error), seen;
        }
        InitConsumes(session.conn.parse, State());
        var begun := Init();
        if begun.Failure? {
          return Failure(begun.error), seen;
        }
        r, seen := WaitInner(reconnect, go, seen);
      }
    }

    method WaitWhile(go: Callback, armed: Res<()>) returns (r: Res<WaitOutcome>, seen: seq<UnsolicitedResponse>)
      modifies this`done, session.conn, session.conn.stream
      ensures (r, seen, State()) == WaitWhileIdle(session.conn.parse, go, keepalive, armed, old(State()))
    {
      var begun := Init();
      if begun.Failure? {
        return Failure(begun.error), [];
      }
      if armed.Failure? {
        return Failure(armed.error), [];
      }
      r, seen := WaitInner(keepalive, go, []);
    }

    method Drop()
      modifies this`done, session.conn, session.conn.stream
      ensures State() == TerminateIdle(session.conn.parse, old(State())).1
    {
      var _ := Terminate();
    }
  }

  // ------------------------------------------------------------------ The waiting loop

  predicate Holds(read: bytes, v: bytes) {
    |v| <= |read| && v == read[|read| - |v|..]
  }

  /** `v[..j]` has been read, in whole lines, and the response that starts at `from` is not complete. */
  ghost predicate Watching(p: Parser, go: Callback, v: bytes, before: seq<UnsolicitedResponse>,
                           seen: seq<UnsolicitedResponse>, from: nat, j: nat)
  {
    && Pending(p, v, from, j)
    && Deliver(p, go, before, v, 0) == Deliver(p, go, seen, v, from)
    && (from < j ==> LineStop(v, from) <= j && !Reminds(v, from))
    && (j < |v| && ParseResponse(p, v[from..]).Malformed? ==>
          FirstBad(p, v[from..], 0) == FirstBad(p, v[from..], j - from))
  }

  lemma BeginsWatching(p: Parser, go: Callback, before: seq<UnsolicitedResponse>, pending: seq<Event>)
    ensures Consumed(pending, [], pending)
    ensures Watching(p, go, Arrived(pending), before, before, 0, 0)
  {
    PrependTwice([], [], Arrive(pending));
  }

  lemma StillHereIsLine(v: bytes)
    requires IsStillHere(v)
    ensures IsLine(v)
  {
    assert forall i :: 0 <= i < |STILL_HERE| - 1 ==> STILL_HERE[i] != LF;
    forall i | 0 <= i < |v| - 1
      ensures v[i] != LF
    {
      assert Lower(v[i]) == Lower(STILL_HERE[i]);
    }
  }

  /** What the line just read does to the response it belongs to. */
  lemma WatchedLine(p: Parser, go: Callback, v: bytes, before: seq<UnsolicitedResponse>,
                    seen: seq<UnsolicitedResponse>, from: nat, j: nat)
    requires Watching(p, go, v, before, seen, from, j) && j < |v|
    ensures var e := LineStop(v, j);
            var b := v[from..e];
            var q := ParseResponse(p, b);
            var d := Deliver(p, go, before, v, 0);
            if IsStillHere(b) then Watching(p, go, v, before, seen, e, e)
            else if q.Incomplete? then Watching(p, go, v, before, seen, from, e)
            else if q.Malformed? then d == Undelivered(seen, e, Error.Parse(Invalid(b)))
            else
              && q.length == |b|
              && if Convert(q.response).None? then d == Undelivered(seen, e, Unexpected(q.response))
                 else
                   var seen' := seen + [Convert(q.response).value];
                   if go(seen') then Watching(p, go, v, before, seen', e, e) else d == Stopped(seen', e)
  {
    var e := LineStop(v, j);
    var b := v[from..e];
    if IsStillHere(b) {
      RemindedLine(p, go, v, before, seen, from, j);
    } else {
      NotReminded(v, from, j);
      JudgedLine(p, go, v, before, seen, from, j);
    }
  }

  lemma RemindedLine(p: Parser, go: Callback, v: bytes, before: seq<UnsolicitedResponse>,
                     seen: seq<UnsolicitedResponse>, from: nat, j: nat)
    requires Watching(p, go, v, before, seen, from, j) && j < |v|
    requires IsStillHere(v[from..LineStop(v, j)])
    ensures Watching(p, go, v, before, seen, LineStop(v, j), LineStop(v, j))
  {
    hide IsStillHere;
    var e := LineStop(v, j);
    StillHereIsLine(v[from..e]);
    if from < j {
      BreakInside(v, from, j);
    }
  }

  lemma BreakInside(v: bytes, from: nat, j: nat)
    requires from < j < |v| && LineStop(v, from) <= j
    ensures !IsLine(v[from..LineStop(v, j)])
  {
    assert v[from..LineStop(v, j)][LineStop(v, from) - 1 - from] == LF;
  }

  lemma JudgedLine(p: Parser, go: Callback, v: bytes, before: seq<UnsolicitedResponse>,
                   seen: seq<UnsolicitedResponse>, from: nat, j: nat)
    requires Watching(p, go, v, before, seen, from, j) && j < |v|
    requires !Reminds(v, from) && LineStop(v, from) <= LineStop(v, j)
    ensures var e := LineStop(v, j);
            var b := v[from..e];
            var q := ParseResponse(p, b);
            var d := Deliver(p, go, before, v, 0);
            if q.Incomplete? then Watching(p, go, v, before, seen, from, e)
            else if q.Malformed? then d == Undelivered(seen, e, Error.Parse(Invalid(b)))
            else
              && q.length == |b|
              && if Convert(q.response).None? then d == Undelivered(seen, e, Unexpected(q.response))
                 else
                   var seen' := seen + [Convert(q.response).value];
                   if go(seen') then Watching(p, go, v, before, seen', e, e) else d == Stopped(seen', e)
  {
    hide Reminds, Convert, FirstBad, Deliver, ParseResponse, Watching;
    var e := LineStop(v, j);
    var b := v[from..e];
    if ParseResponse(p, b).Incomplete? {
      IncompleteLine(p, go, v, before, seen, from, j);
    } else {
      FinalLine(p, go, v, before, seen, from, j);
      DeliverNext(p, go, seen, v, from);
      if ParseResponse(p, b).Complete? && Convert(ParseResponse(p, b).response).Some? {
        var seen' := seen + [Convert(ParseResponse(p, b).response).value];
        if go(seen') {
          WatchingNothing(p, go, v, before, seen', e);
        }
      }
    }
  }

  lemma WatchingNothing(p: Parser, go: Callback, v: bytes, before: seq<UnsolicitedResponse>,
                        seen: seq<UnsolicitedResponse>, e: nat)
    requires e <= |v| && Deliver(p, go, before, v, 0) == Deliver(p, go, seen, v, e)
    ensures Watching(p, go, v, before, seen, e, e)
  {
  }

  lemma IncompleteLine(p: Parser, go: Callback, v: bytes, before: seq<UnsolicitedResponse>,
                       seen: seq<UnsolicitedResponse>, from: nat, j: nat)
    requires Watching(p, go, v, before, seen, from, j) && j < |v|
    requires !Reminds(v, from) && LineStop(v, from) <= LineStop(v, j)
    requires ParseResponse(p, v[from..LineStop(v, j)]).Incomplete?
    ensures Watching(p, go, v, before, seen, from, LineStop(v, j))
  {
    hide Reminds, FirstBad, Deliver, ParseResponse;
    StillNotBad(p, v, from, j);
  }

  lemma FinalLine(p: Parser, go: Callback, v: bytes, before: seq<UnsolicitedResponse>,
                  seen: seq<UnsolicitedResponse>, from: nat, j: nat)
    requires Watching(p, go, v, before, seen, from, j) && j < |v|
    requires !ParseResponse(p, v[from..LineStop(v, j)]).Incomplete?
    ensures var e := LineStop(v, j);
            var q := ParseResponse(p, v[from..e]);
            && ParseResponse(p, v[from..]) == q
            && Deliver(p, go, before, v, 0) == Deliver(p, go, seen, v, from)
            && (q.Complete? ==> q.length == e - from)
            && (q.Malformed? ==> FirstBad(p, v[from..], 0) == e - from)
  {
    hide Reminds, FirstBad, Deliver, ParseResponse, Frame;
    var e := LineStop(v, j);
    assert v[from..e] + v[e..] == v[from..];
    Extend(p, v[from..e], v[e..]);
    NextLine(p, v, from, j);
  }

  lemma DeliverNext(p: Parser, go: Callback, seen: seq<UnsolicitedResponse>, v: bytes, from: nat)
    requires from < |v| && !Reminds(v, from)
    ensures var q := ParseResponse(p, v[from..]);
            Deliver(p, go, seen, v, from) ==
            if q.Incomplete? then Exhausted(seen, from)
            else if q.Malformed? then
              var end := from + FirstBad(p, v[from..], 0);
              Undelivered(seen, end, Error.Parse(Invalid(v[from..end])))
            else if Convert(q.response).None? then Undelivered(seen, from + q.length, Unexpected(q.response))
            else
              var seen' := seen + [Convert(q.response).value];
              if go(seen') then Deliver(p, go, seen', v, from + q.length) else Stopped(seen', from + q.length)
  {
  }

  lemma NotReminded(v: bytes, from: nat, j: nat)
    requires from <= j < |v| && !IsStillHere(v[from..LineStop(v, j)])
    requires from < j ==> LineStop(v, from) <= j && !Reminds(v, from)
    ensures !Reminds(v, from) && LineStop(v, from) <= LineStop(v, j)
  {
  }

  lemma LineMore(p: Parser, go: Callback, pending: seq<Event>, before: seq<UnsolicitedResponse>,
                 seen: seq<UnsolicitedResponse>, read: bytes, v: bytes, incoming: seq<Event>)
    requires Holds(read, v) && Consumed(pending, read, incoming) && NextRead(incoming).Line?
    requires Watching(p, go, Arrived(pending), before, seen, |read| - |v|, |read|)
    ensures var line := NextRead(incoming).line;
            var j, v' := |read + line|, v + line;
            && Holds(read + line, v') && v' != []
            && Consumed(pending, read + line, AfterRead(incoming))
            && |AfterRead(incoming)| < |incoming|
            && var w := WatchFor(p, go, before, pending);
               var (rest, parsed) := ParseIdle(p, v');
               if IsStillHere(v') then Watching(p, go, Arrived(pending), before, seen, j, j)
               else if parsed.None? then
                 && ParseResponse(p, v').Incomplete?
                 && Watching(p, go, Arrived(pending), before, seen, j - |v'|, j)
               else if parsed.value.Failure? then w == Watch(Failure(parsed.value.error), seen, AfterRead(incoming))
               else
                 var seen' := seen + [parsed.value.value];
                 && rest == []
                 && if go(seen') then Watching(p, go, Arrived(pending), before, seen', j, j)
                    else w == Watch(Success(MailboxChanged), seen', AfterRead(incoming))
  {
    hide Deliver, Watching, IsStillHere, NextRead, Arrive;
    var line, from, octets := NextRead(incoming).line, |read| - |v|, Arrived(pending);
    ConsumeLine(pending, read, incoming);
    WatchedLine(p, go, octets, before, seen, from, |read|);
    assert octets[from..|read + line|] == (read + line)[from..] == v + line;
  }

  lemma Exhausts(p: Parser, go: Callback, pending: seq<Event>, before: seq<UnsolicitedResponse>,
                 seen: seq<UnsolicitedResponse>, read: bytes, v: bytes, incoming: seq<Event>)
    requires Holds(read, v) && Consumed(pending, read, incoming) && !NextRead(incoming).Line?
    requires Watching(p, go, Arrived(pending), before, seen, |read| - |v|, |read|)
    ensures WatchFor(p, go, before, pending) ==
            match NextRead(incoming)
            case Broke(_, io) =>
              Watch(if IsTimeout(io) then Success(WaitOutcome.TimedOut) else Failure(Error.Io(io)), seen, AfterRead(incoming))
            case _ => Watch(Failure(ConnectionLost), seen, AfterRead(incoming))
  {
    ConsumeLine(pending, read, incoming);
    assert read[|read| - |v|..|read|] == read[|read| - |v|..];
  }
}
