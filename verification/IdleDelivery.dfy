/** What the callback of `wait_while` is called on. */
module IdleDelivery {
  import opened Wrappers
  import opened Sequences
  import opened Text
  import opened Responses
  import opened Parsing
  import opened Framing
  import opened Transport
  import opened Connections
  import opened Idling
  import Lockstep
  import Clients

  // ------------------------------------------------------------------ Any input

  /** The complete responses from `from` on, without the reminders. */
  function Notices(p: Parser, v: bytes, from: nat): seq<Response>
    requires from <= |v|
    decreases |v| - from
  {
    if from == |v| then []
    else if Reminds(v, from) then Notices(p, v, LineStop(v, from))
    else
      match ParseResponse(p, v[from..])
      case Complete(n, r) => [r] + Notices(p, v, from + n)
      case _ => []
  }

  /** The callback has been called on what `rs` are converted to, and has let all go on but possibly the last. */
  predicate CalledOn(go: Callback, before: seq<UnsolicitedResponse>, seen: seq<UnsolicitedResponse>, rs: seq<Response>) {
    && |seen| == |before| + |rs| && before <= seen
    && (forall i :: 0 <= i < |rs| ==> rs[i] == Origin(seen[|before| + i]) && Convertible(rs[i]))
    && (forall k :: |before| < k < |seen| ==> go(seen[..k]))
  }

  lemma CalledOnMore(go: Callback, before: seq<UnsolicitedResponse>, seen: seq<UnsolicitedResponse>,
                     r: Response, rs: seq<Response>)
    requires Convert(r).Some? && CalledOn(go, before + [Convert(r).value], seen, rs)
    requires rs != [] ==> go(before + [Convert(r).value])
    ensures CalledOn(go, before, seen, [r] + rs)
  {
    var before' := before + [Convert(r).value];
    assert before == before'[..|before|] && seen[|before|] == Convert(r).value;
    ConvertIff(r, Convert(r).value);
    forall k | |before| < k < |seen|
      ensures go(seen[..k])
    {
      if k == |before'| {
        assert seen[..k] == before';
      }
    }
    forall i | 0 <= i < |[r] + rs|
      ensures ([r] + rs)[i] == Origin(seen[|before| + i]) && Convertible(([r] + rs)[i])
    {
      if i > 0 {
        assert ([r] + rs)[i] == rs[i - 1];
      }
    }
  }

  /** How many responses are delivered. */
  function Times(before: seq<UnsolicitedResponse>, d: Delivery): int {
    |d.seen| - |before|
  }

  /** Of the responses `rs` the first ones are delivered, in order, and it ends for a reason: the
      callback stops at the last of them, or the next one cannot be converted, or there are no more. */
  predicate Faithful(go: Callback, before: seq<UnsolicitedResponse>, d: Delivery, rs: seq<Response>) {
    var n := Times(before, d);
    && 0 <= n <= |rs| && CalledOn(go, before, d.seen, rs[..n])
    && (d.Stopped? <==> n > 0 && !go(d.seen))
    && (d.Exhausted? ==> n == |rs|)
    && (d.Undelivered? ==>
          if n < |rs| then !Convertible(rs[n]) && d.error == Unexpected(rs[n])
          else d.error.Parse? && d.error.parse.Invalid?)
  }

  lemma FaithfulMore(go: Callback, before: seq<UnsolicitedResponse>, d: Delivery, r: Response, rs: seq<Response>)
    requires Convert(r).Some? && go(before + [Convert(r).value])
    requires Faithful(go, before + [Convert(r).value], d, rs)
    ensures Faithful(go, before, d, [r] + rs)
  {
    hide Convert, CalledOn;
    var n := Times(before + [Convert(r).value], d);
    CalledOnMore(go, before, d.seen, r, rs[..n]);
    assert ([r] + rs)[..n + 1] == [r] + rs[..n];
    if n < |rs| {
      assert ([r] + rs)[n + 1] == rs[n];
    }
    if n == 0 {
      assert CalledOn(go, before + [Convert(r).value], d.seen, []);
      OnNothing(go, before + [Convert(r).value], d.seen);
    }
  }

  lemma OnNothing(go: Callback, before: seq<UnsolicitedResponse>, seen: seq<UnsolicitedResponse>)
    ensures CalledOn(go, before, seen, []) <==> seen == before
  {
  }

  lemma FaithfulNone(go: Callback, before: seq<UnsolicitedResponse>, d: Delivery, rs: seq<Response>)
    requires d.seen == before && !d.Stopped?
    requires d.Exhausted? ==> rs == []
    requires d.Undelivered? ==>
               if rs != [] then !Convertible(rs[0]) && d.error == Unexpected(rs[0])
               else d.error.Parse? && d.error.parse.Invalid?
    ensures Faithful(go, before, d, rs)
  {
    OnNothing(go, before, before);
    assert rs[..0] == [];
  }

  lemma FaithfulStop(go: Callback, before: seq<UnsolicitedResponse>, end: nat, r: Response, rs: seq<Response>)
    requires Convert(r).Some? && !go(before + [Convert(r).value])
    ensures Faithful(go, before, Stopped(before + [Convert(r).value], end), [r] + rs)
  {
    hide Convert;
    OnNothing(go, before + [Convert(r).value], before + [Convert(r).value]);
    CalledOnMore(go, before, before + [Convert(r).value], r, []);
    assert ([r] + rs)[..1] == [r] + [];
  }

  lemma NoticesNext(p: Parser, v: bytes, from: nat)
    requires from < |v| && !Reminds(v, from)
    ensures Notices(p, v, from) ==
            match ParseResponse(p, v[from..])
            case Complete(n, r) => [r] + Notices(p, v, from + n)
            case _ => []
  {
  }

  /**
   On any input: the callback is called on the first complete responses that are not reminders,
   in order; delivery ends early only at the one the callback stops at, at one that cannot be
   converted, or at something malformed after all of them.
   */
  lemma {:induction false} DeliveredExactly(p: Parser, go: Callback, before: seq<UnsolicitedResponse>, v: bytes, from: nat)
    requires from <= |v|
    ensures Faithful(go, before, Deliver(p, go, before, v, from), Notices(p, v, from))
    decreases |v| - from
  {
    hide *;
    if from == |v| {
      NothingDelivered(p, go, before, v);
    } else if Reminds(v, from) {
      ReminderDropped(p, go, before, v, from);
      DeliveredExactly(p, go, before, v, LineStop(v, from));
    } else {
      DeliverNext(p, go, before, v, from);
      NoticesNext(p, v, from);
      var q := ParseResponse(p, v[from..]);
      if q.Complete? && Convert(q.response).Some? && go(before + [Convert(q.response).value]) {
        DeliveredExactly(p, go, before + [Convert(q.response).value], v, from + q.length);
        FaithfulMore(go, before, Deliver(p, go, before, v, from), q.response, Notices(p, v, from + q.length));
      } else {
        DeliveryEnds(p, go, before, v, from);
      }
    }
  }

  lemma NothingDelivered(p: Parser, go: Callback, before: seq<UnsolicitedResponse>, v: bytes)
    ensures Faithful(go, before, Deliver(p, go, before, v, |v|), Notices(p, v, |v|))
  {
    FaithfulNone(go, before, Exhausted(before, |v|), []);
  }

  lemma ReminderDropped(p: Parser, go: Callback, before: seq<UnsolicitedResponse>, v: bytes, from: nat)
    requires from < |v| && Reminds(v, from)
    ensures Deliver(p, go, before, v, from) == Deliver(p, go, before, v, LineStop(v, from))
    ensures Notices(p, v, from) == Notices(p, v, LineStop(v, from))
  {
    hide Reminds;
  }

  lemma DeliveryEnds(p: Parser, go: Callback, before: seq<UnsolicitedResponse>, v: bytes, from: nat)
    requires from < |v| && !Reminds(v, from)
    requires var q := ParseResponse(p, v[from..]);
             q.Complete? && Convert(q.response).Some? ==> !go(before + [Convert(q.response).value])
    ensures Faithful(go, before, Deliver(p, go, before, v, from), Notices(p, v, from))
  {
    hide Convert, Faithful, Deliver, Notices, FirstBad, Reminds, ParseResponse;
    DeliverNext(p, go, before, v, from);
    NoticesNext(p, v, from);
    var d := Deliver(p, go, before, v, from);
    var q := ParseResponse(p, v[from..]);
    if !q.Complete? {
      FaithfulNone(go, before, d, []);
    } else {
      var rs := Notices(p, v, from + q.length);
      if Convert(q.response).None? {
        FaithfulNone(go, before, d, [q.response] + rs);
      } else {
        FaithfulStop(go, before, from + q.length, q.response, rs);
      }
    }
  }

  // ------------------------------------------------------------------ A server's script

  datatype Item = Reminder(text: bytes) | Notice(text: bytes)

  ghost predicate ValidItem(p: Parser, item: Item) {
    match item
    case Reminder(text) => IsStillHere(text)
    case Notice(text) =>
      && text != [] && !Reminds(text, 0)
      && ParseResponse(p, text).Complete? && ParseResponse(p, text).length == |text|
      && Convertible(ParseResponse(p, text).response)
  }

  ghost predicate ValidItems(p: Parser, items: seq<Item>) {
    forall i :: 0 <= i < |items| ==> ValidItem(p, items[i])
  }

  function Render(items: seq<Item>): bytes {
    if items == [] then [] else items[0].text + Render(items[1..])
  }

  function Notified(p: Parser, items: seq<Item>): seq<UnsolicitedResponse>
    requires ValidItems(p, items)
  {
    if items == [] then []
    else
      (if items[0].Reminder? then [] else [Convert(ParseResponse(p, items[0].text).response).value])
      + Notified(p, items[1..])
  }

  /** The callback lets all of `us` pass. */
  predicate Willing(go: Callback, seen: seq<UnsolicitedResponse>, us: seq<UnsolicitedResponse>)
    decreases |us|
  {
    us == [] || (go(seen + [us[0]]) && Willing(go, seen + [us[0]], us[1..]))
  }

  lemma ItemTerminated(p: Parser, item: Item)
    requires ValidItem(p, item)
    ensures Terminated(item.text)
  {
    if item.Reminder? {
      StillHereEnds(item.text);
    } else {
      EndsAtLf(p, item.text);
    }
  }

  lemma {:induction false} RenderTerminated(p: Parser, items: seq<Item>)
    requires ValidItems(p, items)
    ensures items != [] ==> Terminated(Render(items))
  {
    if items != [] {
      ItemTerminated(p, items[0]);
      RenderTerminated(p, items[1..]);
    }
  }

  /** The first line of what ends a line is its first line whatever follows. */
  lemma FirstLineStays(text: bytes, v: bytes, from: nat)
    requires from <= |v| && Terminated(text) && text <= v[from..]
    ensures LineStop(v, from) == from + LineStop(text, 0)
    ensures v[from..LineStop(v, from)] == text[..LineStop(text, 0)]
  {
    var e := LineStop(text, 0);
    assert forall i :: 0 <= i < |text| ==> v[from + i] == v[from..][i] == text[i];
    assert text[e - 1] == LF && v[from + e - 1] == LF;
  }

  /** One item of a script. */
  lemma ItemDelivered(p: Parser, go: Callback, seen: seq<UnsolicitedResponse>, v: bytes, from: nat, item: Item)
    requires from <= |v| && ValidItem(p, item) && item.text <= v[from..]
    ensures from + |item.text| <= |v|
    ensures Deliver(p, go, seen, v, from) ==
            if item.Reminder? then Deliver(p, go, seen, v, from + |item.text|)
            else
              var seen' := seen + [Convert(ParseResponse(p, item.text).response).value];
              if go(seen') then Deliver(p, go, seen', v, from + |item.text|) else Stopped(seen', from + |item.text|)
  {
    hide IsStillHere, Convert, FirstBad, Deliver, Reminds, ParseResponse, LineStop;
    if item.Reminder? {
      ReminderStays(v, from, item.text);
      ReminderDropped(p, go, seen, v, from);
    } else {
      NoticeStays(p, v, from, item);
      DeliverNext(p, go, seen, v, from);
    }
  }

  lemma ReminderStays(v: bytes, from: nat, text: bytes)
    requires from <= |v| && IsStillHere(text) && text <= v[from..]
    ensures from < from + |text| <= |v| && Reminds(v, from) && LineStop(v, from) == from + |text|
  {
    hide IsStillHere;
    StillHereIsLine(text);
    StillHereEnds(text);
    FirstLineStays(text, v, from);
    assert LineStop(text, 0) == |text| && text[..|text|] == text;
  }

  lemma StillHereEnds(text: bytes)
    requires IsStillHere(text)
    ensures Terminated(text)
  {
    var last := |text| - 1;
    assert STILL_HERE[last] == LF;
    assert Lower(text[last]) == Lower(STILL_HERE[last]);
  }

  lemma NoticeStays(p: Parser, v: bytes, from: nat, item: Item)
    requires from <= |v| && ValidItem(p, item) && item.Notice? && item.text <= v[from..]
    ensures from + |item.text| <= |v| && ParseResponse(p, v[from..]) == ParseResponse(p, item.text)
    ensures !Reminds(v, from)
  {
    ItemTerminated(p, item);
    FirstLineStays(item.text, v, from);
    assert item.text[0..LineStop(item.text, 0)] == item.text[..LineStop(item.text, 0)];
    var more := v[from..][|item.text|..];
    assert v[from..] == item.text + more;
    Extend(p, item.text, more);
  }

  /** What a script comes to, item by item. */
  lemma NotifiedNext(p: Parser, go: Callback, seen: seq<UnsolicitedResponse>, items: seq<Item>)
    requires ValidItems(p, items) && items != [] && Willing(go, seen, Notified(p, items))
    ensures Render(items) == items[0].text + Render(items[1..])
    ensures ValidItem(p, items[0]) && ValidItems(p, items[1..])
    ensures var us := Notified(p, items[1..]);
            if items[0].Reminder? then Notified(p, items) == us && Willing(go, seen, us)
            else
              var u := Convert(ParseResponse(p, items[0].text).response).value;
              && go(seen + [u]) && Willing(go, seen + [u], us)
              && (seen + [u]) + us == seen + Notified(p, items)
  {
    hide Convert;
    var us := Notified(p, items[1..]);
    if items[0].Notice? {
      var u := Convert(ParseResponse(p, items[0].text).response).value;
      assert Notified(p, items) == [u] + us && ([u] + us)[1..] == us;
      assert (seen + [u]) + us == seen + ([u] + us);
    }
  }

  lemma RestOfScript(v: bytes, from: nat, text: bytes, script: bytes, tail: bytes)
    requires from <= |v| && v[from..] == (text + script) + tail
    ensures text <= v[from..] && from + |text| + |script| + |tail| == |v|
    ensures v[from + |text|..] == script + tail
  {
    assert v[from + |text|..] == v[from..][|text|..];
  }

  /** The whole script up to `tail`, by a callback that lets it pass. */
  lemma {:induction false} ScriptDelivered(p: Parser, go: Callback, seen: seq<UnsolicitedResponse>, v: bytes, from: nat,
                                          items: seq<Item>, tail: bytes)
    requires ValidItems(p, items) && Willing(go, seen, Notified(p, items))
    requires from <= |v| && v[from..] == Render(items) + tail
    ensures from + |Render(items)| + |tail| == |v|
    ensures Deliver(p, go, seen, v, from) == Deliver(p, go, seen + Notified(p, items), v, from + |Render(items)|)
    decreases |items|
  {
    hide Deliver, LineStop, Reminds, ValidItems, ParseResponse;
    if items == [] {
      assert seen + [] == seen;
      assert from + |Render(items)| == from;
    } else {
      hide *;
      NotifiedNext(p, go, seen, items);
      RestOfScript(v, from, items[0].text, Render(items[1..]), tail);
      ItemDelivered(p, go, seen, v, from, items[0]);
      var seen' := if items[0].Reminder? then seen
                   else seen + [Convert(ParseResponse(p, items[0].text).response).value];
      ScriptDelivered(p, go, seen', v, from + |items[0].text|, items[1..], tail);
      assert seen' + Notified(p, items[1..]) == seen + Notified(p, items);
      assert from + |items[0].text| + |Render(items[1..])| == from + |Render(items)|;
    }
  }

  // ------------------------------------------------------------------ Timeouts

  /** The octets before a fault arrive up to the last line end; the rest of them is dropped. */
  lemma {:induction false} ArriveBroken(x: bytes, io: IoError, rest: seq<Event>) returns (k: nat)
    ensures k <= |x| && (k > 0 ==> x[k - 1] == LF)
    ensures Arrive(Clean(x) + ([Fault(io)] + rest)) == Arrival(x[..k], Broke(x[k..], io), rest)
    decreases |x|
  {
    hide Arrive, Clean;
    var e := LineStop(x, 0);
    if e > 0 && x[e - 1] == LF {
      var m := ArriveBroken(x[e..], io, rest);
      LineBeforeFault(x, e, [Fault(io)] + rest);
      k := e + m;
      Cutting(x, e, m);
    } else {
      k := 0;
      FaultAtOnce(x, io, rest);
      assert x[..0] == [] && x[0..] == x;
    }
  }

  lemma FaultAtOnce(x: bytes, io: IoError, rest: seq<Event>)
    requires forall i :: 0 <= i < |x| ==> x[i] != LF
    ensures Arrive(Clean(x) + ([Fault(io)] + rest)) == Arrival([], Broke(x, io), rest)
  {
    ReadBroken(x, io, rest);
    assert (Clean(x) + ([Fault(io)] + rest))[|x| + 1..] == rest;
  }

  lemma Cutting(x: bytes, e: nat, m: nat)
    requires e + m <= |x|
    ensures x[..e] + x[e..][..m] == x[..e + m] && x[e..][m..] == x[e + m..]
    ensures m > 0 ==> x[e..][m - 1] == x[e + m - 1]
  {
  }

  lemma LineBeforeFault(x: bytes, e: nat, more: seq<Event>)
    requires e == LineStop(x, 0) && e > 0 && x[e - 1] == LF
    ensures Arrive(Clean(x) + more) == Prepend(x[..e], Arrive(Clean(x[e..]) + more))
  {
    assert x == x[..e] + x[e..];
    CleanAppend(x[..e], x[e..], more);
    ArriveAfterLine(x[..e], Clean(x[e..]) + more);
  }

  lemma {:induction false} ReadBroken(x: bytes, io: IoError, rest: seq<Event>)
    requires forall i :: 0 <= i < |x| ==> x[i] != LF
    ensures NextRead(Clean(x) + ([Fault(io)] + rest)) == Broke(x, io)
  {
    var ev := Clean(x) + ([Fault(io)] + rest);
    if x == [] {
      assert ev[0] == Fault(io);
    } else {
      ReadBroken(x[1..], io, rest);
      assert ev[0] == Octet(x[0]) && ev[1..] == Clean(x[1..]) + ([Fault(io)] + rest);
      assert x == [x[0]] + x[1..];
    }
  }

  /** Only a beginning of a response, and not a reminder. */
  predicate Beginning(p: Parser, x: bytes) {
    x != [] && ParseResponse(p, x).Incomplete? && !Reminds(x, 0)
  }

  lemma BeginningOfBeginning(p: Parser, x: bytes, k: nat)
    requires Beginning(p, x) && 0 < k <= |x| && x[k - 1] == LF
    ensures Beginning(p, x[..k])
  {
    assert x[..k] + x[k..] == x;
    Extend(p, x[..k], x[k..]);
    FirstLineStays(x[..k], x, 0);
  }

  lemma NothingMore(p: Parser, go: Callback, seen: seq<UnsolicitedResponse>, v: bytes, from: nat)
    requires from <= |v| && (from < |v| ==> Beginning(p, v[from..]))
    ensures Deliver(p, go, seen, v, from) == Exhausted(seen, from)
  {
    if from < |v| {
      LineStopShift(v, from, from);
      assert v[from..][..LineStop(v, from) - from] == v[from..LineStop(v, from)];
    }
  }

  /**
   How a period ends, in terms of what arrives: it is a timeout exactly if the delivery runs out
   of octets at a fault that is `TimedOut` or `WouldBlock`; any other fault there is passed on, and
   the end of the stream is a lost connection.
   */
  lemma PeriodEndsIff(p: Parser, go: Callback, seen: seq<UnsolicitedResponse>, pending: seq<Event>)
    ensures var r := WatchFor(p, go, seen, pending).result;
            var d := Deliver(p, go, seen, Arrived(pending), 0);
            var failed := Arrive(pending).failed;
            && (r == Success(WaitOutcome.TimedOut) <==>
                  d.Exhausted? && failed.Broke? && (failed.io == IoError.TimedOut || failed.io == IoError.WouldBlock))
            && (forall io :: r == Failure(Error.Io(io)) <==>
                  d.Exhausted? && failed.Broke? && failed.io == io && io != IoError.TimedOut && io != IoError.WouldBlock)
            && (r == Failure(ConnectionLost) <==> d.Exhausted? && failed.Lost?)
            && (r == Success(MailboxChanged) <==> d.Stopped?)
  {
    var d := Deliver(p, go, seen, Arrived(pending), 0);
    DeliveredExactly(p, go, seen, Arrived(pending), 0);
    if d.Undelivered? {
      assert d.error.Unexpected? || d.error.Parse?;
    }
  }

  /**
   A period that times out after a script of notices and reminders: the callback has been called
   on exactly the notices, in order. If the timeout comes in the middle of a response, what has
   been read of it, `x`, makes no difference at all: it is lost.
   */
  lemma TimedOutPeriod(p: Parser, go: Callback, seen: seq<UnsolicitedResponse>, items: seq<Item>, x: bytes,
                       io: IoError, rest: seq<Event>)
    requires ValidItems(p, items) && Willing(go, seen, Notified(p, items)) && io in {IoError.TimedOut, IoError.WouldBlock}
    requires x == [] || Beginning(p, x)
    ensures WatchFor(p, go, seen, Clean(Render(items) + x) + ([Fault(io)] + rest)) ==
            Watch(Success(WaitOutcome.TimedOut), seen + Notified(p, items), rest)
  {
    hide Deliver, Beginning, Arrive, ValidItem, ValidItems, Willing, Notified;
    var script := Render(items);
    var k := BrokenScriptArrives(p, items, x, io, rest);
    var v := script + x[..k];
    assert v[0..] == v && v[|script|..] == x[..k];
    ScriptDelivered(p, go, seen, v, 0, items, x[..k]);
    if k > 0 {
      BeginningOfBeginning(p, x, k);
    }
    NothingMore(p, go, seen + Notified(p, items), v, |script|);
  }

  lemma BrokenScriptArrives(p: Parser, items: seq<Item>, x: bytes, io: IoError, rest: seq<Event>) returns (k: nat)
    requires ValidItems(p, items)
    ensures k <= |x| && (k > 0 ==> x[k - 1] == LF)
    ensures Arrive(Clean(Render(items) + x) + ([Fault(io)] + rest)) ==
            Arrival(Render(items) + x[..k], Broke(x[k..], io), rest)
  {
    hide Arrive, ValidItem, ValidItems, Clean;
    var more := [Fault(io)] + rest;
    RenderTerminated(p, items);
    CleanAppend(Render(items), x, more);
    ArriveAfterLines(Render(items), Clean(x) + more);
    k := ArriveBroken(x, io, rest);
  }

  /**
   A period that the callback ends, at `last`: everything before has been delivered too, and
   nothing beyond it is consumed, whatever follows.
   */
  lemma StoppedPeriod(p: Parser, go: Callback, seen: seq<UnsolicitedResponse>, items: seq<Item>, last: bytes,
                      rest: seq<Event>)
    requires ValidItems(p, items) && Willing(go, seen, Notified(p, items)) && ValidItem(p, Notice(last))
    requires !go(seen + Notified(p, items) + [Convert(ParseResponse(p, last).response).value])
    ensures WatchFor(p, go, seen, Clean(Render(items) + last) + rest) ==
            Watch(Success(MailboxChanged),
                  seen + Notified(p, items) + [Convert(ParseResponse(p, last).response).value], rest)
  {
    hide Deliver, Arrive, ValidItem, ValidItems, Willing, Convert, Notified;
    var script, seen' := Render(items), seen + Notified(p, items);
    var pending, v := Clean(script + last) + rest, script + (last + Arrived(rest));
    ScriptArrives(p, items, last, rest);
    assert v[0..] == v && v[|script|..] == last + Arrived(rest);
    ScriptDelivered(p, go, seen, v, 0, items, last + Arrived(rest));
    ItemDelivered(p, go, seen', v, |script|, Notice(last));
    assert pending[|script| + |last|..] == rest;
  }

  lemma ScriptArrives(p: Parser, items: seq<Item>, last: bytes, rest: seq<Event>)
    requires ValidItems(p, items) && ValidItem(p, Notice(last))
    ensures Arrived(Clean(Render(items) + last) + rest) == Render(items) + (last + Arrived(rest))
  {
    hide Arrive, ValidItem;
    ItemTerminated(p, Notice(last));
    ArriveAfterLines(Render(items) + last, rest);
    Associative(Render(items), last, Arrived(rest));
  }

  // ------------------------------------------------------------------ A wait that is kept alive

  /** What the server sends from one accepted IDLE to the next: items, perhaps the beginning of one
      more response, nothing for too long, then the reply that completes the IDLE, and the
      continuation that accepts the next one. */
  datatype Round = Round(items: seq<Item>, partial: bytes, io: IoError, reply: Lockstep.Segment, accept: bytes)

  ghost predicate ValidRound(p: Parser, tag: u32, round: Round) {
    && ValidItems(p, round.items) && round.io in {IoError.TimedOut, IoError.WouldBlock}
    && (round.partial == [] || Beginning(p, round.partial))
    && Lockstep.Answers(p, tag, round.reply) && Lockstep.OwnAnswer(p, tag, round.reply).Success?
    && IsLine(round.accept) && Terminated(round.accept) && StartsWith(round.accept, "+")
  }

  function RoundEvents(round: Round, rest: seq<Event>): seq<Event> {
    Clean(Render(round.items) + round.partial)
    + ([Fault(round.io)] + (Clean(round.reply.reply) + (Clean(round.accept) + rest)))
  }

  ghost predicate ValidRounds(p: Parser, tag: u32, rounds: seq<Round>)
    decreases |rounds|
  {
    rounds == [] || (ValidRound(p, tag, rounds[0]) && ValidRounds(p, NextTag(tag), rounds[1..]))
  }

  function RoundsEvents(rounds: seq<Round>, rest: seq<Event>): seq<Event>
    decreases |rounds|
  {
    if rounds == [] then rest else RoundEvents(rounds[0], RoundsEvents(rounds[1..], rest))
  }

  ghost function NotifiedIn(p: Parser, tag: u32, rounds: seq<Round>): seq<UnsolicitedResponse>
    requires ValidRounds(p, tag, rounds)
    decreases |rounds|
  {
    if rounds == [] then []
    else Notified(p, rounds[0].items) + NotifiedIn(p, NextTag(tag), rounds[1..])
  }

  /** Writing what ends an IDLE and begins the next one. */
  function WriteRound(o: Outbox, tag: u32): (Res<()>, Outbox) {
    var (r, o1) := WriteThenFlush(o, [DONE, CRLF]);
    if r.Failure? then (r, o1) else WriteThenFlush(o1, [CommandLine(NextTag(tag), IDLE), CRLF])
  }

  /** The writes of so many rounds succeed. */
  predicate RoundsWritten(o: Outbox, tag: u32, n: nat)
    decreases n
  {
    n == 0 ||
    var (r, o') := WriteRound(o, tag);
    r.Success? && RoundsWritten(o', NextTag(tag), n - 1)
  }

  lemma EndsRound(p: Parser, s: Idle, reply: Lockstep.Segment, rest: seq<Event>) returns (s': Idle)
    requires !s.done && s.conn.incoming == Clean(reply.reply) + rest
    requires WriteThenFlush(s.conn.out, [DONE, CRLF]).0.Success?
    requires Lockstep.Answers(p, s.conn.tag, reply) && Lockstep.OwnAnswer(p, s.conn.tag, reply).Success?
    ensures TerminateIdle(p, s) == (Success(()), s')
    ensures s'.done && s'.conn.tag == s.conn.tag && s'.conn.incoming == rest
    ensures s'.conn.out == WriteThenFlush(s.conn.out, [DONE, CRLF]).1
  {
    hide ReadReply, WriteThenFlush;
    var c1 := SendLine(s.conn, DONE).1;
    Clients.ReplyRead(p, c1, reply, rest);
    s' := TerminateIdle(p, s).1;
  }

  lemma BeginsRound(p: Parser, s: Idle, accept: bytes, rest: seq<Event>) returns (s': Idle)
    requires s.conn.incoming == Clean(accept) + rest
    requires SendCommand(s.conn, IDLE).0.Success?
    requires IsLine(accept) && Terminated(accept) && StartsWith(accept, "+")
    ensures InitIdle(p, s) == (Success(()), s')
    ensures !s'.done && s'.conn.tag == NextTag(s.conn.tag) && s'.conn.incoming == rest
    ensures s'.conn.out == SendCommand(s.conn, IDLE).1.out
  {
    hide ReadReply, WriteThenFlush;
    ReadLineBack(accept, rest);
    assert s.conn.incoming[|accept|..] == rest;
    s' := InitIdle(p, s).1;
  }

  /** A timeout only ends one IDLE and begins another: the wait goes on with all that has been
      delivered so far. */
  lemma RoundTaken(p: Parser, go: Callback, seen: seq<UnsolicitedResponse>, s: Idle, round: Round, rest: seq<Event>)
    returns (s': Idle)
    requires !s.done && ValidRound(p, s.conn.tag, round) && WriteRound(s.conn.out, s.conn.tag).0.Success?
    requires Willing(go, seen, Notified(p, round.items))
    requires s.conn.incoming == RoundEvents(round, rest)
    ensures WaitOn(p, go, true, seen, s) == WaitOn(p, go, true, seen + Notified(p, round.items), s')
    ensures !s'.done && s'.conn.tag == NextTag(s.conn.tag) && s'.conn.incoming == rest
    ensures s'.conn.out == WriteRound(s.conn.out, s.conn.tag).1
  {
    hide WatchFor, WaitOn, InitIdle, TerminateIdle, Willing, Notified, ValidItems, WriteThenFlush,
         Lockstep.Answers, Lockstep.OwnAnswer;
    var after := Clean(round.reply.reply) + (Clean(round.accept) + rest);
    TimedOutPeriod(p, go, seen, round.items, round.partial, round.io, after);
    WaitTimedOut(p, go, seen, s);
    var s1 := WatchIdle(p, go, seen, s).2;
    var s2 := EndsRound(p, s1, round.reply, Clean(round.accept) + rest);
    s' := BeginsRound(p, s2, round.accept, rest);
  }

  /** Whatever arrives after the timeout, be it the rest of a response that has been cut off, is read
      as the reply to DONE: the wait goes on if that is accepted and the next IDLE too, and otherwise
      ends with that failure. */
  lemma AfterTimeout(p: Parser, go: Callback, seen: seq<UnsolicitedResponse>, s: Idle, items: seq<Item>, x: bytes,
                     io: IoError, rest: seq<Event>)
    returns (s1: Idle)
    requires ValidItems(p, items) && Willing(go, seen, Notified(p, items)) && io in {IoError.TimedOut, IoError.WouldBlock}
    requires x == [] || Beginning(p, x)
    requires s.conn.incoming == Clean(Render(items) + x) + ([Fault(io)] + rest)
    ensures s1 == s.(conn := s.conn.(incoming := rest, log := s.conn.log + [Waited(true)]))
    ensures var seen1 := seen + Notified(p, items);
            var (terminated, s2) := TerminateIdle(p, s1);
            var (begun, s3) := InitIdle(p, s2);
            WaitOn(p, go, true, seen, s) ==
            if terminated.Failure? then (Failure(terminated.error), seen1, s2)
            else if begun.Failure? then (Failure(begun.error), seen1, s3)
            else WaitOn(p, go, true, seen1, s3)
  {
    hide WatchFor, TerminateIdle, InitIdle, Willing, Notified, ValidItems, Beginning, WaitOn;
    TimedOutPeriod(p, go, seen, items, x, io, rest);
    s1 := WatchIdle(p, go, seen, s).2;
    WaitTimedOut(p, go, seen, s);
  }

  lemma WaitTimedOut(p: Parser, go: Callback, seen: seq<UnsolicitedResponse>, s: Idle)
    requires WatchIdle(p, go, seen, s).0 == Success(WaitOutcome.TimedOut)
    ensures var (_, seen1, s1) := WatchIdle(p, go, seen, s);
            var (terminated, s2) := TerminateIdle(p, s1);
            var (begun, s3) := InitIdle(p, s2);
            WaitOn(p, go, true, seen, s) ==
            if terminated.Failure? then (Failure(terminated.error), seen1, s2)
            else if begun.Failure? then (Failure(begun.error), seen1, s3)
            else WaitOn(p, go, true, seen1, s3)
  {
    hide WatchIdle, TerminateIdle, InitIdle;
  }

  lemma {:induction false} WillingTwice(go: Callback, seen: seq<UnsolicitedResponse>,
                                       a: seq<UnsolicitedResponse>, b: seq<UnsolicitedResponse>)
    requires Willing(go, seen, a + b)
    ensures Willing(go, seen, a) && Willing(go, seen + a, b)
    decreases |a|
  {
    if a == [] {
      assert [] + b == b && seen + [] == seen;
    } else {
      assert (a + b)[1..] == a[1..] + b;
      WillingTwice(go, seen + [a[0]], a[1..], b);
      assert (seen + [a[0]]) + a[1..] == seen + a;
    }
  }

  /** However often the wait is refreshed, as long as the writes succeed, the callback sees the
      notices of all rounds, in order and once each. The beginning of a response before a timeout is
      not among them, nor what arrives between DONE and the completion. */
  lemma {:induction false} KeptAlive(p: Parser, go: Callback, seen: seq<UnsolicitedResponse>, s: Idle, rounds: seq<Round>,
                                     rest: seq<Event>)
    returns (s': Idle)
    requires !s.done && ValidRounds(p, s.conn.tag, rounds) && RoundsWritten(s.conn.out, s.conn.tag, |rounds|)
    requires Willing(go, seen, NotifiedIn(p, s.conn.tag, rounds))
    requires s.conn.incoming == RoundsEvents(rounds, rest)
    ensures WaitOn(p, go, true, seen, s) == WaitOn(p, go, true, seen + NotifiedIn(p, s.conn.tag, rounds), s')
    ensures !s'.done && s'.conn.incoming == rest
    decreases |rounds|
  {
    hide WaitOn, Willing, Notified, RoundEvents, WriteRound, Lockstep.Answers, Lockstep.OwnAnswer;
    if rounds == [] {
      assert seen + [] == seen;
      s' := s;
    } else {
      var us, later := Notified(p, rounds[0].items), NotifiedIn(p, NextTag(s.conn.tag), rounds[1..]);
      WillingTwice(go, seen, us, later);
      var s1 := RoundTaken(p, go, seen, s, rounds[0], RoundsEvents(rounds[1..], rest));
      s' := KeptAlive(p, go, seen + us, s1, rounds[1..], rest);
      assert (seen + us) + later == seen + (us + later);
    }
  }
}
