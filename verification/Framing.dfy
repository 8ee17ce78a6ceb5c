/**
 Where a server reply ends. `Frame` reads a reply off all the octets that will arrive, in one
 pass and without regard to lines; the incremental reader of `Connection` is proved equal to it.
 */
module Framing {
  import opened Text
  import opened Responses
  import opened ParserLaws
  import opened Parsing

  /** The position just past the first LF at or after `j`, or the end. */
  function LineStop(v: bytes, j: nat): (e: nat)
    requires j <= |v|
    ensures j <= e <= |v|
    ensures j < |v| ==> j < e
    ensures forall i :: j <= i < e - 1 ==> v[i] != LF
    ensures e == |v| || (e > j && v[e - 1] == LF)
    decreases |v| - j
  {
    if j == |v| then j
    else if v[j] == LF then j + 1
    else LineStop(v, j + 1)
  }

  /** The lines of `v` that have their LF. */
  function CompleteLines(v: bytes): seq<bytes>
    decreases |v|
  {
    if v == [] then []
    else
      var e := LineStop(v, 0);
      if v[e - 1] == LF then [v[..e]] + CompleteLines(v[e..]) else []
  }

  /** The first line stop after `k` at which `x` is seen to be malformed. */
  function FirstBad(p: Parser, x: bytes, k: nat): (e: nat)
    requires k < |x| && ParseResponse(p, x).Malformed?
    ensures k < e <= |x| && ParseResponse(p, x[..e]).Malformed?
    decreases |x| - k
  {
    var e := LineStop(x, k);
    if ParseResponse(p, x[..e]).Malformed? then e
    else
      assert x[..|x|] == x;
      FirstBad(p, x, e)
  }

  /**
   How the octets `v` answer a command:
   `Answered`: `v[..start]` is complete untagged responses and `v[start..end]` is a completion;
   `Garbled`: after complete untagged responses `v[..start]` comes something malformed, seen at `end`;
   `Starved`: after complete untagged responses `v[..start]` the input runs out.
   */
  datatype Reply =
    | Answered(start: nat, end: nat, done: Response)
    | Garbled(start: nat, end: nat)
    | Starved(start: nat)

  function Frame(p: Parser, v: bytes, from: nat): (f: Reply)
    requires from <= |v|
    ensures f.Answered? ==> from <= f.start < f.end <= |v| && f.done.Done?
    ensures f.Garbled? ==> from <= f.start < f.end <= |v|
    ensures f.Starved? ==> from <= f.start <= |v|
    decreases |v| - from
  {
    if from == |v| then Starved(from)
    else
      match ParseResponse(p, v[from..])
      case Incomplete => Starved(from)
      case Malformed => Garbled(from, from + FirstBad(p, v[from..], 0))
      case Complete(n, r) =>
        if r.Done? then Answered(from, from + n, r) else Frame(p, v, from + n)
  }

  predicate NoneDone(rs: seq<Response>) {
    forall i :: 0 <= i < |rs| ==> !rs[i].Done?
  }

  /** `v` begins with complete untagged responses up to `start` and then the completion `done` up to `end`. */
  predicate BeginsWithReply(p: Parser, v: bytes, start: nat, end: nat, done: Response) {
    && start < end <= |v|
    && Whole(p, v[..start])
    && NoneDone(ResponsesOf(p, v[..start]))
    && done.Done?
    && ParseResponse(p, v[start..end]) == Complete(end - start, done)
  }

  /** The exact reading of `Answered`. */
  lemma AnsweredIff(p: Parser, v: bytes, start: nat, end: nat, done: Response)
    ensures Frame(p, v, 0) == Answered(start, end, done) <==> BeginsWithReply(p, v, start, end, done)
  {
    if Frame(p, v, 0) == Answered(start, end, done) {
      AnsweredBegins(p, v, 0);
      assert v[0..start] == v[..start];
    }
    if BeginsWithReply(p, v, start, end, done) {
      BeginsAnswered(p, v, 0, start, end, done);
    }
  }

  lemma {:induction false} AnsweredBegins(p: Parser, v: bytes, from: nat)
    requires from <= |v| && Frame(p, v, from).Answered?
    ensures var f := Frame(p, v, from);
            && Whole(p, v[from..f.start])
            && NoneDone(ResponsesOf(p, v[from..f.start]))
            && ParseResponse(p, v[f.start..f.end]) == Complete(f.end - f.start, f.done)
    decreases |v| - from
  {
    hide FirstBad;
    var x := v[from..];
    var n := ParseResponse(p, x).length;
    var f := Frame(p, v, from);
    Peel(p, x, if f.start == from then n else f.start - from);
    if f.start == from {
      assert x[..n] == v[from..from + n];
    } else {
      AnsweredBegins(p, v, from + n);
      assert x[..f.start - from] == v[from..f.start];
      assert x[n..f.start - from] == v[from + n..f.start];
    }
  }

  lemma {:induction false} BeginsAnswered(p: Parser, v: bytes, from: nat, start: nat, end: nat, done: Response)
    requires from <= start < end <= |v|
    requires Whole(p, v[from..start]) && NoneDone(ResponsesOf(p, v[from..start]))
    requires ParseResponse(p, v[start..end]) == Complete(end - start, done) && done.Done?
    ensures Frame(p, v, from) == Answered(start, end, done)
    decreases start - from
  {
    if from == start {
      assert v[start..end] + v[end..] == v[start..];
      Extend(p, v[start..end], v[end..]);
    } else {
      hide SplitAll, NoneDone, FirstBad;
      var x := v[from..start];
      var n := ParseResponse(p, x).length;
      assert x + v[start..] == v[from..];
      Extend(p, x, v[start..]);
      FirstNotDone(p, x);
      assert x[n..] == v[from + n..start];
      BeginsAnswered(p, v, from + n, start, end, done);
    }
  }

  lemma FirstNotDone(p: Parser, x: bytes)
    requires x != [] && Whole(p, x) && NoneDone(ResponsesOf(p, x))
    ensures ParseResponse(p, x).Complete? && !ParseResponse(p, x).response.Done?
    ensures var t := x[ParseResponse(p, x).length..];
            Whole(p, t) && NoneDone(ResponsesOf(p, t))
  {
    var t := x[ParseResponse(p, x).length..];
    assert ResponsesOf(p, x)[0] == ParseResponse(p, x).response;
    assert ResponsesOf(p, x)[1..] == ResponsesOf(p, t);
  }

  /** Nothing but untagged responses, then nothing or the beginning of one more. */
  predicate RunsOut(p: Parser, v: bytes) {
    && NoneDone(ResponsesOf(p, v))
    && (SplitAll(p, v).tail == [] || ParseResponse(p, SplitAll(p, v).tail).Incomplete?)
  }

  /** Nothing but untagged responses, then something malformed. */
  predicate TurnsBad(p: Parser, v: bytes) {
    && NoneDone(ResponsesOf(p, v))
    && SplitAll(p, v).tail != [] && ParseResponse(p, SplitAll(p, v).tail).Malformed?
  }

  /** The exact reading of `Starved` and of `Garbled`, and where they start. */
  lemma {:induction false} UnansweredIff(p: Parser, v: bytes, from: nat)
    requires from <= |v|
    ensures Frame(p, v, from).Starved? <==> RunsOut(p, v[from..])
    ensures Frame(p, v, from).Garbled? <==> TurnsBad(p, v[from..])
    ensures var f, tail := Frame(p, v, from), SplitAll(p, v[from..]).tail;
            && (!f.Answered? ==> f.start == |v| - |tail|)
            && (f.Garbled? ==> f.end == f.start + FirstBad(p, tail, 0))
    decreases |v| - from
  {
    var x := v[from..];
    if from < |v| && ParseResponse(p, x).Complete? {
      var n := ParseResponse(p, x).length;
      assert x[n..] == v[from + n..];
      FirstOfSplit(p, x);
      if !ParseResponse(p, x).response.Done? {
        UnansweredIff(p, v, from + n);
      }
    }
  }

  lemma FirstOfSplit(p: Parser, x: bytes)
    requires x != [] && ParseResponse(p, x).Complete?
    ensures var Complete(n, r) := ParseResponse(p, x);
            && SplitAll(p, x).tail == SplitAll(p, x[n..]).tail
            && (NoneDone(ResponsesOf(p, x)) <==> !r.Done? && NoneDone(ResponsesOf(p, x[n..])))
  {
    var Complete(n, r) := ParseResponse(p, x);
    var rs, later := ResponsesOf(p, x), ResponsesOf(p, x[n..]);
    assert rs == [r] + later;
    if NoneDone(rs) {
      assert rs[0] == r;
      forall i | 0 <= i < |later|
        ensures !later[i].Done?
      {
        assert rs[i + 1] == later[i];
      }
    }
  }

  /** No line that ends before `FirstBad` shows that `x` is malformed. */
  lemma {:induction false} FirstBadIsFirst(p: Parser, x: bytes, k: nat, j: nat)
    requires k < |x| && ParseResponse(p, x).Malformed?
    requires k < j < FirstBad(p, x, k) && x[j - 1] == LF
    ensures !ParseResponse(p, x[..j]).Malformed?
    decreases |x| - k
  {
    var e := LineStop(x, k);
    if e < j {
      FirstBadIsFirst(p, x, e, j);
    }
  }

  // ------------------------------------------------------------------ One line more

  /** The buffer from `from` on is all of one response that is not complete at any line stop so far. */
  predicate Pending(p: Parser, v: bytes, from: nat, j: nat) {
    && from <= j <= |v|
    && (from < j ==> ParseResponse(p, v[from..j]).Incomplete?)
  }

  /** A response can only be completed by the line just read, and by all of it. */
  lemma CompletedByWholeLine(p: Parser, v: bytes, from: nat, j: nat)
    requires Pending(p, v, from, j) && j < |v|
    requires ParseResponse(p, v[from..LineStop(v, j)]).Complete?
    ensures ParseResponse(p, v[from..LineStop(v, j)]).length == LineStop(v, j) - from
  {
    var e := LineStop(v, j);
    var x := v[from..e];
    var n := ParseResponse(p, x).length;
    assert x == v[from..j] + v[j..e];
    Extend(p, v[from..j], v[j..e]);
    EndsAtLf(p, x);
    assert x[n - 1] == v[from + n - 1];
    assert n > j - from;
  }

  /** What the verdict on the line just read says about the whole reply. */
  lemma NextLine(p: Parser, v: bytes, from: nat, j: nat)
    requires Pending(p, v, from, j) && j < |v|
    ensures var e := LineStop(v, j);
            var q := ParseResponse(p, v[from..e]);
            && (q.Complete? ==> q.length == e - from)
            && (q.Complete? && q.response.Done? ==> Frame(p, v, from) == Answered(from, e, q.response))
            && (q.Complete? && !q.response.Done? ==> Frame(p, v, from) == Frame(p, v, e))
            && (q.Incomplete? ==> Pending(p, v, from, e))
            && (q.Malformed? ==> ParseResponse(p, v[from..]).Malformed? && FirstBad(p, v[from..], j - from) == e - from)
  {
    var e := LineStop(v, j);
    assert v[from..e] + v[e..] == v[from..];
    Extend(p, v[from..e], v[e..]);
    if ParseResponse(p, v[from..e]).Complete? {
      CompletedByWholeLine(p, v, from, j);
    }
    LineStopShift(v, from, j);
    assert v[from..][..e - from] == v[from..e];
  }

  lemma {:induction false} LineStopShift(v: bytes, from: nat, j: nat)
    requires from <= j <= |v|
    ensures LineStop(v[from..], j - from) == LineStop(v, j) - from
    decreases |v| - j
  {
    if j < |v| && v[j] != LF {
      LineStopShift(v, from, j + 1);
    }
  }

  /** Lines that leave the response incomplete do not change where it will be seen as malformed. */
  lemma StillNotBad(p: Parser, v: bytes, from: nat, j: nat)
    requires Pending(p, v, from, j) && j < |v| && ParseResponse(p, v[from..LineStop(v, j)]).Incomplete?
    ensures ParseResponse(p, v[from..]).Malformed? ==>
              LineStop(v, j) < |v| && FirstBad(p, v[from..], j - from) == FirstBad(p, v[from..], LineStop(v, j) - from)
  {
    var e := LineStop(v, j);
    LineStopShift(v, from, j);
    assert v[from..][..e - from] == v[from..e];
    if e == |v| {
      assert v[from..e] == v[from..];
    }
  }

  /** The reader has seen `v[..j]`, in whole lines, and is looking at the response that starts at `from`. */
  ghost predicate Scanned(p: Parser, v: bytes, from: nat, j: nat) {
    && Pending(p, v, from, j)
    && Frame(p, v, 0) == Frame(p, v, from)
    && (j < |v| && ParseResponse(p, v[from..]).Malformed? ==>
          FirstBad(p, v[from..], 0) == FirstBad(p, v[from..], j - from))
  }

  lemma ScannedNothing(p: Parser, v: bytes)
    ensures Scanned(p, v, 0, 0)
  {
  }

  /** One line more: what the verdict on the octets from `from` on means. */
  lemma ScannedLine(p: Parser, v: bytes, from: nat, j: nat)
    requires Scanned(p, v, from, j) && j < |v|
    ensures var e := LineStop(v, j);
            var q := ParseResponse(p, v[from..e]);
            && (q.Complete? && q.response.Done? ==> Frame(p, v, 0) == Answered(from, e, q.response))
            && (q.Complete? && !q.response.Done? ==> Scanned(p, v, e, e))
            && (q.Incomplete? ==> Scanned(p, v, from, e))
            && (q.Malformed? ==> Frame(p, v, 0) == Garbled(from, e))
  {
    NextLine(p, v, from, j);
    if ParseResponse(p, v[from..LineStop(v, j)]).Incomplete? {
      StillNotBad(p, v, from, j);
    }
  }

  lemma ScannedAll(p: Parser, v: bytes, from: nat)
    requires Scanned(p, v, from, |v|)
    ensures Frame(p, v, 0) == Starved(from)
  {
    assert v[from..|v|] == v[from..];
  }
}
