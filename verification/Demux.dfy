/**
 Splitting a reply into what a command claims and what is unsolicited (src/parse.rs).

 Every response parser of the client is an instance of one pattern: each response is claimed,
 or queued as unsolicited, or refused, and the first refusal ends the parse.
 */
module Demultiplexing {
  import opened Wrappers
  import opened Text
  import opened Responses
  import opened Parsing

  datatype Route<+C> = Claimed(c: C) | Queued(u: UnsolicitedResponse) | Refused(error: Error)

  /** What a parser keeps, what it adds to the unsolicited queue, and how it fails if it does. */
  datatype Demuxed<+C> = Demuxed(kept: seq<C>, queued: seq<UnsolicitedResponse>, error: Option<Error>)

  function Demux<C>(p: Parser, route: Response -> Route<C>, lines: bytes): Demuxed<C>
    decreases |lines|
  {
    if lines == [] then Demuxed([], [], None)
    else
      match ParseResponse(p, lines)
      case Complete(n, r) => After(route(r), Demux(p, route, lines[n..]))
      case _ => Demuxed([], [], Some(Error.Parse(Invalid(lines))))
  }

  function After<C>(route: Route<C>, d: Demuxed<C>): Demuxed<C> {
    match route
    case Claimed(c) => d.(kept := [c] + d.kept)
    case Queued(u) => d.(queued := [u] + d.queued)
    case Refused(e) => Demuxed([], [], Some(e))
  }

  lemma DemuxNext<C>(p: Parser, route: Response -> Route<C>, lines: bytes)
    requires lines != [] && ParseResponse(p, lines).Complete?
    ensures Demux(p, route, lines) ==
            After(route(ParseResponse(p, lines).response), Demux(p, route, lines[ParseResponse(p, lines).length..]))
  {
  }

  /** What is not claimed is queued if it converts, and otherwise refused. */
  function Unclaimed<C>(r: Response): Route<C> {
    match Convert(r)
    case Some(u) => Queued(u)
    case None => Refused(Unexpected(r))
  }

  /** The route of a parser that keeps the responses it claims. */
  function Claiming(claims: Response -> bool): Response -> Route<Response> {
    r => if claims(r) then Claimed(r) else Unclaimed(r)
  }

  // ------------------------------------------------------------------ In terms of the responses

  /** How many responses come before the first one that is refused. */
  function Accepted<C>(route: Response -> Route<C>, rs: seq<Response>): (k: nat)
    ensures k <= |rs|
    ensures forall i :: 0 <= i < k ==> !route(rs[i]).Refused?
    ensures k < |rs| ==> route(rs[k]).Refused?
  {
    if rs == [] || route(rs[0]).Refused? then 0 else 1 + Accepted(route, rs[1..])
  }

  lemma {:induction false} NoneRefused<C>(route: Response -> Route<C>, rs: seq<Response>)
    requires forall i :: 0 <= i < |rs| ==> !route(rs[i]).Refused?
    ensures Accepted(route, rs) == |rs|
  {
    if rs != [] {
      NoneRefused(route, rs[1..]);
    }
  }

  /** What is kept of the responses, in order. */
  function Kept<C>(route: Response -> Route<C>, rs: seq<Response>): seq<C> {
    if rs == [] then []
    else
      match route(rs[0])
      case Claimed(c) => [c] + Kept(route, rs[1..])
      case _ => Kept(route, rs[1..])
  }

  /** What is queued of the responses, in order. */
  function Spilled<C>(route: Response -> Route<C>, rs: seq<Response>): seq<UnsolicitedResponse> {
    if rs == [] then []
    else
      match route(rs[0])
      case Queued(u) => [u] + Spilled(route, rs[1..])
      case _ => Spilled(route, rs[1..])
  }

  /** The failure of a parse that accepts `k` of the responses of `s`. */
  function FailureOf<C>(route: Response -> Route<C>, s: Split, k: nat): Option<Error>
    requires k <= |s.responses| && (k < |s.responses| ==> route(s.responses[k]).Refused?)
  {
    if k < |s.responses| then Some(route(s.responses[k]).error)
    else if s.tail != [] then Some(Error.Parse(Invalid(s.tail)))
    else None
  }

  /** What a parse makes of a buffer that has been split into its responses. */
  function DemuxSplit<C>(route: Response -> Route<C>, s: Split): Demuxed<C> {
    var k := Accepted(route, s.responses);
    Demuxed(Kept(route, s.responses[..k]), Spilled(route, s.responses[..k]), FailureOf(route, s, k))
  }

  lemma DemuxSplitCons<C>(route: Response -> Route<C>, r: Response, s: Split)
    ensures DemuxSplit(route, Split([r] + s.responses, s.tail)) == After(route(r), DemuxSplit(route, s))
  {
    var rs := [r] + s.responses;
    assert rs[1..] == s.responses;
    var k := Accepted(route, rs);
    if k > 0 {
      assert rs[..k][1..] == s.responses[..k - 1];
    }
  }

  lemma {:induction false} KeptOrQueued<C>(route: Response -> Route<C>, rs: seq<Response>)
    requires forall i :: 0 <= i < |rs| ==> !route(rs[i]).Refused?
    ensures |Kept(route, rs)| + |Spilled(route, rs)| == |rs|
  {
    if rs != [] {
      KeptOrQueued(route, rs[1..]);
    }
  }

  /**
   An order-preserving partition: of the responses up to the first refused one, each is either
   kept or queued, both in arrival order; and the parse fails exactly if there is a refused
   response or an unparseable rest, with that as the failure.
   */
  lemma {:induction false} DemuxPartition<C>(p: Parser, route: Response -> Route<C>, lines: bytes)
    ensures Demux(p, route, lines) == DemuxSplit(route, SplitAll(p, lines))
    ensures |Demux(p, route, lines).kept| + |Demux(p, route, lines).queued| ==
            Accepted(route, ResponsesOf(p, lines))
    decreases |lines|
  {
    var rs := ResponsesOf(p, lines);
    KeptOrQueued(route, rs[..Accepted(route, rs)]);
    if lines != [] && ParseResponse(p, lines).Complete? {
      var Complete(n, r) := ParseResponse(p, lines);
      DemuxPartition(p, route, lines[n..]);
      DemuxSplitCons(route, r, SplitAll(p, lines[n..]));
    }
  }

  /** Two parses in a row. */
  function InARow<C>(a: Demuxed<C>, b: Demuxed<C>): Demuxed<C> {
    if a.error.Some? then a else Demuxed(a.kept + b.kept, a.queued + b.queued, b.error)
  }

  lemma AfterInARow<C>(route: Route<C>, a: Demuxed<C>, b: Demuxed<C>)
    ensures After(route, InARow(a, b)) == InARow(After(route, a), b)
  {
    if a.error.None? {
      match route
      case Claimed(c) => assert [c] + (a.kept + b.kept) == ([c] + a.kept) + b.kept;
      case Queued(u) => assert [u] + (a.queued + b.queued) == ([u] + a.queued) + b.queued;
      case _ =>
    }
  }

  /** Parsing whole responses and then more is parsing all of it. */
  lemma {:induction false} DemuxAppend<C>(p: Parser, route: Response -> Route<C>, a: bytes, b: bytes)
    requires Whole(p, a)
    ensures Demux(p, route, a + b) == InARow(Demux(p, route, a), Demux(p, route, b))
    decreases |a|
  {
    if a == [] {
      assert a + b == b;
    } else {
      Extend(p, a, b);
      var Complete(n, r) := ParseResponse(p, a);
      assert (a + b)[n..] == a[n..] + b;
      DemuxAppend(p, route, a[n..], b);
      AfterInARow(route(r), Demux(p, route, a[n..]), Demux(p, route, b));
    }
  }

  lemma {:induction false} SameRouteSameDemux<C>(p: Parser, f: Response -> Route<C>, g: Response -> Route<C>,
                                                 lines: bytes)
    requires forall r :: f(r) == g(r)
    ensures Demux(p, f, lines) == Demux(p, g, lines)
    decreases |lines|
  {
    if lines != [] && ParseResponse(p, lines).Complete? {
      SameRouteSameDemux(p, f, g, lines[ParseResponse(p, lines).length..]);
    }
  }

  // ------------------------------------------------------------------ The queue and the collections

  /** `VecDeque<UnsolicitedResponse>`, filled at the back. */
  class Queue {
    var items: seq<UnsolicitedResponse>

    constructor ()
      ensures items == []
    {
      items := [];
    }

    method PushBack(u: UnsolicitedResponse)
      modifies this
      ensures items == old(items) + [u]
    {
      items := items + [u];
    }

    /** `try_handle_unilateral`: hands the response back if it does not convert. */
    method TryHandleUnilateral(r: Response) returns (unhandled: Option<Response>)
      modifies this
      ensures Convert(r).Some? ==> unhandled == None && items == old(items) + [Convert(r).value]
      ensures Convert(r).None? ==> unhandled == Some(r) && items == old(items)
    {
      match Convert(r) {
        case Some(u) =>
          PushBack(u);
          unhandled := None;
        case None =>
          unhandled := Some(r);
      }
    }
  }

  /** A collection of results that grows at the end. */
  class Collection<T> {
    var items: seq<T>

    constructor ()
      ensures items == []
    {
      items := [];
    }

    method Extend(more: seq<T>)
      modifies this
      ensures items == old(items) + more
    {
      items := items + more;
    }
  }

  // ------------------------------------------------------------------ parse_many_into2

  datatype MapOrNot2<+T, +U> =
    | Map1(t: T)
    | Map2(u: U)
    | MapVec1(ts: seq<T>)
    | MapVec2(us: seq<U>)
    | Not(response: Response)
    | Ignore

  /** What a response contributes to the two outputs. */
  datatype Share<+T, +U> = Share(first: seq<T>, second: seq<U>)

  function RouteMapped<T, U>(mapped: Res<MapOrNot2<T, U>>): Route<Share<T, U>> {
    match mapped
    case Failure(e) => Refused(e)
    case Success(Map1(t)) => Claimed(Share([t], []))
    case Success(Map2(u)) => Claimed(Share([], [u]))
    case Success(MapVec1(ts)) => Claimed(Share(ts, []))
    case Success(MapVec2(us)) => Claimed(Share([], us))
    case Success(Not(r)) => Unclaimed(r)
    case Success(Ignore) => Claimed(Share([], []))
  }

  function RouteOf2<T, U>(mapper: Response -> Res<MapOrNot2<T, U>>): Response -> Route<Share<T, U>> {
    r => RouteMapped(mapper(r))
  }

  function Firsts<T, U>(shares: seq<Share<T, U>>): seq<T> {
    if shares == [] then [] else shares[0].first + Firsts(shares[1..])
  }

  function Seconds<T, U>(shares: seq<Share<T, U>>): seq<U> {
    if shares == [] then [] else shares[0].second + Seconds(shares[1..])
  }

  /** The two outputs, the queue and the failure, as they are once `d` has been added to them. */
  datatype Outputs<+T, +U> =
    Outputs(first: seq<T>, second: seq<U>, queued: seq<UnsolicitedResponse>, error: Option<Error>)

  function Onto<T, U>(first: seq<T>, second: seq<U>, queued: seq<UnsolicitedResponse>,
                      d: Demuxed<Share<T, U>>): Outputs<T, U>
  {
    Outputs(first + Firsts(d.kept), second + Seconds(d.kept), queued + d.queued, d.error)
  }

  /** One response at a time: what it adds to the outputs, or the failure it ends the parse with. */
  lemma OntoAfter<T, U>(first: seq<T>, second: seq<U>, queued: seq<UnsolicitedResponse>,
                        route: Route<Share<T, U>>, d: Demuxed<Share<T, U>>)
    ensures Onto(first, second, queued, After(route, d)) ==
            match route
            case Claimed(share) => Onto(first + share.first, second + share.second, queued, d)
            case Queued(u) => Onto(first, second, queued + [u], d)
            case Refused(e) => Outputs(first, second, queued, Some(e))
    ensures first + [] == first && second + [] == second
  {
    match route {
      case Claimed(share) => assert ([share] + d.kept)[1..] == d.kept;
      case Queued(u) => assert (queued + [u]) + d.queued == queued + ([u] + d.queued);
      case Refused(e) =>
    }
  }

  lemma OntoEnd<T, U>(p: Parser, route: Response -> Route<Share<T, U>>, lines: bytes,
                      first: seq<T>, second: seq<U>, queued: seq<UnsolicitedResponse>)
    requires lines == [] || !ParseResponse(p, lines).Complete?
    ensures Onto(first, second, queued, Demux(p, route, lines)) ==
            Outputs(first, second, queued, if lines == [] then None else Some(Error.Parse(Invalid(lines))))
  {
  }

  function ErrorOf(r: Res<()>): Option<Error> {
    match r
    case Success(_) => None
    case Failure(e) => Some(e)
  }

  /** What a mapper gives to the first output, to the second, and back. */
  function FirstOf<T, U>(m: Res<MapOrNot2<T, U>>): seq<T> {
    if m.Failure? then []
    else if m.value.Map1? then [m.value.t]
    else if m.value.MapVec1? then m.value.ts
    else []
  }

  function SecondOf<T, U>(m: Res<MapOrNot2<T, U>>): seq<U> {
    if m.Failure? then []
    else if m.value.Map2? then [m.value.u]
    else if m.value.MapVec2? then m.value.us
    else []
  }

  function BackOf<T, U>(m: Res<MapOrNot2<T, U>>): seq<Response> {
    if m.Success? && m.value.Not? then [m.value.response] else []
  }

  function AllFirst<T, U>(mapper: Response -> Res<MapOrNot2<T, U>>, rs: seq<Response>): seq<T> {
    if rs == [] then [] else FirstOf(mapper(rs[0])) + AllFirst(mapper, rs[1..])
  }

  function AllSecond<T, U>(mapper: Response -> Res<MapOrNot2<T, U>>, rs: seq<Response>): seq<U> {
    if rs == [] then [] else SecondOf(mapper(rs[0])) + AllSecond(mapper, rs[1..])
  }

  function AllBack<T, U>(mapper: Response -> Res<MapOrNot2<T, U>>, rs: seq<Response>): seq<Response> {
    if rs == [] then [] else BackOf(mapper(rs[0])) + AllBack(mapper, rs[1..])
  }

  function OriginsOf(us: seq<UnsolicitedResponse>): seq<Response> {
    if us == [] then [] else [Origin(us[0])] + OriginsOf(us[1..])
  }

  /** A response ends the parse exactly if the mapper fails on it or gives back what does not convert. */
  lemma RefusedIff<T, U>(m: Res<MapOrNot2<T, U>>)
    ensures RouteMapped(m).Refused? <==>
            m.Failure? || (m.value.Not? && !Convertible(m.value.response))
    ensures m.Failure? ==> RouteMapped(m) == Refused(m.error)
    ensures m.Success? && m.value.Not? && !Convertible(m.value.response) ==>
              RouteMapped(m) == Refused(Unexpected(m.value.response))
  {
  }

  lemma {:induction false} OutputsOfAccepted<T, U>(mapper: Response -> Res<MapOrNot2<T, U>>, rs: seq<Response>)
    requires forall i :: 0 <= i < |rs| ==> !RouteOf2(mapper)(rs[i]).Refused?
    ensures Firsts(Kept(RouteOf2(mapper), rs)) == AllFirst(mapper, rs)
    ensures Seconds(Kept(RouteOf2(mapper), rs)) == AllSecond(mapper, rs)
    ensures OriginsOf(Spilled(RouteOf2(mapper), rs)) == AllBack(mapper, rs)
  {
    if rs != [] {
      var m: Res<MapOrNot2<T, U>> := mapper(rs[0]);
      var kept, spilled := Kept(RouteOf2(mapper), rs[1..]), Spilled(RouteOf2(mapper), rs[1..]);
      OutputsOfAccepted(mapper, rs[1..]);
      assert RouteOf2(mapper)(rs[0]) == RouteMapped(m);
      if RouteMapped(m).Claimed? {
        assert ([RouteMapped(m).c] + kept)[1..] == kept;
      } else {
        ConvertIff(m.value.response, RouteMapped(m).u);
        assert ([RouteMapped(m).u] + spilled)[1..] == spilled;
      }
    }
  }

  /** Each output is all that the mapper gives to it, and the queue is made of all that it gives
      back, in order, up to the first response that ends the parse. */
  lemma OutputsAre<T, U>(p: Parser, mapper: Response -> Res<MapOrNot2<T, U>>, lines: bytes)
    ensures var d := Demux(p, RouteOf2(mapper), lines);
            var rs := ResponsesOf(p, lines);
            var k := Accepted(RouteOf2(mapper), rs);
            && Firsts(d.kept) == AllFirst(mapper, rs[..k]) && Seconds(d.kept) == AllSecond(mapper, rs[..k])
            && OriginsOf(d.queued) == AllBack(mapper, rs[..k])
            && (k == |rs| ==> d.error == if Whole(p, lines) then None
                              else Some(Error.Parse(Invalid(SplitAll(p, lines).tail))))
  {
    hide Demux, SplitAll, RouteOf2, AllFirst, AllSecond, AllBack, OriginsOf, Firsts, Seconds;
    var rs := ResponsesOf(p, lines);
    DemuxPartition(p, RouteOf2(mapper), lines);
    OutputsOfAccepted(mapper, rs[..Accepted(RouteOf2(mapper), rs)]);
  }

  method ParseManyInto2<T, U>(p: Parser, input: bytes, into1: Collection<T>, into2: Collection<U>,
                              unsolicited: Queue, mapper: Response -> Res<MapOrNot2<T, U>>)
    returns (r: Res<()>)
    requires (into1 as object) != into2
    modifies into1, into2, unsolicited
    ensures Outputs(into1.items, into2.items, unsolicited.items, ErrorOf(r)) ==
            Onto(old(into1.items), old(into2.items), old(unsolicited.items),
                 Demux(p, RouteOf2(mapper), input))
  {
    hide Demux, Onto, After;
    var lines := input;
    ghost var route := RouteOf2(mapper);
    ghost var total := Onto(into1.items, into2.items, unsolicited.items, Demux(p, route, input));
    while true
      invariant Onto(into1.items, into2.items, unsolicited.items, Demux(p, route, lines)) == total
      decreases |lines|
    {
      if lines == [] {
        OntoEnd(p, route, lines, into1.items, into2.items, unsolicited.items);
        return Success(());
      }
      match ParseResponse(p, lines) {
        case Complete(n, response) =>
          DemuxNext(p, route, lines);
          lines := lines[n..];
          OntoAfter(into1.items, into2.items, unsolicited.items, route(response), Demux(p, route, lines));
          match mapper(response) {
            case Failure(e) => return Failure(e);
            case Success(Map1(t)) => into1.Extend([t]);
            case Success(Map2(u)) => into2.Extend([u]);
            case Success(MapVec1(ts)) => into1.Extend(ts);
            case Success(MapVec2(us)) => into2.Extend(us);
            case Success(Not(resp)) =>
              var unhandled := unsolicited.TryHandleUnilateral(resp);
              match unhandled {
                case Some(Fetch(_, _)) =>
                  assert false;  // a FETCH always converts
                case Some(other) => return Failure(Unexpected(other));
                case None =>
              }
            case Success(Ignore) =>
          }
        case _ =>
          OntoEnd(p, route, lines, into1.items, into2.items, unsolicited.items);
          return Failure(Error.Parse(Invalid(lines)));
      }
    }
  }

  // ------------------------------------------------------------------ One output, one result

  datatype MapOrNot<+T> = Map(t: T) | MapVec(ts: seq<T>) | NotThis(response: Response) | IgnoreThis

  function WidenOne<T>(mapped: Res<MapOrNot<T>>): Res<MapOrNot2<T, ()>> {
    match mapped
    case Failure(e) => Failure(e)
    case Success(Map(t)) => Success(Map1(t))
    case Success(MapVec(ts)) => Success(MapVec1(ts))
    case Success(NotThis(r)) => Success(Not(r))
    case Success(IgnoreThis) => Success(Ignore)
  }

  function Widen<T>(mapper: Response -> Res<MapOrNot<T>>): Response -> Res<MapOrNot2<T, ()>> {
    r => WidenOne(mapper(r))
  }

  function RouteOf<T>(mapper: Response -> Res<MapOrNot<T>>): Response -> Route<Share<T, ()>> {
    RouteOf2(Widen(mapper))
  }

  /** Nothing is ever put into the second output. */
  lemma {:induction false} NothingSecond<T>(p: Parser, mapper: Response -> Res<MapOrNot<T>>, lines: bytes)
    ensures Seconds(Demux(p, RouteOf(mapper), lines).kept) == []
    decreases |lines|
  {
    if lines != [] && ParseResponse(p, lines).Complete? {
      NothingSecond(p, mapper, lines[ParseResponse(p, lines).length..]);
      var route := RouteOf(mapper)(ParseResponse(p, lines).response);
      var rest := Demux(p, RouteOf(mapper), lines[ParseResponse(p, lines).length..]);
      if route.Claimed? {
        assert ([route.c] + rest.kept)[1..] == rest.kept;
      }
    }
  }

  method ParseManyInto<T>(p: Parser, input: bytes, into: Collection<T>, unsolicited: Queue,
                          mapper: Response -> Res<MapOrNot<T>>)
    returns (r: Res<()>)
    modifies into, unsolicited
    ensures var d := Demux(p, RouteOf(mapper), input);
            && into.items == old(into.items) + Firsts(d.kept)
            && unsolicited.items == old(unsolicited.items) + d.queued
            && ErrorOf(r) == d.error
  {
    var other := new Collection<()>();
    r := ParseManyInto2(p, input, into, other, unsolicited, Widen(mapper));
    NothingSecond(p, mapper, input);
    assert |other.items| == 0;  // the `assert_eq!`, on every path
  }

  /** What `parse_until_done_internal` makes of the responses claimed. */
  function OnlyOne<T>(d: Demuxed<Share<T, ()>>, optional: bool, input: bytes): Res<Option<T>> {
    if d.error.Some? then Failure(d.error.value)
    else
      var found := Firsts(d.kept);
      if |found| == 1 then Success(Some(found[0]))
      else if |found| == 0 && optional then Success(None)
      else Failure(Error.Parse(Invalid(input)))
  }

  method ParseUntilDoneInternal<T>(p: Parser, input: bytes, optional: bool, unsolicited: Queue,
                                   mapper: Response -> Res<MapOrNot<T>>)
    returns (r: Res<Option<T>>)
    modifies unsolicited
    ensures r == OnlyOne(Demux(p, RouteOf(mapper), input), optional, input)
    ensures unsolicited.items == old(unsolicited.items) + Demux(p, RouteOf(mapper), input).queued
  {
    var tempOutput := new Collection<T>();
    var parsed := ParseManyInto(p, input, tempOutput, unsolicited, mapper);
    if parsed.Failure? {
      return Failure(parsed.error);
    }
    var found := tempOutput.items;
    if |found| == 1 {
      r := Success(Some(found[0]));
    } else if |found| == 0 && optional {
      r := Success(None);
    } else {
      r := Failure(Error.Parse(Invalid(input)));
    }
  }

  method ParseUntilDone<T>(p: Parser, input: bytes, unsolicited: Queue, mapper: Response -> Res<MapOrNot<T>>)
    returns (r: Res<T>)
    modifies unsolicited
    ensures var d := Demux(p, RouteOf(mapper), input);
            && unsolicited.items == old(unsolicited.items) + d.queued
            && (r.Success? <==> d.error.None? && |Firsts(d.kept)| == 1)
            && (r.Success? ==> [r.value] == Firsts(d.kept))
            && (r.Failure? ==> r.error == if d.error.Some? then d.error.value else Error.Parse(Invalid(input)))
  {
    var one := ParseUntilDoneInternal(p, input, false, unsolicited, mapper);
    match one {
      case Failure(e) => r := Failure(e);
      case Success(found) =>
        assert found.Some?;  // the `expect`
        r := Success(found.value);
    }
  }
}
