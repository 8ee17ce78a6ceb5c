/**
 The parsers behind EXPUNGE, APPEND, NOOP, SELECT, STATUS, SEARCH and SORT (src/parse.rs).

 Each method walks the buffer with a loop; its contract says what it keeps, queues and fails
 with in terms of `Demux`, and what its result is in terms of the responses it claims.
 */
module Results {
  import opened Wrappers
  import opened Text
  import opened Responses
  import opened Parsing
  import opened Replies
  import opened Folds
  import opened Demultiplexing
  import opened DeletedResults

  // ------------------------------------------------------------------ Completions in a buffer

  /** A completion can only be the last response, with status OK and nothing after it. */
  predicate Completed(s: Split) {
    forall i :: 0 <= i < |s.responses| && s.responses[i].Done? ==>
      i == |s.responses| - 1 && s.tail == [] && s.responses[i].status == OK
  }

  /** `run`'s buffer, with or without the completion, is of that kind. */
  lemma OkReplyCompleted(p: Parser, tag: u32, data: bytes, i: nat)
    requires OkReply(p, tag, data, i)
    ensures Completed(SplitAll(p, data)) && Completed(SplitAll(p, data[..i]))
  {
    FramingsAgree(p, tag, data, i);
  }

  /** Nor does any parser that is handed an accepted reply meet anything it cannot parse: if it
      fails, then at a response that it neither claims nor can queue. */
  lemma OnlyUnexpected(p: Parser, tag: u32, data: bytes, i: nat, claims: Response -> bool)
    requires OkReply(p, tag, data, i)
    ensures Whole(p, data) && Whole(p, data[..i])
    ensures forall lines | lines in {data, data[..i]} ::
              var d := Demux(p, Claiming(claims), lines);
              d.error.Some? ==> exists r :: r in ResponsesOf(p, lines) && !claims(r) && !Convertible(r)
                                            && d.error == Some(Unexpected(r))
  {
    FramingsAgree(p, tag, data, i);
    RefusalIsUnexpected(p, data, claims);
    RefusalIsUnexpected(p, data[..i], claims);
  }

  /** On whole responses a parse fails only by refusing one of them, whatever its route. */
  lemma OnlyRefusals<C>(p: Parser, route: Response -> Route<C>, lines: bytes)
    requires Whole(p, lines)
    ensures var d := Demux(p, route, lines);
            d.error.Some? ==> exists r :: r in ResponsesOf(p, lines) && route(r).Refused?
                                          && d.error == Some(route(r).error)
  {
    var rs := ResponsesOf(p, lines);
    DemuxPartition(p, route, lines);
    var k := Accepted(route, rs);
    if k < |rs| {
      assert rs[k] in rs && route(rs[k]).Refused?;
    }
  }

  lemma RefusalIsUnexpected(p: Parser, lines: bytes, claims: Response -> bool)
    requires Whole(p, lines)
    ensures var d := Demux(p, Claiming(claims), lines);
            d.error.Some? ==> exists r :: r in ResponsesOf(p, lines) && !claims(r) && !Convertible(r)
                                          && d.error == Some(Unexpected(r))
  {
    OnlyRefusals(p, Claiming(claims), lines);
  }

  lemma CompletedNext(p: Parser, lines: bytes)
    requires lines != [] && ParseResponse(p, lines).Complete? && Completed(SplitAll(p, lines))
    ensures var Complete(n, r) := ParseResponse(p, lines);
            && Completed(SplitAll(p, lines[n..]))
            && (r.Done? ==> r.status == OK && lines[n..] == [])
  {
    var n := ParseResponse(p, lines).length;
    var s, t := SplitAll(p, lines), SplitAll(p, lines[n..]);
    assert s.responses[0] == ParseResponse(p, lines).response;
    assert forall i :: 0 <= i < |t.responses| ==> t.responses[i] == s.responses[i + 1];
  }

  // ------------------------------------------------------------------ One response at a time

  /** The claimed responses and the queue, once `d` has been added to them. */
  function Ahead<C>(seen: seq<C>, queued: seq<UnsolicitedResponse>, d: Demuxed<C>): Demuxed<C> {
    Demuxed(seen + d.kept, queued + d.queued, d.error)
  }

  lemma AheadNext<C>(p: Parser, route: Response -> Route<C>, lines: bytes, seen: seq<C>,
                     queued: seq<UnsolicitedResponse>)
    requires lines != [] && ParseResponse(p, lines).Complete?
    ensures var Complete(n, r) := ParseResponse(p, lines);
            var d := Demux(p, route, lines[n..]);
            Ahead(seen, queued, Demux(p, route, lines)) ==
            match route(r)
            case Claimed(c) => Ahead(seen + [c], queued, d)
            case Queued(u) => Ahead(seen, queued + [u], d)
            case Refused(e) => Demuxed(seen, queued, Some(e))
  {
    var Complete(n, r) := ParseResponse(p, lines);
    var d := Demux(p, route, lines[n..]);
    DemuxNext(p, route, lines);
    match route(r) {
      case Claimed(c) => assert (seen + [c]) + d.kept == seen + ([c] + d.kept);
      case Queued(u) => assert (queued + [u]) + d.queued == queued + ([u] + d.queued);
      case Refused(e) =>
    }
  }

  /** The same for a parser that keeps the responses it claims. */
  lemma ClaimNext(p: Parser, claims: Response -> bool, lines: bytes, seen: seq<Response>,
                  queued: seq<UnsolicitedResponse>)
    requires lines != [] && ParseResponse(p, lines).Complete?
    ensures var Complete(n, r) := ParseResponse(p, lines);
            var d := Demux(p, Claiming(claims), lines[n..]);
            Ahead(seen, queued, Demux(p, Claiming(claims), lines)) ==
            if claims(r) then Ahead(seen + [r], queued, d)
            else
              match Convert(r)
              case Some(u) => Ahead(seen, queued + [u], d)
              case None => Demuxed(seen, queued, Some(Unexpected(r)))
  {
    AheadNext(p, Claiming(claims), lines, seen, queued);
  }

  lemma AheadEnd<C>(p: Parser, route: Response -> Route<C>, lines: bytes, seen: seq<C>,
                    queued: seq<UnsolicitedResponse>)
    ensures lines == [] ==> Ahead(seen, queued, Demux(p, route, lines)) == Demuxed(seen, queued, None)
    ensures lines != [] && !ParseResponse(p, lines).Complete? ==>
              Ahead(seen, queued, Demux(p, route, lines)) ==
              Demuxed(seen, queued, Some(Error.Parse(Invalid(lines))))
  {
  }

  lemma AheadStart<C>(d: Demuxed<C>, queued: seq<UnsolicitedResponse>)
    ensures Ahead([], queued, d) == Demuxed(d.kept, queued + d.queued, d.error)
  {
    assert [] + d.kept == d.kept;
  }

  /** When nothing is refused, keeping what is claimed is filtering. */
  lemma {:induction false} KeptIsFilter(claims: Response -> bool, rs: seq<Response>)
    ensures Kept(Claiming(claims), rs) == Filter(claims, rs)
  {
    if rs != [] {
      KeptIsFilter(claims, rs[1..]);
    }
  }

  /** Conversion of each response that converts. */
  function ConvertAll(rs: seq<Response>): seq<UnsolicitedResponse> {
    if rs == [] then []
    else (match Convert(rs[0]) case Some(u) => [u] case None => []) + ConvertAll(rs[1..])
  }

  function Except(claims: Response -> bool): Response -> bool {
    r => !claims(r)
  }

  /** What is queued is the conversion of what is not claimed. */
  lemma {:induction false} SpilledIsRest(claims: Response -> bool, rs: seq<Response>)
    ensures Spilled(Claiming(claims), rs) == ConvertAll(Filter(Except(claims), rs))
  {
    if rs != [] {
      SpilledIsRest(claims, rs[1..]);
      var rest := Filter(Except(claims), rs[1..]);
      assert ([rs[0]] + rest)[1..] == rest;
      assert [] + rest == rest;
    }
  }

  /** A parse that does not fail keeps all the responses it claims. */
  lemma NothingRefused(p: Parser, claims: Response -> bool, lines: bytes)
    requires Demux(p, Claiming(claims), lines).error == None
    ensures Whole(p, lines)
    ensures Demux(p, Claiming(claims), lines).kept == Filter(claims, ResponsesOf(p, lines))
    ensures forall r :: r in ResponsesOf(p, lines) ==> claims(r) || Convertible(r)
  {
    var rs := ResponsesOf(p, lines);
    DemuxPartition(p, Claiming(claims), lines);
    assert Accepted(Claiming(claims), rs) == |rs|;
    assert rs[..|rs|] == rs;
    KeptIsFilter(claims, rs);
  }

  // ------------------------------------------------------------------ NOOP

  const NoClaims: Response -> bool := _ => false

  method ParseNoop(p: Parser, input: bytes, unsolicited: Queue) returns (r: Res<()>)
    modifies unsolicited
    ensures Demuxed([], unsolicited.items, ErrorOf(r)) ==
            Ahead([], old(unsolicited.items), Demux(p, Claiming(NoClaims), input))
  {
    var lines := input;
    ghost var route := Claiming(NoClaims);
    ghost var total := Ahead([], unsolicited.items, Demux(p, route, input));
    hide Demux, Ahead, Claiming, Convert;
    while true
      invariant Ahead([], unsolicited.items, Demux(p, route, lines)) == total
      decreases |lines|
    {
      AheadEnd(p, route, lines, [], unsolicited.items);
      if lines == [] {
        return Success(());
      }
      match ParseResponse(p, lines) {
        case Complete(n, data) =>
          ClaimNext(p, NoClaims, lines, [], unsolicited.items);
          lines := lines[n..];
          var unhandled := unsolicited.TryHandleUnilateral(data);
          if unhandled.Some? {
            return Failure(Unexpected(unhandled.value));
          }
        case _ =>
          return Failure(Error.Parse(Invalid(lines)));
      }
    }
  }

  // ------------------------------------------------------------------ EXPUNGE

  predicate ExpungeClaims(r: Response) {
    r.Done? || r.Expunge? || r.Vanished?
  }

  function NumberIn(r: Response): seq<u32> {
    if r.Expunge? then [r.number] else []
  }

  function RangesIn(r: Response): seq<Range> {
    if r.Vanished? then r.uids else []
  }

  function CompletionModSeq(r: Response): Option<u64> {
    match r
    case Done(_, _, Some(HighestModSeq(ms)), _) => Some(ms)
    case _ => None
  }

  /** VANISHED, if it lists anything at all, wins over EXPUNGE. */
  function DeletedBy(rs: seq<Response>): Deleted {
    var ranges := Collect(RangesIn, rs);
    var modSeq := Last(CompletionModSeq, rs);
    if ranges != [] then Deleted(VanishedUids(ranges), modSeq)
    else Deleted(Expunged(Collect(NumberIn, rs)), modSeq)
  }

  method ParseExpunge(p: Parser, input: bytes, unsolicited: Queue) returns (r: Res<Deleted>)
    requires Completed(SplitAll(p, input))
    modifies unsolicited
    ensures var d := Demux(p, Claiming(ExpungeClaims), input);
            && unsolicited.items == old(unsolicited.items) + d.queued
            && r == if d.error.Some? then Failure(d.error.value) else Success(DeletedBy(d.kept))
  {
    var lines := input;
    var expunged: seq<u32> := [];
    var vanished: seq<Range> := [];
    var modSeq: Option<u64> := None;
    ghost var seen: seq<Response> := [];
    ghost var route := Claiming(ExpungeClaims);
    ghost var d := Demux(p, route, input);
    AheadStart(d, unsolicited.items);
    ghost var total := Ahead([], unsolicited.items, d);
    hide Demux, Ahead, Claiming, Convert, SplitAll, Last;
    while lines != []
      invariant Completed(SplitAll(p, lines))
      invariant Ahead(seen, unsolicited.items, Demux(p, route, lines)) == total
      invariant expunged == Collect(NumberIn, seen)
      invariant vanished == Collect(RangesIn, seen)
      invariant modSeq == Last(CompletionModSeq, seen)
      decreases |lines|
    {
      AheadEnd(p, route, lines, seen, unsolicited.items);
      match ParseResponse(p, lines) {
        case Complete(n, response) =>
          ClaimNext(p, ExpungeClaims, lines, seen, unsolicited.items);
          CompletedNext(p, lines);
          lines := lines[n..];
          CollectSnoc(NumberIn, seen, response);
          CollectSnoc(RangesIn, seen, response);
          LastSnoc(CompletionModSeq, seen, response);
          match response {
            case Done(_, status, code, _) =>
              assert status == OK;  // the `assert_eq!`
              match code {
                case Some(HighestModSeq(ms)) => modSeq := Some(ms);
                case _ =>
              }
              seen := seen + [response];
            case Expunge(number) =>
              expunged := expunged + [number];
              seen := seen + [response];
            case Vanished(_, uids) =>
              vanished := vanished + uids;
              seen := seen + [response];
            case data =>
              var unhandled := unsolicited.TryHandleUnilateral(data);
              if unhandled.Some? {
                return Failure(Unexpected(unhandled.value));
              }
          }
        case _ =>
          return Failure(Error.Parse(Invalid(lines)));
      }
    }
    AheadEnd(p, route, lines, seen, unsolicited.items);
    if vanished != [] {
      r := Success(Deleted(VanishedUids(vanished), modSeq));
    } else {
      r := Success(Deleted(Expunged(expunged), modSeq));
    }
  }

  /** The ranges of all VANISHED responses, in arrival order. */
  function VanishedIn(rs: seq<Response>): seq<Range> {
    if rs == [] then []
    else
      match rs[0]
      case Vanished(_, uids) => uids + VanishedIn(rs[1..])
      case _ => VanishedIn(rs[1..])
  }

  /** The numbers of all EXPUNGE responses, in arrival order. */
  function ExpungedIn(rs: seq<Response>): seq<u32> {
    if rs == [] then []
    else
      match rs[0]
      case Expunge(number) => [number] + ExpungedIn(rs[1..])
      case _ => ExpungedIn(rs[1..])
  }

  /** A response lists a range that holds `u`. */
  predicate Lists(r: Response, u: u32) {
    r.Vanished? && exists i :: 0 <= i < |r.uids| && r.uids[i].first <= u <= r.uids[i].last
  }

  /**
   What a successful EXPUNGE makes of the whole reply: if any VANISHED lists a range, the UIDs in
   all their ranges, in arrival order; otherwise the EXPUNGE numbers, in arrival order with repeats.
   The mod sequence is that of the completion, and there is none without it.
   */
  lemma ExpungeReports(p: Parser, input: bytes)
    requires Demux(p, Claiming(ExpungeClaims), input).error == None && Completed(SplitAll(p, input))
    ensures var d := DeletedBy(Demux(p, Claiming(ExpungeClaims), input).kept);
            var rs := ResponsesOf(p, input);
            && (if exists r :: r in rs && r.Vanished? && r.uids != [] then
                  d.Uids() == Expand(VanishedIn(rs)) && d.Seqs() == [] && d.IntoIter() == d.Uids() && !d.IsEmpty()
                else
                  d.Seqs() == ExpungedIn(rs) && d.Uids() == [] && d.IntoIter() == d.Seqs()
                  && (d.IsEmpty() <==> forall r :: r in rs ==> !r.Expunge?))
            && (forall u :: u in d.Uids() <==> exists r :: r in rs && Lists(r, u))
            && (forall m: u64 :: d.modSeq == Some(m) <==>
                  rs != [] && rs[|rs| - 1].Done? && rs[|rs| - 1].code == Some(HighestModSeq(m)))
  {
    hide Demux, Completed, SplitAll, Expand;
    var rs := ResponsesOf(p, input);
    NothingRefused(p, ExpungeClaims, input);
    CollectFilter(NumberIn, ExpungeClaims, rs);
    CollectFilter(RangesIn, ExpungeClaims, rs);
    LastFilter(CompletionModSeq, ExpungeClaims, rs);
    RangesAreVanished(rs);
    NumbersAreExpunged(rs);
    SomeVanishedIff(rs);
    VanishedHolds(rs);
    ModSeqOfCompletion(p, input);
    NothingExpands();
  }

  lemma NothingExpands()
    ensures Expand([]) == []
  {
  }

  lemma {:induction false} RangesAreVanished(rs: seq<Response>)
    ensures Collect(RangesIn, rs) == VanishedIn(rs)
  {
    if rs != [] {
      RangesAreVanished(rs[1..]);
      CollectCons(RangesIn, rs[0], rs[1..]);
      assert [rs[0]] + rs[1..] == rs && [] + VanishedIn(rs[1..]) == VanishedIn(rs[1..]);
    }
  }

  lemma {:induction false} NumbersAreExpunged(rs: seq<Response>)
    ensures Collect(NumberIn, rs) == ExpungedIn(rs)
    ensures ExpungedIn(rs) == [] <==> forall r :: r in rs ==> !r.Expunge?
  {
    if rs != [] {
      NumbersAreExpunged(rs[1..]);
      CollectCons(NumberIn, rs[0], rs[1..]);
      assert [rs[0]] + rs[1..] == rs && [] + ExpungedIn(rs[1..]) == ExpungedIn(rs[1..]);
    }
  }

  lemma {:induction false} SomeVanishedIff(rs: seq<Response>)
    ensures VanishedIn(rs) != [] <==> exists r :: r in rs && r.Vanished? && r.uids != []
  {
    if rs != [] {
      SomeVanishedIff(rs[1..]);
      assert [rs[0]] + rs[1..] == rs;
    }
  }

  lemma {:induction false} VanishedHolds(rs: seq<Response>)
    ensures forall u :: u in Expand(VanishedIn(rs)) <==> exists r :: r in rs && Lists(r, u)
  {
    if rs == [] {
      NothingExpands();
    } else {
      VanishedHolds(rs[1..]);
      assert [rs[0]] + rs[1..] == rs;
      if rs[0].Vanished? {
        ExpandBoth(rs[0].uids, VanishedIn(rs[1..]));
        ExpandElements(rs[0].uids);
        hide Expand;
        forall u
          ensures u in Expand(rs[0].uids) <==> Lists(rs[0], u)
        {
        }
      }
      hide Expand;
      forall u
        ensures u in Expand(VanishedIn(rs)) <==> exists r :: r in rs && Lists(r, u)
      {
        if Lists(rs[0], u) {
          assert rs[0] in rs;
        }
        if r :| r in rs[1..] && Lists(r, u) {
          assert r in rs;
        }
      }
    }
  }

  lemma {:induction false} ExpandBoth(a: seq<Range>, b: seq<Range>)
    ensures Expand(a + b) == Expand(a) + Expand(b)
  {
    if a == [] {
      assert a + b == b;
    } else {
      assert (a + b)[1..] == a[1..] + b;
      ExpandBoth(a[1..], b);
    }
  }

  lemma ModSeqOfCompletion(p: Parser, input: bytes)
    requires Completed(SplitAll(p, input))
    ensures var rs := ResponsesOf(p, input);
            forall m: u64 :: Last(CompletionModSeq, rs) == Some(m) <==>
              rs != [] && rs[|rs| - 1].Done? && rs[|rs| - 1].code == Some(HighestModSeq(m))
  {
    var rs := ResponsesOf(p, input);
    if rs != [] {
      var init := rs[..|rs| - 1];
      forall r | r in init
        ensures CompletionModSeq(r) == None
      {
        var i :| 0 <= i < |init| && init[i] == r;
        assert rs[i] == r;
      }
      NoneIsLast(CompletionModSeq, init);
    }
  }

  lemma {:induction false} NoneIsLast<A, T>(pick: A -> Option<T>, xs: seq<A>)
    requires forall x :: x in xs ==> pick(x) == None
    ensures Last(pick, xs) == None
  {
    if xs != [] {
      NoneIsLast(pick, xs[..|xs| - 1]);
    }
  }

  // ------------------------------------------------------------------ APPEND

  datatype Appended = Appended(uidValidity: Option<u32>, uids: Option<seq<Range>>)

  predicate AppendClaims(r: Response) {
    r.Done?
  }

  function CompletionAppendUid(r: Response): Option<Appended> {
    match r
    case Done(_, _, Some(AppendUid(validity, uids)), _) => Some(Appended(Some(validity), Some(uids)))
    case _ => None
  }

  function AppendedBy(rs: seq<Response>): Appended {
    OrElse(Last(CompletionAppendUid, rs), Appended(None, None))
  }

  lemma ClaimsCompletion(r: Response)
    ensures AppendClaims(r) <==> r.Done?
  {
  }

  lemma AppendedSnoc(rs: seq<Response>, r: Response)
    ensures AppendedBy([]) == Appended(None, None)
    ensures AppendedBy(rs + [r]) ==
            match r
            case Done(_, _, Some(AppendUid(validity, uids)), _) => Appended(Some(validity), Some(uids))
            case _ => AppendedBy(rs)
  {
    LastSnoc(CompletionAppendUid, rs, r);
  }

  method ParseAppend(p: Parser, input: bytes, unsolicited: Queue) returns (r: Res<Appended>)
    requires Completed(SplitAll(p, input))
    modifies unsolicited
    ensures var d := Demux(p, Claiming(AppendClaims), input);
            && unsolicited.items == old(unsolicited.items) + d.queued
            && r == if input == [] then Failure(Error.Parse(Invalid(input)))
                    else if d.error.Some? then Failure(d.error.value)
                    else Success(AppendedBy(d.kept))
  {
    var lines := input;
    var appended := Appended(None, None);
    ghost var seen: seq<Response> := [];
    ghost var route := Claiming(AppendClaims);
    ghost var d := Demux(p, route, input);
    AheadStart(d, unsolicited.items);
    ghost var total := Ahead([], unsolicited.items, d);
    hide Demux, Ahead, Claiming, Convert, SplitAll, AppendedBy, Completed, AppendClaims;
    AppendedSnoc([], Data(OK, None, None));
    while true
      invariant Completed(SplitAll(p, lines))
      invariant Ahead(seen, unsolicited.items, Demux(p, route, lines)) == total
      invariant appended == AppendedBy(seen)
      invariant lines == [] ==> input == []
      decreases |lines|
    {
      AheadEnd(p, route, lines, seen, unsolicited.items);
      match ParseResponse(p, lines) {
        case Complete(n, response) =>
          ClaimNext(p, AppendClaims, lines, seen, unsolicited.items);
          CompletedNext(p, lines);
          lines := lines[n..];
          AppendedSnoc(seen, response);
          ClaimsCompletion(response);
          if response.Done? {
            assert response.status == OK;  // the `assert_eq!`
            match response.code {
              case Some(AppendUid(validity, uids)) => appended := Appended(Some(validity), Some(uids));
              case _ =>
            }
            seen := seen + [response];
          } else {
            var unhandled := unsolicited.TryHandleUnilateral(response);
            if unhandled.Some? {
              return Failure(Unexpected(unhandled.value));
            }
          }
        case _ =>
          return Failure(Error.Parse(Invalid(lines)));
      }
      if lines == [] {
        AheadEnd(p, route, lines, seen, unsolicited.items);
        return Success(appended);
      }
    }
  }

  /** What APPEND reports is what the completion says, and nothing without it. */
  lemma AppendReports(p: Parser, input: bytes)
    requires Demux(p, Claiming(AppendClaims), input).error == None && Completed(SplitAll(p, input))
    ensures var a := AppendedBy(Demux(p, Claiming(AppendClaims), input).kept);
            var rs := ResponsesOf(p, input);
            && (forall validity: u32, uids :: a == Appended(Some(validity), Some(uids)) <==>
                  rs != [] && rs[|rs| - 1].Done? && rs[|rs| - 1].code == Some(AppendUid(validity, uids)))
            && (a == Appended(None, None) || (a.uidValidity.Some? && a.uids.Some?))
  {
    hide Demux;
    var rs := ResponsesOf(p, input);
    NothingRefused(p, AppendClaims, input);
    LastFilter(CompletionAppendUid, AppendClaims, rs);
    if rs != [] {
      var init := rs[..|rs| - 1];
      forall r | r in init
        ensures CompletionAppendUid(r) == None
      {
        var i :| 0 <= i < |init| && init[i] == r;
        assert rs[i] == r;
      }
      NoneIsLast(CompletionAppendUid, init);
    }
  }
}
