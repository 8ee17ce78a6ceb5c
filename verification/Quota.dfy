/** The two-output and the zero-or-one instance of the demultiplexer (src/types/quota.rs). */
module QuotaResponses {
  import opened Wrappers
  import opened Text
  import opened Responses
  import opened Parsing
  import opened Folds
  import opened Demultiplexing

  datatype QuotaRootResponse = QuotaRootResponse(root: QuotaRootData, quotas: seq<QuotaData>)

  function QuotaRootMap(r: Response): Res<MapOrNot2<QuotaRootData, QuotaData>> {
    match r
    case QuotaRoot(root) => Success(Map1(root))
    case Quota(quota) => Success(Map2(quota))
    case _ => Success(Not(r))
  }

  function RootIn(r: Response): seq<QuotaRootData> {
    match r
    case QuotaRoot(root) => [root]
    case _ => []
  }

  function QuotaIn(r: Response): seq<QuotaData> {
    match r
    case Quota(quota) => [quota]
    case _ => []
  }

  method ParseQuotaRoot(p: Parser, input: bytes, unsolicited: Queue) returns (r: Res<QuotaRootResponse>)
    modifies unsolicited
    ensures var d := Demux(p, RouteOf2(QuotaRootMap), input);
            && unsolicited.items == old(unsolicited.items) + d.queued
            && (d.error.Some? ==> r == Failure(d.error.value))
            && (d.error.None? ==>
                  r == if |Firsts(d.kept)| == 1 then Success(QuotaRootResponse(Firsts(d.kept)[0], Seconds(d.kept)))
                       else Failure(Error.Parse(Invalid(input))))
  {
    var quotaRoots := new Collection<QuotaRootData>();
    var quotas := new Collection<QuotaData>();
    var parsed := ParseManyInto2(p, input, quotaRoots, quotas, unsolicited, QuotaRootMap);
    if parsed.Failure? {
      return Failure(parsed.error);
    }
    ghost var d := Demux(p, RouteOf2(QuotaRootMap), input);
    assert [] + Firsts(d.kept) == Firsts(d.kept) && [] + Seconds(d.kept) == Seconds(d.kept);
    if |quotaRoots.items| == 1 {
      r := Success(QuotaRootResponse(quotaRoots.items[0], quotas.items));
    } else {
      r := Failure(Error.Parse(Invalid(input)));
    }
  }

  lemma QuotaRootShare(r: Response)
    ensures var route := RouteOf2(QuotaRootMap)(r);
            && (route.Claimed? ==> route.c == Share(RootIn(r), QuotaIn(r)))
            && (route.Claimed? <==> r.QuotaRoot? || r.Quota?)
            && (!route.Claimed? ==> RootIn(r) == [] && QuotaIn(r) == [])
  {
    var m: Res<MapOrNot2<QuotaRootData, QuotaData>> := QuotaRootMap(r);
    assert RouteOf2(QuotaRootMap)(r) == RouteMapped(m);
    if r.QuotaRoot? {
      assert m == Success(Map1(r.root));
    } else if r.Quota? {
      assert m == Success(Map2(r.quota));
    } else {
      assert m == Success(Not(r));
      assert RouteMapped(m) == Unclaimed(r);
    }
  }

  lemma {:induction false} QuotaShares(rs: seq<Response>)
    ensures var kept := Kept(RouteOf2(QuotaRootMap), rs);
            && Firsts(kept) == Collect(RootIn, rs) && Seconds(kept) == Collect(QuotaIn, rs)
            && |Firsts(kept)| + |Seconds(kept)| == |kept|
  {
    if rs != [] {
      var route := RouteOf2(QuotaRootMap)(rs[0]);
      var rest := Kept(RouteOf2(QuotaRootMap), rs[1..]);
      QuotaShares(rs[1..]);
      assert [rs[0]] + rs[1..] == rs;
      CollectCons(RootIn, rs[0], rs[1..]);
      CollectCons(QuotaIn, rs[0], rs[1..]);
      QuotaRootShare(rs[0]);
      if route.Claimed? {
        assert ([route.c] + rest)[1..] == rest;
      }
    }
  }

  /** Without a failure the two outputs are all the roots and all the quotas of the reply, in order,
      and every other response is in the queue. */
  lemma QuotaRootReports(p: Parser, input: bytes)
    requires Demux(p, RouteOf2(QuotaRootMap), input).error == None
    ensures var d := Demux(p, RouteOf2(QuotaRootMap), input);
            var rs := ResponsesOf(p, input);
            && Whole(p, input)
            && Firsts(d.kept) == Collect(RootIn, rs)
            && Seconds(d.kept) == Collect(QuotaIn, rs)
            && |Firsts(d.kept)| + |Seconds(d.kept)| + |d.queued| == |rs|
  {
    var rs := ResponsesOf(p, input);
    DemuxPartition(p, RouteOf2(QuotaRootMap), input);
    assert Accepted(RouteOf2(QuotaRootMap), rs) == |rs|;
    assert rs[..|rs|] == rs;
    QuotaShares(rs);
  }

  function QuotaMap(r: Response): Res<MapOrNot<QuotaData>> {
    match r
    case Quota(quota) => Success(Map(quota))
    case _ => Success(NotThis(r))
  }

  /** At most one quota. */
  method ParseQuota(p: Parser, input: bytes, unsolicited: Queue) returns (r: Res<Option<QuotaData>>)
    modifies unsolicited
    ensures r == OnlyOne(Demux(p, RouteOf(QuotaMap), input), true, input)
    ensures unsolicited.items == old(unsolicited.items) + Demux(p, RouteOf(QuotaMap), input).queued
  {
    r := ParseUntilDoneInternal(p, input, true, unsolicited, QuotaMap);
  }

  lemma QuotaShare(r: Response)
    ensures var route := RouteOf(QuotaMap)(r);
            && (route.Claimed? ==> route.c.first == QuotaIn(r))
            && (!route.Claimed? ==> QuotaIn(r) == [])
  {
    var m: Res<MapOrNot2<QuotaData, ()>> := WidenOne(QuotaMap(r));
    assert RouteOf(QuotaMap)(r) == RouteMapped(m);
    if r.Quota? {
      assert m == Success(Map1(r.quota));
    } else {
      assert m == Success(Not(r));
      assert RouteMapped(m) == Unclaimed(r);
    }
  }

  lemma {:induction false} QuotaFound(rs: seq<Response>)
    ensures Firsts(Kept(RouteOf(QuotaMap), rs)) == Collect(QuotaIn, rs)
  {
    if rs != [] {
      QuotaFound(rs[1..]);
      assert [rs[0]] + rs[1..] == rs;
      CollectCons(QuotaIn, rs[0], rs[1..]);
      var route := RouteOf(QuotaMap)(rs[0]);
      QuotaShare(rs[0]);
      var rest := Kept(RouteOf(QuotaMap), rs[1..]);
      if route.Claimed? {
        assert ([route.c] + rest)[1..] == rest;
      }
    }
  }

  /** Without a failure of a response, the result is the only quota of the reply, none if there is
      none, and a parse error if there are several. */
  lemma QuotaReports(p: Parser, input: bytes)
    requires Demux(p, RouteOf(QuotaMap), input).error == None
    ensures var quotas := Collect(QuotaIn, ResponsesOf(p, input));
            OnlyOne(Demux(p, RouteOf(QuotaMap), input), true, input) ==
            if |quotas| == 0 then Success(None)
            else if |quotas| == 1 then Success(Some(quotas[0]))
            else Failure(Error.Parse(Invalid(input)))
  {
    var rs := ResponsesOf(p, input);
    DemuxPartition(p, RouteOf(QuotaMap), input);
    assert Accepted(RouteOf(QuotaMap), rs) == |rs|;
    assert rs[..|rs|] == rs;
    QuotaFound(rs);
  }
}
