/**
 What a server reports comes back: each kind of report, rendered as responses and interleaved with
 whatever else may come unasked, is read as just that report.
 */
module Reports {
  import opened Wrappers
  import opened Text
  import opened Responses
  import opened Parsing
  import opened Folds
  import opened Demultiplexing
  import opened Results
  import opened Mailboxes
  import opened MetadataResponses
  import opened QuotaResponses
  import opened Sessions
  import Appending

  // ------------------------------------------------------------------ Kinds of reports

  predicate IsIdReport(r: Response) {
    r.MailboxData? && (r.datum.Search? || r.datum.Sort?)
  }

  predicate IsFetchReport(r: Response) {
    r.Fetch?
  }

  predicate IsMetadataReport(r: Response) {
    r.MailboxData? && r.datum.MetadataSolicited?
  }

  predicate IsQuotaReport(r: Response) {
    r.QuotaRoot? || r.Quota?
  }

  function IsStatusReport(name: bytes): Response -> bool {
    (r: Response) => r.MailboxData? && r.datum.StatusOf? && r.datum.mailbox == name
  }

  predicate IsSelectReport(r: Response) {
    !r.Expunge? && !(r.MailboxData? && r.datum.StatusOf?)
  }

  // ------------------------------------------------------------------ Splitting a reply

  /** A reply that holds the responses `reports`, of the kind `kind`, among others that convert. */
  ghost predicate Holds(p: Parser, input: bytes, kind: Response -> bool, reports: seq<Response>) {
    && Whole(p, input)
    && Filter(kind, ResponsesOf(p, input)) == reports
    && forall r: Response :: r in ResponsesOf(p, input) ==> kind(r) || Convertible(r)
  }

  lemma {:induction false} FilterSame<A(!new)>(f: A -> bool, g: A -> bool, xs: seq<A>)
    requires forall x :: f(x) == g(x)
    ensures Filter(f, xs) == Filter(g, xs)
  {
    if xs != [] {
      FilterSame(f, g, xs[1..]);
    }
  }

  /** A parser that claims just that kind keeps the reports, queues the rest and does not fail. */
  lemma KeepsReports(p: Parser, input: bytes, kind: Response -> bool, claims: Response -> bool, reports: seq<Response>)
    requires Holds(p, input, kind, reports) && forall r: Response :: kind(r) == claims(r)
    ensures var d := Demux(p, Claiming(claims), input);
            && d.error == None && d.kept == reports
            && Filter(claims, ResponsesOf(p, input)) == reports
            && d.queued == ConvertAll(Filter(Except(claims), ResponsesOf(p, input)))
  {
    hide Demux, SplitAll, Accepted, Kept, Spilled, Filter;
    var rs := ResponsesOf(p, input);
    var route := Claiming(claims);
    forall i | 0 <= i < |rs|
      ensures !route(rs[i]).Refused?
    {
      assert rs[i] in rs;
    }
    NoneRefused(route, rs);
    DemuxPartition(p, route, input);
    assert rs[..|rs|] == rs;
    KeptIsFilter(claims, rs);
    SpilledIsRest(claims, rs);
    FilterSame(kind, claims, rs);
  }

  lemma CollectOne<A, T>(pick: A -> seq<T>, x: A, xs: seq<A>)
    ensures Collect(pick, [x] + xs) == pick(x) + Collect(pick, xs)
  {
    CollectCons(pick, x, xs);
  }

  // ------------------------------------------------------------------ SEARCH and SORT

  datatype Found = BySearch(ids: seq<u32>) | BySort(ids: seq<u32>)

  function FoundResponses(found: seq<Found>): seq<Response> {
    if found == [] then []
    else
      [MailboxData(if found[0].BySearch? then Search(found[0].ids) else Sort(found[0].ids))]
      + FoundResponses(found[1..])
  }

  function FoundIds(found: seq<Found>): seq<u32> {
    if found == [] then [] else found[0].ids + FoundIds(found[1..])
  }

  lemma {:induction false} IdsOfFound(found: seq<Found>)
    ensures Collect(IdsIn, FoundResponses(found)) == FoundIds(found)
  {
    if found != [] {
      IdsOfFound(found[1..]);
      CollectOne(IdsIn, FoundResponses(found)[0], FoundResponses(found[1..]));
    }
  }

  /** All ids that SEARCH and SORT responses list, in order. */
  lemma SearchReadsBack(p: Parser, input: bytes, found: seq<Found>)
    requires Holds(p, input, IsIdReport, FoundResponses(found))
    ensures Demux(p, Claiming(IdsClaims), input).error == None
    ensures Collect(IdsIn, ResponsesOf(p, input)) == FoundIds(found)
  {
    KeepsReports(p, input, IsIdReport, IdsClaims, FoundResponses(found));
    IdsOfFound(found);
    CollectFilter(IdsIn, IdsClaims, ResponsesOf(p, input));
  }

  // ------------------------------------------------------------------ FETCH

  function FetchResponses(fetched: seq<Fetched>): seq<Response> {
    if fetched == [] then []
    else [Fetch(fetched[0].number, fetched[0].attributes)] + FetchResponses(fetched[1..])
  }

  lemma {:induction false} FetchesBack(fetched: seq<Fetched>)
    ensures Collect(FetchIn, FetchResponses(fetched)) == fetched
  {
    if fetched != [] {
      FetchesBack(fetched[1..]);
      CollectOne(FetchIn, FetchResponses(fetched)[0], FetchResponses(fetched[1..]));
      assert fetched == [fetched[0]] + fetched[1..];
    }
  }

  /** All messages that FETCH responses describe, in order and with all their attributes. */
  lemma FetchReadsBack(p: Parser, input: bytes, op: Op, fetched: seq<Fetched>)
    requires op.FetchMessages? && Holds(p, input, IsFetchReport, FetchResponses(fetched))
    ensures var d := Demux(p, RouteFor(op), input);
            d.error == None && Collect(FetchIn, d.kept) == fetched
  {
    KeepsReports(p, input, IsFetchReport, IsFetchReport, FetchResponses(fetched));
    SameRouteSameDemux(p, RouteFor(op), Claiming(IsFetchReport), input);
    FetchesBack(fetched);
  }

  // ------------------------------------------------------------------ METADATA

  datatype MetadataReport = MetadataReport(mailbox: bytes, values: seq<Metadata>)

  function MetadataResponsesOf(reports: seq<MetadataReport>): seq<Response> {
    if reports == [] then []
    else [MailboxData(MetadataSolicited(reports[0].mailbox, reports[0].values))] + MetadataResponsesOf(reports[1..])
  }

  function AllValues(reports: seq<MetadataReport>): seq<Metadata> {
    if reports == [] then [] else reports[0].values + AllValues(reports[1..])
  }

  lemma {:induction false} ValuesBack(reports: seq<MetadataReport>)
    ensures Collect(ValuesIn, MetadataResponsesOf(reports)) == AllValues(reports)
  {
    if reports != [] {
      ValuesBack(reports[1..]);
      CollectOne(ValuesIn, MetadataResponsesOf(reports)[0], MetadataResponsesOf(reports[1..]));
    }
  }

  /** All entries and values that METADATA responses list, in order. */
  lemma MetadataReadsBack(p: Parser, input: bytes, reports: seq<MetadataReport>)
    requires Holds(p, input, IsMetadataReport, MetadataResponsesOf(reports))
    ensures var d := Demux(p, Claiming(MetadataClaims), input);
            d.error == None && Collect(ValuesIn, d.kept) == AllValues(reports)
  {
    KeepsReports(p, input, IsMetadataReport, MetadataClaims, MetadataResponsesOf(reports));
    ValuesBack(reports);
  }

  /** What was held back is the size in the code of the completion. */
  lemma LongEntriesIff(done: Response, size: u64)
    ensures LongEntries(done) == Some(size) <==> done.Done? && done.code == Some(MetadataLongEntries(size))
  {
  }

  // ------------------------------------------------------------------ QUOTAROOT and QUOTA

  datatype QuotaReport = RootReport(root: QuotaRootData) | LimitReport(quota: QuotaData)

  function QuotaResponsesOf(reports: seq<QuotaReport>): seq<Response> {
    if reports == [] then []
    else
      [if reports[0].RootReport? then QuotaRoot(reports[0].root) else Quota(reports[0].quota)]
      + QuotaResponsesOf(reports[1..])
  }

  function RootsIn(reports: seq<QuotaReport>): seq<QuotaRootData> {
    if reports == [] then []
    else (if reports[0].RootReport? then [reports[0].root] else []) + RootsIn(reports[1..])
  }

  function LimitsIn(reports: seq<QuotaReport>): seq<QuotaData> {
    if reports == [] then []
    else (if reports[0].LimitReport? then [reports[0].quota] else []) + LimitsIn(reports[1..])
  }

  lemma {:induction false} QuotasBack(reports: seq<QuotaReport>)
    ensures Collect(RootIn, QuotaResponsesOf(reports)) == RootsIn(reports)
    ensures Collect(QuotaIn, QuotaResponsesOf(reports)) == LimitsIn(reports)
  {
    if reports != [] {
      QuotasBack(reports[1..]);
      CollectOne(RootIn, QuotaResponsesOf(reports)[0], QuotaResponsesOf(reports[1..]));
      CollectOne(QuotaIn, QuotaResponsesOf(reports)[0], QuotaResponsesOf(reports[1..]));
    }
  }

  /** All roots and all quotas, each in order, however they are mixed. */
  lemma QuotaReadsBack(p: Parser, input: bytes, op: Op, reports: seq<QuotaReport>)
    requires op.GetQuotaRoot? && Holds(p, input, IsQuotaReport, QuotaResponsesOf(reports))
    ensures var d := Demux(p, RouteFor(op), input);
            d.error == None && Collect(RootIn, d.kept) == RootsIn(reports) && Collect(QuotaIn, d.kept) == LimitsIn(reports)
  {
    KeepsReports(p, input, IsQuotaReport, IsQuotaReport, QuotaResponsesOf(reports));
    SameRouteSameDemux(p, RouteFor(op), Claiming(IsQuotaReport), input);
    QuotasBack(reports);
  }

  // ------------------------------------------------------------------ STATUS

  function Given<A>(o: Option<A>): seq<A> {
    match o
    case None => []
    case Some(a) => [a]
  }

  function UnseenItem(m: Mailbox): Option<StatusAttribute> {
    if m.unseen.Some? then Some(AttrUnseen(m.unseen.value)) else None
  }

  function UidNextItem(m: Mailbox): Option<StatusAttribute> {
    if m.uidNext.Some? then Some(AttrUidNext(m.uidNext.value)) else None
  }

  function UidValidityItem(m: Mailbox): Option<StatusAttribute> {
    if m.uidValidity.Some? then Some(AttrUidValidity(m.uidValidity.value)) else None
  }

  function ModSeqItem(m: Mailbox): Option<StatusAttribute> {
    if m.highestModSeq.Some? then Some(AttrHighestModSeq(m.highestModSeq.value)) else None
  }

  /** The attributes by which STATUS reports a mailbox. */
  function StatusItems(m: Mailbox): seq<StatusAttribute> {
    [AttrMessages(m.messages)] + [AttrRecent(m.recent)]
    + Given(UnseenItem(m)) + Given(UidNextItem(m)) + Given(UidValidityItem(m)) + Given(ModSeqItem(m))
  }

  /** A mailbox as far as STATUS can report it. */
  predicate IsStatusOnly(m: Mailbox) {
    m.flags == [] && m.permanentFlags == [] && !m.isReadOnly
  }

  lemma StatusReadsBack(m: Mailbox)
    requires IsStatusOnly(m)
    ensures MailboxOfItems(StatusItems(m)) == m
  {
    hide MailboxOfItems, Given;
    NoItemsGiven();
    var s1 := [AttrMessages(m.messages)];
    ItemsSnoc([], AttrMessages(m.messages));
    assert [] + [AttrMessages(m.messages)] == s1;
    var s2 := s1 + [AttrRecent(m.recent)];
    ItemsSnoc(s1, AttrRecent(m.recent));
    var s3 := s2 + Given(UnseenItem(m));
    OneItem(s2, UnseenItem(m));
    var s4 := s3 + Given(UidNextItem(m));
    OneItem(s3, UidNextItem(m));
    var s5 := s4 + Given(UidValidityItem(m));
    OneItem(s4, UidValidityItem(m));
    OneItem(s5, ModSeqItem(m));
  }

  lemma NoItemsGiven()
    ensures MailboxOfItems([]) == Mailbox([], 0, 0, None, [], None, None, None, false)
  {
  }

  lemma OneItem(s: seq<StatusAttribute>, o: Option<StatusAttribute>)
    ensures MailboxOfItems(s + Given(o)) ==
            if o.None? then MailboxOfItems(s)
            else
              var m := MailboxOfItems(s);
              match o.value
              case AttrHighestModSeq(v) => m.(highestModSeq := Some(v))
              case AttrMessages(v) => m.(messages := v)
              case AttrRecent(v) => m.(recent := v)
              case AttrUidNext(v) => m.(uidNext := Some(v))
              case AttrUidValidity(v) => m.(uidValidity := Some(v))
              case AttrUnseen(v) => m.(unseen := Some(v))
              case AttrOther(_) => m
  {
    hide MailboxOfItems;
    if o.Some? {
      ItemsSnoc(s, o.value);
    } else {
      assert s + [] == s;
    }
  }

  lemma OneStatus(name: bytes, items: seq<StatusAttribute>)
    ensures Collect(ItemsIn, [MailboxData(StatusOf(name, items))]) == items
  {
    var reports := [MailboxData(StatusOf(name, items))];
    assert reports[..0] == [] && [] + items == items;
  }

  /** The STATUS of the requested mailbox comes back, whatever other mailboxes are reported too. */
  lemma StatusReplyReadsBack(p: Parser, input: bytes, name: bytes, m: Mailbox)
    requires IsStatusOnly(m)
    requires Holds(p, input, IsStatusReport(name),
                   [MailboxData(StatusOf(name, StatusItems(m)))])
    ensures var d := Demux(p, Claiming(StatusClaims(name)), input);
            d.error == None && d.kept != [] && MailboxOfItems(Collect(ItemsIn, d.kept)) == m
  {
    hide Demux, SplitAll, StatusItems, MailboxOfItems;
    var reports := [MailboxData(StatusOf(name, StatusItems(m)))];
    KeepsReports(p, input, IsStatusReport(name), StatusClaims(name), reports);
    OneStatus(name, StatusItems(m));
    StatusReadsBack(m);
  }

  // ------------------------------------------------------------------ SELECT

  function UnseenReport(m: Mailbox): Option<Response> {
    if m.unseen.Some? then Some(Data(OK, Some(Unseen(m.unseen.value)), None)) else None
  }

  function UidNextReport(m: Mailbox): Option<Response> {
    if m.uidNext.Some? then Some(Data(OK, Some(UidNext(m.uidNext.value)), None)) else None
  }

  function UidValidityReport(m: Mailbox): Option<Response> {
    if m.uidValidity.Some? then Some(Data(OK, Some(UidValidity(m.uidValidity.value)), None)) else None
  }

  function ModSeqReport(m: Mailbox): Option<Response> {
    if m.highestModSeq.Some? then Some(Data(OK, Some(HighestModSeq(m.highestModSeq.value)), None)) else None
  }

  function ReadOnlyReport(m: Mailbox, tag: bytes): Response {
    Done(tag, OK, if m.isReadOnly then Some(ReadOnly) else None, None)
  }

  /** The responses by which SELECT reports a mailbox, the completion included. */
  function SelectResponses(m: Mailbox, tag: bytes): seq<Response> {
    [MailboxData(Flags(TextsOf(m.flags)))] + [MailboxData(Exists(m.messages))] + [MailboxData(Recent(m.recent))]
    + Given(UnseenReport(m)) + [Data(OK, Some(PermanentFlags(TextsOf(m.permanentFlags))), None)]
    + Given(UidNextReport(m)) + Given(UidValidityReport(m)) + Given(ModSeqReport(m)) + [ReadOnlyReport(m, tag)]
  }

  lemma SelectReadsBack(m: Mailbox, tag: bytes)
    requires AreReadFlags(m.flags) && AreReadFlags(m.permanentFlags)
    ensures MailboxBy(SelectResponses(m, tag)) == m
  {
    hide MailboxBy, FlagsOf, Given, TextsOf;
    FlagsReadBackIff(TextsOf(m.flags), m.flags);
    FlagsReadBackIff(TextsOf(m.permanentFlags), m.permanentFlags);
    NothingReported();
    var r1 := MailboxData(Flags(TextsOf(m.flags)));
    MailboxSnoc([], r1);
    var s1 := [r1];
    assert [] + [r1] == s1 && [] + m.flags == m.flags && [] + m.permanentFlags == m.permanentFlags;
    var s2 := s1 + [MailboxData(Exists(m.messages))];
    MailboxSnoc(s1, MailboxData(Exists(m.messages)));
    var s3 := s2 + [MailboxData(Recent(m.recent))];
    MailboxSnoc(s2, MailboxData(Recent(m.recent)));
    var s4 := s3 + Given(UnseenReport(m));
    OneReport(s3, UnseenReport(m));
    var s5 := s4 + [Data(OK, Some(PermanentFlags(TextsOf(m.permanentFlags))), None)];
    MailboxSnoc(s4, Data(OK, Some(PermanentFlags(TextsOf(m.permanentFlags))), None));
    LaterReports(m, tag, s5);
  }

  lemma LaterReports(m: Mailbox, tag: bytes, s: seq<Response>)
    requires MailboxBy(s) ==
             Mailbox(m.flags, m.messages, m.recent, m.unseen, m.permanentFlags, None, None, None, false)
    ensures MailboxBy(s + Given(UidNextReport(m)) + Given(UidValidityReport(m)) + Given(ModSeqReport(m))
                      + [ReadOnlyReport(m, tag)]) == m
  {
    hide MailboxBy, Given;
    var s1 := s + Given(UidNextReport(m));
    OneReport(s, UidNextReport(m));
    var s2 := s1 + Given(UidValidityReport(m));
    OneReport(s1, UidValidityReport(m));
    var s3 := s2 + Given(ModSeqReport(m));
    OneReport(s2, ModSeqReport(m));
    MailboxSnoc(s3, ReadOnlyReport(m, tag));
  }

  lemma NothingReported()
    ensures MailboxBy([]) == Mailbox([], 0, 0, None, [], None, None, None, false)
  {
  }

  lemma OneReport(s: seq<Response>, o: Option<Response>)
    requires o.Some? ==> o.value.Data? && o.value.code.Some?
    ensures MailboxBy(s + Given(o)) ==
            if o.None? then MailboxBy(s)
            else
              var m := MailboxBy(s);
              match o.value.code.value
              case HighestModSeq(n) => m.(highestModSeq := Some(n))
              case UidValidity(n) => m.(uidValidity := Some(n))
              case UidNext(n) => m.(uidNext := Some(n))
              case Unseen(n) => m.(unseen := Some(n))
              case PermanentFlags(flags) => m.(permanentFlags := m.permanentFlags + FlagsOf(flags))
              case _ => m
  {
    hide MailboxBy;
    if o.Some? {
      MailboxSnoc(s, o.value);
    } else {
      assert s + [] == s;
    }
  }

  /** SELECT gives the very mailbox that the server reports, with STATUS and EXPUNGE responses anywhere
      in between. */
  lemma SelectReplyReadsBack(p: Parser, input: bytes, m: Mailbox, tag: bytes)
    requires AreReadFlags(m.flags) && AreReadFlags(m.permanentFlags) && Whole(p, input)
    requires Filter(IsSelectReport, ResponsesOf(p, input)) == SelectResponses(m, tag)
    ensures var d := Demux(p, MailboxRoute, input);
            d.error == None && MailboxBy(d.kept) == m
  {
    hide Demux, SplitAll, Accepted, Kept, Spilled, MailboxBy, SelectResponses, Filter;
    var rs := ResponsesOf(p, input);
    forall i | 0 <= i < |rs|
      ensures !MailboxRoute(rs[i]).Refused?
    {
      if IsSelectReport(rs[i]) {
        Appending.FilterHas(IsSelectReport, rs);
        assert rs[i] in rs;
        ReportsAreTaken(m, tag, rs[i]);
      }
    }
    NoneRefused(MailboxRoute, rs);
    DemuxPartition(p, MailboxRoute, input);
    SelectReports(p, input);
    MailboxOfFiltered(rs);
    FilterSame(NotQueued, IsSelectReport, rs);
    SelectReadsBack(m, tag);
  }

  lemma ReportsAreTaken(m: Mailbox, tag: bytes, r: Response)
    requires r in SelectResponses(m, tag)
    ensures MailboxRoute(r).Claimed?
  {
  }
}
