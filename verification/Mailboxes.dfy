/** The parsers behind SELECT, STATUS, SEARCH and SORT (src/parse.rs). */
module Mailboxes {
  import opened Wrappers
  import opened Text
  import opened Responses
  import opened Parsing
  import opened Folds
  import opened Demultiplexing
  import opened Results

  datatype Mailbox = Mailbox(
    flags: seq<Flag>,
    messages: u32,
    recent: u32,
    unseen: Option<u32>,
    permanentFlags: seq<Flag>,
    uidNext: Option<u32>,
    uidValidity: Option<u32>,
    highestModSeq: Option<u64>,
    isReadOnly: bool)

  const EMPTY_MAILBOX := Mailbox([], 0, 0, None, [], None, None, None, false)

  // ------------------------------------------------------------------ SELECT

  /** `parse_mailbox` takes everything it knows, queues STATUS and EXPUNGE, and refuses the rest;
      an untagged NO, BAD, BYE or PREAUTH runs into its `unreachable!()`. */
  function MailboxRoute(r: Response): Route<Response> {
    match r
    case Done(_, _, _, _) => Claimed(r)
    case Data(status, _, _) => if status == OK then Claimed(r) else Refused(Panic)
    case MailboxData(StatusOf(mailbox, items)) => Queued(UStatus(mailbox, items))
    case MailboxData(_) => Claimed(r)
    case Expunge(n) => Queued(UExpunge(n))
    case _ => Refused(Unexpected(r))
  }

  function FlagsIn(r: Response): seq<Flag> {
    match r
    case MailboxData(Flags(flags)) => FlagsOf(flags)
    case _ => []
  }

  function PermanentFlagsIn(r: Response): seq<Flag> {
    match r
    case Data(_, Some(PermanentFlags(flags)), _) => FlagsOf(flags)
    case _ => []
  }

  function ExistsIn(r: Response): Option<u32> {
    match r
    case MailboxData(Exists(n)) => Some(n)
    case _ => None
  }

  function RecentIn(r: Response): Option<u32> {
    match r
    case MailboxData(Recent(n)) => Some(n)
    case _ => None
  }

  function UnseenIn(r: Response): Option<u32> {
    match r
    case Data(_, Some(Unseen(n)), _) => Some(n)
    case _ => None
  }

  function UidNextIn(r: Response): Option<u32> {
    match r
    case Data(_, Some(UidNext(n)), _) => Some(n)
    case _ => None
  }

  function UidValidityIn(r: Response): Option<u32> {
    match r
    case Data(_, Some(UidValidity(n)), _) => Some(n)
    case _ => None
  }

  function ModSeqIn(r: Response): Option<u64> {
    match r
    case Data(_, Some(HighestModSeq(n)), _) => Some(n)
    case _ => None
  }

  function ReadOnlyIn(r: Response): Option<bool> {
    match r
    case Done(_, _, Some(ReadOnly), _) => Some(true)
    case _ => None
  }

  /** Scalars are the last value reported, flag lists the concatenation of all reported. */
  function MailboxBy(rs: seq<Response>): Mailbox {
    Mailbox(
      Collect(FlagsIn, rs),
      OrElse(Last(ExistsIn, rs), 0),
      OrElse(Last(RecentIn, rs), 0),
      Last(UnseenIn, rs),
      Collect(PermanentFlagsIn, rs),
      Last(UidNextIn, rs),
      Last(UidValidityIn, rs),
      Last(ModSeqIn, rs),
      OrElse(Last(ReadOnlyIn, rs), false))
  }

  lemma MailboxSnoc(rs: seq<Response>, r: Response)
    ensures MailboxBy(rs + [r]) ==
            var m := MailboxBy(rs);
            match r
            case Done(_, _, Some(ReadOnly), _) => m.(isReadOnly := true)
            case Data(_, Some(HighestModSeq(n)), _) => m.(highestModSeq := Some(n))
            case Data(_, Some(UidValidity(n)), _) => m.(uidValidity := Some(n))
            case Data(_, Some(UidNext(n)), _) => m.(uidNext := Some(n))
            case Data(_, Some(Unseen(n)), _) => m.(unseen := Some(n))
            case Data(_, Some(PermanentFlags(flags)), _) =>
              m.(permanentFlags := m.permanentFlags + FlagsOf(flags))
            case MailboxData(Exists(n)) => m.(messages := n)
            case MailboxData(Recent(n)) => m.(recent := n)
            case MailboxData(Flags(flags)) => m.(flags := m.flags + FlagsOf(flags))
            case _ => m
  {
    hide Collect, Last, FlagsOf;
    CollectSnoc(FlagsIn, rs, r);
    LastSnoc(ExistsIn, rs, r);
    LastSnoc(RecentIn, rs, r);
    LastSnoc(UnseenIn, rs, r);
    CollectSnoc(PermanentFlagsIn, rs, r);
    LastSnoc(UidNextIn, rs, r);
    LastSnoc(UidValidityIn, rs, r);
    LastSnoc(ModSeqIn, rs, r);
    LastSnoc(ReadOnlyIn, rs, r);
  }

  lemma MailboxNext(p: Parser, lines: bytes, seen: seq<Response>, queued: seq<UnsolicitedResponse>)
    requires lines != [] && ParseResponse(p, lines).Complete?
    ensures var Complete(n, r) := ParseResponse(p, lines);
            var d := Demux(p, MailboxRoute, lines[n..]);
            Ahead(seen, queued, Demux(p, MailboxRoute, lines)) ==
            match MailboxRoute(r)
            case Claimed(_) => Ahead(seen + [r], queued, d)
            case Queued(u) => Ahead(seen, queued + [u], d)
            case Refused(e) => Demuxed(seen, queued, Some(e))
  {
    AheadNext(p, MailboxRoute, lines, seen, queued);
  }

  method ParseMailbox(p: Parser, input: bytes, unsolicited: Queue) returns (r: Res<Mailbox>)
    requires Completed(SplitAll(p, input))
    modifies unsolicited
    ensures var d := Demux(p, MailboxRoute, input);
            && unsolicited.items == old(unsolicited.items) + d.queued
            && r == if input == [] then Failure(Error.Parse(Invalid(input)))
                    else if d.error.Some? then Failure(d.error.value)
                    else Success(MailboxBy(d.kept))
  {
    var lines := input;
    var mailbox := EMPTY_MAILBOX;
    ghost var seen: seq<Response> := [];
    ghost var d := Demux(p, MailboxRoute, input);
    AheadStart(d, unsolicited.items);
    ghost var total := Ahead([], unsolicited.items, d);
    hide Demux, Ahead, SplitAll, Convert;
    assert mailbox == MailboxBy(seen);
    hide MailboxBy;
    while true
      invariant Completed(SplitAll(p, lines))
      invariant Ahead(seen, unsolicited.items, Demux(p, MailboxRoute, lines)) == total
      invariant mailbox == MailboxBy(seen)
      invariant lines == [] ==> input == []
      decreases |lines|
    {
      AheadEnd(p, MailboxRoute, lines, seen, unsolicited.items);
      match ParseResponse(p, lines) {
        case Complete(n, response) =>
          MailboxNext(p, lines, seen, unsolicited.items);
          CompletedNext(p, lines);
          MailboxSnoc(seen, response);
          var rest := lines[n..];
          match response {
            case Done(_, status, code, _) =>
              assert rest == [];  // the `assert!`
              lines := rest;
              assert status == OK;  // the `assert_eq!`
              match code {
                case Some(ReadOnly) => mailbox := mailbox.(isReadOnly := true);
                case _ =>
              }
              seen := seen + [response];
            case Data(status, code, _) =>
              lines := rest;
              if status != OK {
                return Failure(Panic);
              }
              match code {
                case Some(HighestModSeq(v)) => mailbox := mailbox.(highestModSeq := Some(v));
                case Some(UidValidity(v)) => mailbox := mailbox.(uidValidity := Some(v));
                case Some(UidNext(v)) => mailbox := mailbox.(uidNext := Some(v));
                case Some(Unseen(v)) => mailbox := mailbox.(unseen := Some(v));
                case Some(PermanentFlags(flags)) =>
                  mailbox := mailbox.(permanentFlags := mailbox.permanentFlags + FlagsOf(flags));
                case _ =>
              }
              seen := seen + [response];
            case MailboxData(datum) =>
              lines := rest;
              match datum {
                case StatusOf(name, items) => unsolicited.PushBack(UStatus(name, items));
                case Exists(v) =>
                  mailbox := mailbox.(messages := v);
                  seen := seen + [response];
                case Recent(v) =>
                  mailbox := mailbox.(recent := v);
                  seen := seen + [response];
                case Flags(flags) =>
                  mailbox := mailbox.(flags := mailbox.flags + FlagsOf(flags));
                  seen := seen + [response];
                case _ =>
                  seen := seen + [response];
              }
            case Expunge(number) =>
              lines := rest;
              unsolicited.PushBack(UExpunge(number));
            case other =>
              return Failure(Unexpected(other));
          }
        case _ =>
          return Failure(Error.Parse(Invalid(lines)));
      }
      if lines == [] {
        AheadEnd(p, MailboxRoute, lines, seen, unsolicited.items);
        return Success(mailbox);
      }
    }
  }

  predicate NotQueued(r: Response) {
    !MailboxRoute(r).Queued?
  }

  lemma {:induction false} KeptByMailbox(rs: seq<Response>)
    requires Accepted(MailboxRoute, rs) == |rs|
    ensures Kept(MailboxRoute, rs) == Filter(NotQueued, rs)
  {
    if rs != [] {
      AcceptedNext(MailboxRoute, rs);
      RouteKept(rs[0]);
      hide MailboxRoute, Accepted;
      KeptByMailbox(rs[1..]);
    }
  }

  lemma AcceptedNext<C>(route: Response -> Route<C>, rs: seq<Response>)
    requires rs != [] && Accepted(route, rs) == |rs|
    ensures !route(rs[0]).Refused? && Accepted(route, rs[1..]) == |rs[1..]|
  {
  }

  lemma RouteKept(r: Response)
    requires !MailboxRoute(r).Refused?
    ensures if NotQueued(r) then MailboxRoute(r) == Claimed(r) else MailboxRoute(r).Queued?
  {
  }

  lemma QueuedReportsNothing(r: Response)
    requires !NotQueued(r)
    ensures FlagsIn(r) == [] && PermanentFlagsIn(r) == []
    ensures ExistsIn(r) == None && RecentIn(r) == None && UnseenIn(r) == None && UidNextIn(r) == None
    ensures UidValidityIn(r) == None && ModSeqIn(r) == None && ReadOnlyIn(r) == None
  {
  }

  /** What is queued makes no difference to the mailbox. */
  lemma MailboxOfFiltered(rs: seq<Response>)
    ensures MailboxBy(Filter(NotQueued, rs)) == MailboxBy(rs)
  {
    hide NotQueued, FlagsIn, PermanentFlagsIn, ExistsIn, RecentIn, UnseenIn, UidNextIn, UidValidityIn, ModSeqIn,
         ReadOnlyIn, Collect, Last, Filter;
    forall r | !NotQueued(r)
      ensures FlagsIn(r) == [] && PermanentFlagsIn(r) == []
      ensures ExistsIn(r) == None && RecentIn(r) == None && UnseenIn(r) == None && UidNextIn(r) == None
      ensures UidValidityIn(r) == None && ModSeqIn(r) == None && ReadOnlyIn(r) == None
    {
      QueuedReportsNothing(r);
    }
    CollectFilter(FlagsIn, NotQueued, rs);
    LastFilter(ExistsIn, NotQueued, rs);
    LastFilter(RecentIn, NotQueued, rs);
    LastFilter(UnseenIn, NotQueued, rs);
    CollectFilter(PermanentFlagsIn, NotQueued, rs);
    LastFilter(UidNextIn, NotQueued, rs);
    LastFilter(UidValidityIn, NotQueued, rs);
    LastFilter(ModSeqIn, NotQueued, rs);
    LastFilter(ReadOnlyIn, NotQueued, rs);
  }

  /** A successful SELECT reports on all the responses of the reply. */
  lemma SelectReports(p: Parser, input: bytes)
    requires Demux(p, MailboxRoute, input).error == None
    ensures Whole(p, input)
    ensures MailboxBy(Demux(p, MailboxRoute, input).kept) == MailboxBy(ResponsesOf(p, input))
  {
    hide MailboxBy, MailboxRoute, Demux, Kept, Spilled, Accepted, SplitAll;
    var rs := ResponsesOf(p, input);
    DemuxPartition(p, MailboxRoute, input);
    assert Accepted(MailboxRoute, rs) == |rs|;
    assert rs[..|rs|] == rs;
    KeptByMailbox(rs);
    MailboxOfFiltered(rs);
  }

  /** Each scalar of a successful SELECT is that of the last response of the reply that reports it;
      the counts are 0, and the mailbox is writable, if none does. */
  lemma SelectedIsLast(p: Parser, input: bytes)
    requires Demux(p, MailboxRoute, input).error == None
    ensures var m := MailboxBy(Demux(p, MailboxRoute, input).kept);
            var rs := ResponsesOf(p, input);
            && (IsLast(ExistsIn, rs, Some(m.messages)) || (IsLast(ExistsIn, rs, None) && m.messages == 0))
            && (IsLast(RecentIn, rs, Some(m.recent)) || (IsLast(RecentIn, rs, None) && m.recent == 0))
            && (IsLast(ReadOnlyIn, rs, Some(m.isReadOnly)) || (IsLast(ReadOnlyIn, rs, None) && !m.isReadOnly))
            && IsLast(UnseenIn, rs, m.unseen) && IsLast(UidNextIn, rs, m.uidNext)
            && IsLast(UidValidityIn, rs, m.uidValidity) && IsLast(ModSeqIn, rs, m.highestModSeq)
  {
    hide IsLast, Last, Demux, SplitAll;
    var rs := ResponsesOf(p, input);
    SelectReports(p, input);
    LastIs(ExistsIn, rs);
    LastIs(RecentIn, rs);
    LastIs(ReadOnlyIn, rs);
    LastIs(UnseenIn, rs);
    LastIs(UidNextIn, rs);
    LastIs(UidValidityIn, rs);
    LastIs(ModSeqIn, rs);
  }

  predicate UntaggedFailure(r: Response) {
    r.Data? && r.status != OK
  }

  /** SELECT panics exactly if the first response it cannot take is an untagged NO, BAD, BYE or PREAUTH. */
  lemma SelectPanicsIff(p: Parser, input: bytes)
    ensures var rs := ResponsesOf(p, input);
            var k := Accepted(MailboxRoute, rs);
            Demux(p, MailboxRoute, input).error == Some(Panic) <==> k < |rs| && UntaggedFailure(rs[k])
  {
    hide Demux, Kept, Spilled, SplitAll;
    DemuxPartition(p, MailboxRoute, input);
  }

  // ------------------------------------------------------------------ STATUS attributes

  function ItemModSeq(a: StatusAttribute): Option<u64> {
    if a.AttrHighestModSeq? then Some(a.modSeq) else None
  }

  function ItemMessages(a: StatusAttribute): Option<u32> {
    if a.AttrMessages? then Some(a.count) else None
  }

  function ItemRecent(a: StatusAttribute): Option<u32> {
    if a.AttrRecent? then Some(a.count) else None
  }

  function ItemUidNext(a: StatusAttribute): Option<u32> {
    if a.AttrUidNext? then Some(a.count) else None
  }

  function ItemUidValidity(a: StatusAttribute): Option<u32> {
    if a.AttrUidValidity? then Some(a.count) else None
  }

  function ItemUnseen(a: StatusAttribute): Option<u32> {
    if a.AttrUnseen? then Some(a.count) else None
  }

  /** Each field is the last attribute of its kind. */
  function MailboxOfItems(items: seq<StatusAttribute>): Mailbox {
    Mailbox(
      [],
      OrElse(Last(ItemMessages, items), 0),
      OrElse(Last(ItemRecent, items), 0),
      Last(ItemUnseen, items),
      [],
      Last(ItemUidNext, items),
      Last(ItemUidValidity, items),
      Last(ItemModSeq, items),
      false)
  }

  lemma ItemsSnoc(items: seq<StatusAttribute>, a: StatusAttribute)
    ensures MailboxOfItems(items + [a]) ==
            var m := MailboxOfItems(items);
            match a
            case AttrHighestModSeq(v) => m.(highestModSeq := Some(v))
            case AttrMessages(v) => m.(messages := v)
            case AttrRecent(v) => m.(recent := v)
            case AttrUidNext(v) => m.(uidNext := Some(v))
            case AttrUidValidity(v) => m.(uidValidity := Some(v))
            case AttrUnseen(v) => m.(unseen := Some(v))
            case AttrOther(_) => m
  {
    hide Last;
    LastSnoc(ItemMessages, items, a);
    LastSnoc(ItemRecent, items, a);
    LastSnoc(ItemUnseen, items, a);
    LastSnoc(ItemUidNext, items, a);
    LastSnoc(ItemUidValidity, items, a);
    LastSnoc(ItemModSeq, items, a);
  }

  /** Each field is that of the last attribute of its kind; the counts are 0 if there is none. */
  lemma AttributesAreLast(items: seq<StatusAttribute>)
    ensures var m := MailboxOfItems(items);
            && (IsLast(ItemMessages, items, Some(m.messages)) || (IsLast(ItemMessages, items, None) && m.messages == 0))
            && (IsLast(ItemRecent, items, Some(m.recent)) || (IsLast(ItemRecent, items, None) && m.recent == 0))
            && IsLast(ItemUnseen, items, m.unseen) && IsLast(ItemUidNext, items, m.uidNext)
            && IsLast(ItemUidValidity, items, m.uidValidity) && IsLast(ItemModSeq, items, m.highestModSeq)
  {
    hide IsLast, Last;
    LastIs(ItemMessages, items);
    LastIs(ItemRecent, items);
    LastIs(ItemUnseen, items);
    LastIs(ItemUidNext, items);
    LastIs(ItemUidValidity, items);
    LastIs(ItemModSeq, items);
  }

  /** The inner loop of `parse_status` and of the LIST-STATUS parser. */
  method ReadAttributes(start: Mailbox, items: seq<StatusAttribute>, ghost before: seq<StatusAttribute>)
    returns (mailbox: Mailbox)
    requires start == MailboxOfItems(before)
    ensures mailbox == MailboxOfItems(before + items)
  {
    mailbox := start;
    assert before + items[..0] == before;
    hide MailboxOfItems;
    for i := 0 to |items|
      invariant mailbox == MailboxOfItems(before + items[..i])
    {
      ItemsSnoc(before + items[..i], items[i]);
      assert before + items[..i + 1] == (before + items[..i]) + [items[i]];
      match items[i] {
        case AttrHighestModSeq(v) => mailbox := mailbox.(highestModSeq := Some(v));
        case AttrMessages(v) => mailbox := mailbox.(messages := v);
        case AttrRecent(v) => mailbox := mailbox.(recent := v);
        case AttrUidNext(v) => mailbox := mailbox.(uidNext := Some(v));
        case AttrUidValidity(v) => mailbox := mailbox.(uidValidity := Some(v));
        case AttrUnseen(v) => mailbox := mailbox.(unseen := Some(v));
        case AttrOther(_) =>
      }
    }
    assert items[..|items|] == items;
  }

  // ------------------------------------------------------------------ STATUS

  predicate IsStatusOf(r: Response, name: bytes) {
    r.MailboxData? && r.datum.StatusOf? && r.datum.mailbox == name
  }

  function StatusClaims(name: bytes): Response -> bool {
    r => IsStatusOf(r, name)
  }

  function ItemsIn(r: Response): seq<StatusAttribute> {
    match r
    case MailboxData(StatusOf(_, items)) => items
    case _ => []
  }

  method ParseStatus(p: Parser, input: bytes, name: bytes, unsolicited: Queue) returns (r: Res<Mailbox>)
    modifies unsolicited
    ensures var d := Demux(p, Claiming(StatusClaims(name)), input);
            && unsolicited.items == old(unsolicited.items) + d.queued
            && r == if d.error.Some? then Failure(d.error.value)
                    else if d.kept == [] then Failure(MissingStatusResponse)
                    else Success(MailboxOfItems(Collect(ItemsIn, d.kept)))
  {
    var lines := input;
    var mailbox := EMPTY_MAILBOX;
    var gotAnything := false;
    ghost var seen: seq<Response> := [];
    ghost var claims := StatusClaims(name);
    ghost var route := Claiming(claims);
    ghost var d := Demux(p, route, input);
    AheadStart(d, unsolicited.items);
    ghost var total := Ahead([], unsolicited.items, d);
    assert mailbox == MailboxOfItems([]);
    hide Demux, Ahead, Claiming, Convert, MailboxOfItems;
    while lines != []
      invariant Ahead(seen, unsolicited.items, Demux(p, route, lines)) == total
      invariant mailbox == MailboxOfItems(Collect(ItemsIn, seen))
      invariant gotAnything <==> seen != []
      decreases |lines|
    {
      AheadEnd(p, route, lines, seen, unsolicited.items);
      match ParseResponse(p, lines) {
        case Complete(n, data) =>
          ClaimNext(p, claims, lines, seen, unsolicited.items);
          CollectSnoc(ItemsIn, seen, data);
          assert claims(data) == IsStatusOf(data, name);
          lines := lines[n..];
          if IsStatusOf(data, name) {
            gotAnything := true;
            mailbox := ReadAttributes(mailbox, data.datum.items, Collect(ItemsIn, seen));
            seen := seen + [data];
          } else {
            var unhandled := unsolicited.TryHandleUnilateral(data);
            if unhandled.Some? {
              return Failure(Unexpected(unhandled.value));
            }
          }
        case _ =>
          return Failure(Error.Parse(Invalid(lines)));
      }
    }
    AheadEnd(p, route, lines, seen, unsolicited.items);
    if !gotAnything {
      return Failure(MissingStatusResponse);
    }
    r := Success(mailbox);
  }

  /** Only the attributes of the requested mailbox are used, the STATUS of other mailboxes is
      queued, and without another failure the response is missing exactly if none matched. */
  lemma StatusReports(p: Parser, input: bytes, name: bytes)
    requires Demux(p, Claiming(StatusClaims(name)), input).error == None
    ensures var d := Demux(p, Claiming(StatusClaims(name)), input);
            && Whole(p, input)
            && d.kept == Filter(StatusClaims(name), ResponsesOf(p, input))
            && (d.kept == [] <==> forall r :: r in ResponsesOf(p, input) ==> !IsStatusOf(r, name))
  {
    NothingRefused(p, StatusClaims(name), input);
    FilterEmpty(StatusClaims(name), ResponsesOf(p, input));
  }

  lemma OtherStatusQueued(p: Parser, input: bytes, name: bytes, other: bytes, items: seq<StatusAttribute>)
    requires Demux(p, Claiming(StatusClaims(name)), input).error == None
    requires MailboxData(StatusOf(other, items)) in ResponsesOf(p, input) && other != name
    ensures UStatus(other, items) in Demux(p, Claiming(StatusClaims(name)), input).queued
  {
    hide Demux, SplitAll, Accepted, Kept, Spilled;
    var rs := ResponsesOf(p, input);
    var route := Claiming(StatusClaims(name));
    DemuxPartition(p, route, input);
    assert Accepted(route, rs) == |rs|;
    assert rs[..|rs|] == rs;
    var r := MailboxData(StatusOf(other, items));
    assert route(r) == Queued(UStatus(other, items));
    SpilledHas(route, rs, r);
  }

  lemma {:induction false} FilterEmpty<A>(keep: A -> bool, xs: seq<A>)
    ensures Filter(keep, xs) == [] <==> forall x :: x in xs ==> !keep(x)
  {
    if xs != [] {
      FilterEmpty(keep, xs[1..]);
    }
  }

  lemma {:induction false} SpilledHas<C>(route: Response -> Route<C>, rs: seq<Response>, r: Response)
    requires r in rs && route(r).Queued?
    ensures route(r).u in Spilled(route, rs)
  {
    if rs[0] != r {
      SpilledHas(route, rs[1..], r);
    }
  }

  // ------------------------------------------------------------------ SEARCH and SORT

  predicate IdsClaims(r: Response) {
    r.MailboxData? && (r.datum.Search? || r.datum.Sort?)
  }

  function IdsIn(r: Response): seq<u32> {
    match r
    case MailboxData(Search(ids)) => ids
    case MailboxData(Sort(ids)) => ids
    case _ => []
  }

  /** A collection as it is after it has been extended by each list in turn. */
  function ExtendAll<C>(extend: (C, seq<u32>) -> C, c: C, rs: seq<Response>): C {
    if rs == [] then c else extend(ExtendAll(extend, c, rs[..|rs| - 1]), IdsIn(rs[|rs| - 1]))
  }

  method ParseIdsWith<C>(p: Parser, input: bytes, unsolicited: Queue, collection: C,
                         extend: (C, seq<u32>) -> C)
    returns (r: Res<C>)
    modifies unsolicited
    ensures var d := Demux(p, Claiming(IdsClaims), input);
            && unsolicited.items == old(unsolicited.items) + d.queued
            && r == if d.error.Some? then Failure(d.error.value)
                    else Success(ExtendAll(extend, collection, d.kept))
  {
    var lines := input;
    var grown := collection;
    ghost var seen: seq<Response> := [];
    ghost var route := Claiming(IdsClaims);
    ghost var d := Demux(p, route, input);
    AheadStart(d, unsolicited.items);
    ghost var total := Ahead([], unsolicited.items, d);
    hide Demux, Ahead, Claiming, Convert;
    while true
      invariant Ahead(seen, unsolicited.items, Demux(p, route, lines)) == total
      invariant grown == ExtendAll(extend, collection, seen)
      decreases |lines|
    {
      AheadEnd(p, route, lines, seen, unsolicited.items);
      if lines == [] {
        return Success(grown);
      }
      match ParseResponse(p, lines) {
        case Complete(n, data) =>
          ClaimNext(p, IdsClaims, lines, seen, unsolicited.items);
          assert (seen + [data])[..|seen|] == seen;
          lines := lines[n..];
          if data.MailboxData? && data.datum.Search? {
            grown := extend(grown, data.datum.ids);
            seen := seen + [data];
          } else if data.MailboxData? && data.datum.Sort? {
            grown := extend(grown, data.datum.ids);
            seen := seen + [data];
          } else {
            var unhandled := unsolicited.TryHandleUnilateral(data);
            if unhandled.Some? {
              return Failure(Unexpected(unhandled.value));
            }
          }
        case _ =>
          return Failure(Error.Parse(Invalid(lines)));
      }
    }
  }

  function ExtendSeq(c: seq<u32>, ids: seq<u32>): seq<u32> {
    c + ids
  }

  function ExtendSet(c: set<u32>, ids: seq<u32>): set<u32> {
    c + set i | i in ids
  }

  method ParseIdSeq(p: Parser, input: bytes, unsolicited: Queue) returns (r: Res<seq<u32>>)
    modifies unsolicited
    ensures var d := Demux(p, Claiming(IdsClaims), input);
            && unsolicited.items == old(unsolicited.items) + d.queued
            && r == if d.error.Some? then Failure(d.error.value)
                    else Success(Collect(IdsIn, ResponsesOf(p, input)))
  {
    r := ParseIdsWith(p, input, unsolicited, [], ExtendSeq);
    if r.Success? {
      IdsReported(p, input);
    }
  }

  /** The elements of `ParseIdSeq`'s result, with the same queue and the same failures. */
  method ParseIdSet(p: Parser, input: bytes, unsolicited: Queue) returns (r: Res<set<u32>>)
    modifies unsolicited
    ensures var d := Demux(p, Claiming(IdsClaims), input);
            && unsolicited.items == old(unsolicited.items) + d.queued
            && r == if d.error.Some? then Failure(d.error.value)
                    else Success(set id | id in Collect(IdsIn, ResponsesOf(p, input)))
  {
    r := ParseIdsWith(p, input, unsolicited, {}, ExtendSet);
    if r.Success? {
      IdsReported(p, input);
    }
  }

  lemma IdsReported(p: Parser, input: bytes)
    requires Demux(p, Claiming(IdsClaims), input).error == None
    ensures var kept := Demux(p, Claiming(IdsClaims), input).kept;
            var ids := Collect(IdsIn, ResponsesOf(p, input));
            && ExtendAll(ExtendSeq, [], kept) == ids
            && ExtendAll(ExtendSet, {}, kept) == set id | id in ids
  {
    NothingRefused(p, IdsClaims, input);
    CollectFilter(IdsIn, IdsClaims, ResponsesOf(p, input));
    ExtendIsCollect(Demux(p, Claiming(IdsClaims), input).kept);
  }

  lemma {:induction false} ExtendIsCollect(rs: seq<Response>)
    ensures ExtendAll(ExtendSeq, [], rs) == Collect(IdsIn, rs)
    ensures ExtendAll(ExtendSet, {}, rs) == set id | id in Collect(IdsIn, rs)
  {
    if rs != [] {
      ExtendIsCollect(rs[..|rs| - 1]);
    }
  }
}
