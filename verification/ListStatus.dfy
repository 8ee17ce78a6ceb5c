/** Pairing LIST with STATUS responses (src/extensions/list_status.rs; section 2 of RFC 5819). */
module ListStatus {
  import opened Wrappers
  import opened Text
  import opened Responses
  import opened Parsing
  import opened Folds
  import opened Demultiplexing
  import opened Results
  import opened Mailboxes

  datatype Name = Name(attributes: seq<bytes>, delimiter: Option<bytes>, name: bytes)

  datatype Entry = Entry(name: Name, status: Option<Mailbox>)

  predicate IsList(r: Response) {
    r.MailboxData? && r.datum.List?
  }

  predicate IsStatus(r: Response) {
    r.MailboxData? && r.datum.StatusOf?
  }

  predicate ListClaims(r: Response) {
    IsList(r) || IsStatus(r)
  }

  function NameIn(r: Response): seq<Name> {
    match r
    case MailboxData(List(attributes, delimiter, name)) => [Name(attributes, delimiter, name)]
    case _ => []
  }

  function StatusIn(r: Response): Option<Mailbox> {
    match r
    case MailboxData(StatusOf(_, items)) => Some(MailboxOfItems(items))
    case _ => None
  }

  // ------------------------------------------------------------------ The parser

  /** The entries still to come, given the name and the status that are waiting to be paired. */
  function Pairs(current: Option<Name>, status: Option<Mailbox>, rs: seq<Response>): seq<Entry>
    decreases |rs|
  {
    if rs == [] then Flush(current, status)
    else
      match rs[0]
      case MailboxData(List(attributes, delimiter, name)) =>
        Flush(current, status)
        + Pairs(Some(Name(attributes, delimiter, name)), if current.Some? then None else status, rs[1..])
      case MailboxData(StatusOf(_, items)) => Pairs(current, Some(MailboxOfItems(items)), rs[1..])
      case _ => Pairs(current, status, rs[1..])
  }

  function Flush(current: Option<Name>, status: Option<Mailbox>): seq<Entry> {
    match current
    case None => []
    case Some(name) => [Entry(name, status)]
  }

  lemma PairsNext(names: seq<Entry>, current: Option<Name>, status: Option<Mailbox>, r: Response,
                  rs: seq<Response>)
    ensures IsList(r) ==>
              names + Pairs(current, status, [r] + rs) ==
              (names + Flush(current, status))
              + Pairs(Some(NameIn(r)[0]), if current.Some? then None else status, rs)
    ensures IsStatus(r) ==> Pairs(current, status, [r] + rs) == Pairs(current, StatusIn(r), rs)
    ensures !IsList(r) && !IsStatus(r) ==> Pairs(current, status, [r] + rs) == Pairs(current, status, rs)
    ensures names + [] == names
  {
    assert ([r] + rs)[1..] == rs;
  }

  /** `names`, the waiting pair and the queue, once `d` has been added to them. */
  function Onwards(names: seq<Entry>, current: Option<Name>, status: Option<Mailbox>,
                   queued: seq<UnsolicitedResponse>, d: Demuxed<Response>): Demuxed<Entry>
  {
    Demuxed(names + Pairs(current, status, d.kept), queued + d.queued, d.error)
  }

  lemma OnwardsNext(p: Parser, lines: bytes, names: seq<Entry>, current: Option<Name>, status: Option<Mailbox>,
                    queued: seq<UnsolicitedResponse>)
    requires lines != [] && ParseResponse(p, lines).Complete?
    ensures var Complete(n, r) := ParseResponse(p, lines);
            var d := Demux(p, Claiming(ListClaims), lines[n..]);
            Onwards(names, current, status, queued, Demux(p, Claiming(ListClaims), lines)) ==
            if IsList(r) then
              Onwards(names + Flush(current, status), Some(NameIn(r)[0]),
                      if current.Some? then None else status, queued, d)
            else if IsStatus(r) then Onwards(names, current, StatusIn(r), queued, d)
            else
              match Convert(r)
              case Some(u) => Onwards(names, current, status, queued + [u], d)
              case None => Demuxed(names + Flush(current, status), queued, Some(Unexpected(r)))
    ensures names + [] == names
  {
    var Complete(n, r) := ParseResponse(p, lines);
    var d := Demux(p, Claiming(ListClaims), lines[n..]);
    DemuxNext(p, Claiming(ListClaims), lines);
    PairsNext(names, current, status, r, d.kept);
    if !ListClaims(r) && Convertible(r) {
      assert (queued + [Convert(r).value]) + d.queued == queued + ([Convert(r).value] + d.queued);
    }
  }

  lemma OnwardsEnd(p: Parser, lines: bytes, names: seq<Entry>, current: Option<Name>, status: Option<Mailbox>,
                   queued: seq<UnsolicitedResponse>)
    requires lines == [] || !ParseResponse(p, lines).Complete?
    ensures Onwards(names, current, status, queued, Demux(p, Claiming(ListClaims), lines)) ==
            Demuxed(names + Flush(current, status), queued,
                    if lines == [] then None else Some(Error.Parse(Invalid(lines))))
    ensures names + [] == names
  {
  }

  method ParseExtendedNames(p: Parser, input: bytes, unsolicited: Queue) returns (r: Res<seq<Entry>>)
    modifies unsolicited
    ensures var d := Demux(p, Claiming(ListClaims), input);
            && unsolicited.items == old(unsolicited.items) + d.queued
            && r == if d.error.Some? then Failure(d.error.value) else Success(Pairs(None, None, d.kept))
  {
    var lines := input;
    var names: seq<Entry> := [];
    var currentName: Option<Name> := None;
    var currentMailbox: Option<Mailbox> := None;
    ghost var d := Demux(p, Claiming(ListClaims), input);
    ghost var total := Onwards(names, currentName, currentMailbox, unsolicited.items, d);
    assert total == Demuxed(Pairs(None, None, d.kept), unsolicited.items + d.queued, d.error);
    hide Demux, Onwards, Claiming, Convert, MailboxOfItems, Pairs;
    while true
      invariant Onwards(names, currentName, currentMailbox, unsolicited.items,
                        Demux(p, Claiming(ListClaims), lines)) == total
      decreases |lines|
    {
      if lines == [] {
        OnwardsEnd(p, lines, names, currentName, currentMailbox, unsolicited.items);
        if currentName.Some? {
          names := names + [Entry(currentName.value, currentMailbox)];
        }
        return Success(names);
      }
      match ParseResponse(p, lines) {
        case Complete(n, response) =>
          OnwardsNext(p, lines, names, currentName, currentMailbox, unsolicited.items);
          lines := lines[n..];
          if IsList(response) {
            if currentName.Some? {
              names := names + [Entry(currentName.value, currentMailbox)];
              currentMailbox := None;
            }
            currentName := Some(Name(response.datum.attributes, response.datum.delimiter, response.datum.name));
          } else if IsStatus(response) {
            NoItems();
            var mailbox := ReadAttributes(EMPTY_MAILBOX, response.datum.items, []);
            assert [] + response.datum.items == response.datum.items;
            currentMailbox := Some(mailbox);
          } else {
            var unhandled := unsolicited.TryHandleUnilateral(response);
            if unhandled.Some? {
              return Failure(Unexpected(unhandled.value));
            }
          }
        case _ =>
          OnwardsEnd(p, lines, names, currentName, currentMailbox, unsolicited.items);
          return Failure(Error.Parse(Invalid(lines)));
      }
    }
  }

  lemma NoItems()
    ensures MailboxOfItems([]) == EMPTY_MAILBOX
  {
  }

  // ------------------------------------------------------------------ Which status goes with which name

  /** The first LIST at or after `i`, or the end. */
  function NextList(rs: seq<Response>, i: nat): (k: nat)
    requires i <= |rs|
    ensures i <= k <= |rs| && (k < |rs| ==> IsList(rs[k]))
    decreases |rs| - i
  {
    if i == |rs| || IsList(rs[i]) then i else NextList(rs, i + 1)
  }

  /** The last STATUS among the responses from `from` up to `end`. */
  function StatusBetween(rs: seq<Response>, from: nat, end: nat): Option<Mailbox>
    requires from <= end <= |rs|
    decreases end
  {
    if from == end then None
    else if IsStatus(rs[end - 1]) then StatusIn(rs[end - 1])
    else StatusBetween(rs, from, end - 1)
  }

  /** One entry for the LIST at `i` and for each later one. An entry carries the last STATUS between
      its LIST and the next, but that of the first one may come anywhere from `from` on. */
  function EntriesFrom(rs: seq<Response>, from: nat, i: nat): seq<Entry>
    requires from <= i <= |rs| && (i < |rs| ==> IsList(rs[i]))
    decreases |rs| - i
  {
    if i == |rs| then []
    else
      var next := NextList(rs, i + 1);
      [Entry(NameIn(rs[i])[0], StatusBetween(rs, from, next))] + EntriesFrom(rs, next, next)
  }

  /** The STATUS of the first entry may come before its LIST, unlike those of the others. */
  function Entries(rs: seq<Response>): seq<Entry> {
    EntriesFrom(rs, 0, NextList(rs, 0))
  }

  lemma PairsAt(rs: seq<Response>, j: nat, current: Option<Name>, status: Option<Mailbox>)
    requires j < |rs|
    ensures Pairs(current, status, rs[j..]) ==
            if IsList(rs[j]) then
              Flush(current, status)
              + Pairs(Some(NameIn(rs[j])[0]), if current.Some? then None else status, rs[j + 1..])
            else Pairs(current, if IsStatus(rs[j]) then StatusIn(rs[j]) else status, rs[j + 1..])
  {
    assert rs[j..][1..] == rs[j + 1..];
  }

  /** The entries from a name on that is waiting for its status at `j`. */
  function Waiting(rs: seq<Response>, name: Name, from: nat, j: nat): seq<Entry>
    requires from <= j <= |rs|
  {
    var next := NextList(rs, j);
    [Entry(name, StatusBetween(rs, from, next))] + EntriesFrom(rs, next, next)
  }

  lemma WaitingNext(rs: seq<Response>, name: Name, from: nat, j: nat)
    requires from <= j < |rs|
    ensures Waiting(rs, name, from, j) ==
            if IsList(rs[j]) then
              [Entry(name, StatusBetween(rs, from, j))] + Waiting(rs, NameIn(rs[j])[0], j, j + 1)
            else Waiting(rs, name, from, j + 1)
    ensures StatusBetween(rs, from, j + 1) ==
            if IsStatus(rs[j]) then StatusIn(rs[j]) else StatusBetween(rs, from, j)
    ensures StatusBetween(rs, j, j) == None
  {
  }

  lemma {:induction false} PairsWaiting(rs: seq<Response>, name: Name, from: nat, j: nat)
    requires from <= j <= |rs|
    ensures Pairs(Some(name), StatusBetween(rs, from, j), rs[j..]) == Waiting(rs, name, from, j)
    decreases |rs| - j
  {
    if j < |rs| {
      hide Pairs, Waiting, StatusIn, StatusBetween;
      PairsAt(rs, j, Some(name), StatusBetween(rs, from, j));
      WaitingNext(rs, name, from, j);
      if IsList(rs[j]) {
        WaitingNext(rs, name, j, j);
        PairsWaiting(rs, NameIn(rs[j])[0], j, j + 1);
      } else {
        PairsWaiting(rs, name, from, j + 1);
      }
    }
  }

  lemma {:induction false} PairsStart(rs: seq<Response>, j: nat)
    requires j <= |rs| && NextList(rs, j) == NextList(rs, 0)
    ensures Pairs(None, StatusBetween(rs, 0, j), rs[j..]) == Entries(rs)
    decreases |rs| - j
  {
    if j < |rs| {
      hide Pairs, StatusIn;
      PairsAt(rs, j, None, StatusBetween(rs, 0, j));
      if IsList(rs[j]) {
        PairsWaiting(rs, NameIn(rs[j])[0], 0, j + 1);
      } else {
        PairsStart(rs, j + 1);
      }
    }
  }

  lemma {:induction false} PairsOfFilter(current: Option<Name>, status: Option<Mailbox>, rs: seq<Response>)
    ensures Pairs(current, status, Filter(ListClaims, rs)) == Pairs(current, status, rs)
    decreases |rs|
  {
    if rs != [] {
      var r, rest := rs[0], Filter(ListClaims, rs[1..]);
      var after := if IsList(r) && current.Some? then None else if IsStatus(r) then StatusIn(r) else status;
      PairsOfFilter(if IsList(r) then Some(NameIn(r)[0]) else current, after, rs[1..]);
      PairsNext([], current, status, r, rest);
      PairsNext([], current, status, r, rs[1..]);
      assert [r] + rs[1..] == rs && [] + rest == rest;
    }
  }

  /** On any reply that is accepted, the result is exactly those entries. */
  lemma ExtendedNamesReport(p: Parser, input: bytes)
    requires Demux(p, Claiming(ListClaims), input).error == None
    ensures Pairs(None, None, Demux(p, Claiming(ListClaims), input).kept) == Entries(ResponsesOf(p, input))
  {
    var rs := ResponsesOf(p, input);
    NothingRefused(p, ListClaims, input);
    PairsOfFilter(None, None, rs);
    PairsStart(rs, 0);
    assert rs[0..] == rs;
  }

  function NameOf(e: Entry): seq<Name> {
    [e.name]
  }

  /** One entry per LIST, in order. */
  lemma {:induction false} OneEntryPerList(rs: seq<Response>, from: nat, i: nat)
    requires from <= i <= |rs| && (i < |rs| ==> IsList(rs[i]))
    ensures Collect(NameOf, EntriesFrom(rs, from, i)) == Collect(NameIn, rs[i..])
    ensures |EntriesFrom(rs, from, i)| == |Collect(NameIn, rs[i..])|
    decreases |rs| - i
  {
    if i < |rs| {
      hide Collect, StatusBetween;
      var next := NextList(rs, i + 1);
      OneEntryPerList(rs, next, next);
      SkipToList(rs, i + 1);
      CollectCons(NameOf, EntriesFrom(rs, from, i)[0], EntriesFrom(rs, next, next));
      CollectCons(NameIn, rs[i], rs[i + 1..]);
      assert [rs[i]] + rs[i + 1..] == rs[i..];
    }
  }

  lemma {:induction false} SkipToList(rs: seq<Response>, i: nat)
    requires i <= |rs|
    ensures Collect(NameIn, rs[i..]) == Collect(NameIn, rs[NextList(rs, i)..])
    decreases |rs| - i
  {
    if i < |rs| && !IsList(rs[i]) {
      SkipToList(rs, i + 1);
      CollectCons(NameIn, rs[i], rs[i + 1..]);
      assert [rs[i]] + rs[i + 1..] == rs[i..];
    }
  }

  // ------------------------------------------------------------------ Whose status it is

  /** Where the last STATUS from `from` up to `end` is; `end` if there is none. */
  function LastStatusAt(rs: seq<Response>, from: nat, end: nat): (k: nat)
    requires from <= end <= |rs|
    ensures from <= k <= end && (k < end ==> IsStatus(rs[k]))
    ensures forall j :: from <= j < end && IsStatus(rs[j]) ==> j <= k < end
    decreases end
  {
    if from == end then end
    else if IsStatus(rs[end - 1]) then end - 1
    else
      var k := LastStatusAt(rs, from, end - 1);
      if k == end - 1 then end else k
  }

  /** The last STATUS of that very name. */
  function OwnBetween(rs: seq<Response>, from: nat, end: nat, name: bytes): Option<Mailbox>
    requires from <= end <= |rs|
    decreases end
  {
    if from == end then None
    else if IsStatus(rs[end - 1]) && rs[end - 1].datum.mailbox == name then StatusIn(rs[end - 1])
    else OwnBetween(rs, from, end - 1, name)
  }

  /** The parser does not look at the name in a STATUS: a name gets its own status if the last STATUS
      before the next name bears it, and otherwise that of another mailbox. */
  lemma {:induction false} StatusIsOwn(rs: seq<Response>, from: nat, end: nat, name: bytes)
    requires from <= end <= |rs|
    ensures var k := LastStatusAt(rs, from, end);
            && StatusBetween(rs, from, end) ==
               (if k == end then None else Some(MailboxOfItems(rs[k].datum.items)))
            && (k == end || rs[k].datum.mailbox == name ==>
                  StatusBetween(rs, from, end) == OwnBetween(rs, from, end, name))
    decreases end
  {
    if from < end && !IsStatus(rs[end - 1]) {
      StatusIsOwn(rs, from, end - 1, name);
    }
  }

  /** In what each name gets, the last STATUS bears its name. */
  predicate AllOwn(rs: seq<Response>, from: nat, i: nat)
    requires from <= i <= |rs| && (i < |rs| ==> IsList(rs[i]))
    decreases |rs| - i
  {
    i == |rs| ||
    var next := NextList(rs, i + 1);
    var k := LastStatusAt(rs, from, next);
    (k == next || rs[k].datum.mailbox == rs[i].datum.name) && AllOwn(rs, next, next)
  }

  /** One entry per LIST with the last STATUS of its own name. */
  function OwnEntriesFrom(rs: seq<Response>, from: nat, i: nat): seq<Entry>
    requires from <= i <= |rs| && (i < |rs| ==> IsList(rs[i]))
    decreases |rs| - i
  {
    if i == |rs| then []
    else
      var next := NextList(rs, i + 1);
      [Entry(NameIn(rs[i])[0], OwnBetween(rs, from, next, rs[i].datum.name))] + OwnEntriesFrom(rs, next, next)
  }

  /** No two mailboxes are reported to be in the same state. */
  predicate TellsApart(rs: seq<Response>) {
    forall j, k | 0 <= j < |rs| && 0 <= k < |rs| && IsStatus(rs[j]) && IsStatus(rs[k]) ::
      rs[j].datum.mailbox != rs[k].datum.mailbox ==> StatusIn(rs[j]) != StatusIn(rs[k])
  }

  /** The last own status is reported by some STATUS of that name, if there is one. */
  lemma {:induction false} OwnIsReported(rs: seq<Response>, from: nat, end: nat, name: bytes)
    requires from <= end <= |rs|
    ensures OwnBetween(rs, from, end, name) == None ||
            exists j :: from <= j < end && IsStatus(rs[j]) && rs[j].datum.mailbox == name
                        && OwnBetween(rs, from, end, name) == StatusIn(rs[j])
    decreases end
  {
    if from < end && !(IsStatus(rs[end - 1]) && rs[end - 1].datum.mailbox == name) {
      OwnIsReported(rs, from, end - 1, name);
    }
  }

  lemma StatusIsOwnIff(rs: seq<Response>, from: nat, end: nat, name: bytes)
    requires from <= end <= |rs| && TellsApart(rs)
    ensures var k := LastStatusAt(rs, from, end);
            StatusBetween(rs, from, end) == OwnBetween(rs, from, end, name) <==>
            k == end || rs[k].datum.mailbox == name
  {
    hide StatusBetween, OwnBetween, LastStatusAt;
    StatusIsOwn(rs, from, end, name);
    OwnIsReported(rs, from, end, name);
  }

  /** If mailboxes can be told apart by their status, every entry has the last STATUS of its own name
      exactly if the server keeps to that order. The order is enough in any case. */
  lemma {:induction false} EntriesAreOwnIff(rs: seq<Response>, from: nat, i: nat)
    requires from <= i <= |rs| && (i < |rs| ==> IsList(rs[i]))
    ensures AllOwn(rs, from, i) ==> EntriesFrom(rs, from, i) == OwnEntriesFrom(rs, from, i)
    ensures TellsApart(rs) && EntriesFrom(rs, from, i) == OwnEntriesFrom(rs, from, i) ==> AllOwn(rs, from, i)
    decreases |rs| - i
  {
    if i < |rs| {
      hide StatusBetween, OwnBetween, LastStatusAt, TellsApart;
      var next := NextList(rs, i + 1);
      StatusIsOwn(rs, from, next, rs[i].datum.name);
      EntriesAreOwnIff(rs, next, next);
      if TellsApart(rs) {
        StatusIsOwnIff(rs, from, next, rs[i].datum.name);
      }
      var first, own := StatusBetween(rs, from, next), OwnBetween(rs, from, next, rs[i].datum.name);
      var name := NameIn(rs[i])[0];
      HeadAndTail(Entry(name, first), Entry(name, own), EntriesFrom(rs, next, next), OwnEntriesFrom(rs, next, next));
    }
  }

  lemma HeadAndTail(a: Entry, b: Entry, s: seq<Entry>, t: seq<Entry>)
    ensures [a] + s == [b] + t <==> a == b && s == t
  {
    assert ([a] + s)[0] == a && ([b] + t)[0] == b;
    assert ([a] + s)[1..] == s && ([b] + t)[1..] == t;
  }

  /** Otherwise it may go to another: a lone STATUS of `b` after the LIST of `a` is that of `a`. */
  lemma ForeignStatus(items: seq<StatusAttribute>)
    ensures var rs := [MailboxData(List([], None, "a")), MailboxData(StatusOf("b", items))];
            && Entries(rs) == [Entry(Name([], None, "a"), Some(MailboxOfItems(items)))]
            && OwnBetween(rs, 0, 2, "a") == None
  {
    var rs := [MailboxData(List([], None, "a")), MailboxData(StatusOf("b", items))];
    assert NextList(rs, 0) == 0 && NextList(rs, 2) == 2;
    assert NextList(rs, 1) == 2;
    assert EntriesFrom(rs, 2, 2) == [] && NameIn(rs[0]) == [Name([], None, "a")];
    assert EntriesFrom(rs, 0, 0) == [Entry(NameIn(rs[0])[0], StatusBetween(rs, 0, 2))] + [];
    assert StatusBetween(rs, 0, 2) == Some(MailboxOfItems(items));
    assert OwnBetween(rs, 0, 1, "a") == None;
    assert "b"[0] != "a"[0];
  }

  // ------------------------------------------------------------------ The round trip

  /** A name as the server lists it, with the status it reports right after, if it does. */
  datatype Listed = Listed(name: Name, status: Option<seq<StatusAttribute>>)

  function Rendered(l: Listed): seq<Response> {
    [MailboxData(List(l.name.attributes, l.name.delimiter, l.name.name))]
    + match l.status
      case None => []
      case Some(items) => [MailboxData(StatusOf(l.name.name, items))]
  }

  function Render(ls: seq<Listed>): seq<Response> {
    if ls == [] then [] else Rendered(ls[0]) + Render(ls[1..])
  }

  function EntryOf(l: Listed): Entry {
    Entry(l.name, match l.status case None => None case Some(items) => Some(MailboxOfItems(items)))
  }

  function EntriesOf(ls: seq<Listed>): seq<Entry> {
    if ls == [] then [] else [EntryOf(ls[0])] + EntriesOf(ls[1..])
  }

  /** A LIST and its STATUS flush what was waiting, and are waiting themselves. */
  lemma PairsOfRendered(current: Option<Name>, status: Option<Mailbox>, l: Listed, rest: seq<Response>)
    requires current.None? ==> status.None?
    ensures Pairs(current, status, Rendered(l) + rest) ==
            Flush(current, status) + Pairs(Some(l.name), EntryOf(l).status, rest)
  {
    var rs := Rendered(l) + rest;
    assert rs[0..] == rs;
    PairsAt(rs, 0, current, status);
    if l.status.Some? {
      PairsAt(rs, 1, Some(l.name), None);
      assert rs[2..] == rest;
    } else {
      assert rs[1..] == rest;
    }
  }

  lemma {:induction false} PairsOfRender(current: Option<Name>, status: Option<Mailbox>, ls: seq<Listed>)
    requires current.None? ==> status.None?
    ensures Pairs(current, status, Render(ls)) == Flush(current, status) + EntriesOf(ls)
    decreases |ls|
  {
    if ls != [] {
      PairsOfRendered(current, status, ls[0], Render(ls[1..]));
      PairsOfRender(Some(ls[0].name), EntryOf(ls[0]).status, ls[1..]);
    }
  }

  /**
   What a server lists comes back: whatever convertible responses are interleaved with the LIST
   and STATUS responses of `ls`, parsing the reply returns exactly `ls` and queues exactly those.
   */
  lemma ListStatusRoundTrip(p: Parser, input: bytes, ls: seq<Listed>)
    requires Whole(p, input)
    requires Filter(ListClaims, ResponsesOf(p, input)) == Render(ls)
    requires forall r :: r in ResponsesOf(p, input) ==> ListClaims(r) || Convertible(r)
    ensures var d := Demux(p, Claiming(ListClaims), input);
            && d.error == None
            && Pairs(None, None, d.kept) == EntriesOf(ls)
            && d.queued == ConvertAll(Filter(Except(ListClaims), ResponsesOf(p, input)))
            && |d.queued| == |ResponsesOf(p, input)| - |Render(ls)|
  {
    hide SplitAll, Pairs, Render, Kept, Filter, Spilled, Accepted, Demux;
    var rs := ResponsesOf(p, input);
    DemuxPartition(p, Claiming(ListClaims), input);
    forall i | 0 <= i < |rs|
      ensures !Claiming(ListClaims)(rs[i]).Refused?
    {
      assert rs[i] in rs;
    }
    NoneRefused(Claiming(ListClaims), rs);
    assert rs[..|rs|] == rs;
    KeptIsFilter(ListClaims, rs);
    SpilledIsRest(ListClaims, rs);
    PairsOfRender(None, None, ls);
  }
}
