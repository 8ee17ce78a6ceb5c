/** `Deleted`: what an EXPUNGE removed, by number or by UID (src/types/deleted.rs). */
module DeletedResults {
  import opened Wrappers
  import opened Text
  import opened Responses

  datatype DeletedMessages = Expunged(numbers: seq<u32>) | VanishedUids(ranges: seq<Range>)

  datatype Deleted = Deleted(messages: DeletedMessages, modSeq: Option<u64>) {

    /** Message numbers, as `seqs()` iterates over them. */
    function Seqs(): seq<u32> {
      match messages
      case Expunged(numbers) => numbers
      case VanishedUids(_) => []
    }

    /** UIDs, as `uids()` iterates over them. */
    function Uids(): seq<u32> {
      match messages
      case Expunged(_) => []
      case VanishedUids(ranges) => Expand(ranges)
    }

    predicate IsEmpty() {
      match messages
      case Expunged(numbers) => numbers == []
      case VanishedUids(ranges) => ranges == []
    }

    function IntoIter(): seq<u32> {
      match messages
      case Expunged(_) => Seqs()
      case VanishedUids(_) => Uids()
    }
  }

  /** Iterating over an inclusive range never steps past its last element. */
  function Each(r: Range): (uids: seq<u32>)
    decreases r.last - r.first
  {
    if r.last < r.first then []
    else if r.first == r.last then [r.first]
    else [r.first] + Each(Range(r.first + 1, r.last))
  }

  /** `flat_map` over the ranges. */
  function Expand(ranges: seq<Range>): seq<u32> {
    if ranges == [] then [] else Each(ranges[0]) + Expand(ranges[1..])
  }

  function Size(r: Range): nat {
    if r.last < r.first then 0 else r.last - r.first + 1
  }

  function TotalSize(ranges: seq<Range>): nat {
    if ranges == [] then 0 else Size(ranges[0]) + TotalSize(ranges[1..])
  }

  /** A range yields exactly its elements in order, up to and including 2^32 - 1. */
  lemma {:induction false} EachElement(r: Range)
    ensures |Each(r)| == Size(r)
    ensures forall k :: 0 <= k < Size(r) ==> Each(r)[k] == r.first + k
    decreases r.last - r.first
  {
    if r.first < r.last {
      EachElement(Range(r.first + 1, r.last));
    }
  }

  lemma {:induction false} ExpandElements(ranges: seq<Range>)
    ensures |Expand(ranges)| == TotalSize(ranges)
    ensures forall u :: u in Expand(ranges) <==> exists i :: 0 <= i < |ranges| && ranges[i].first <= u <= ranges[i].last
  {
    if ranges != [] {
      EachElement(ranges[0]);
      ExpandElements(ranges[1..]);
      var r := ranges[0];
      forall u
        ensures u in Expand(ranges) <==> exists i :: 0 <= i < |ranges| && ranges[i].first <= u <= ranges[i].last
      {
        if r.first <= u <= r.last {
          assert Each(r)[u - r.first] == u;
        }
        if i :| 0 < i < |ranges| && ranges[i].first <= u <= ranges[i].last {
          assert ranges[1..][i - 1] == ranges[i];
        }
        if i :| 0 <= i < |ranges[1..]| && ranges[1..][i].first <= u <= ranges[1..][i].last {
          assert ranges[i + 1] == ranges[1..][i];
        }
      }
    }
  }

  predicate Ascending(ranges: seq<Range>) {
    && (forall i :: 0 <= i < |ranges| ==> ranges[i].first <= ranges[i].last)
    && (forall i, j :: 0 <= i < j < |ranges| ==> ranges[i].last < ranges[j].first)
  }

  predicate StrictlyAscending(s: seq<u32>) {
    forall i, j :: 0 <= i < j < |s| ==> s[i] < s[j]
  }

  /** Ranges in ascending order without overlap expand to strictly ascending UIDs. */
  lemma {:induction false} ExpandAscending(ranges: seq<Range>)
    requires Ascending(ranges)
    ensures StrictlyAscending(Expand(ranges))
    ensures forall u :: u in Expand(ranges) ==> ranges != [] && ranges[0].first <= u
  {
    if ranges != [] {
      var head, tail := Each(ranges[0]), Expand(ranges[1..]);
      EachElement(ranges[0]);
      ExpandAscending(ranges[1..]);
      forall i, j | 0 <= i < j < |head + tail|
        ensures (head + tail)[i] < (head + tail)[j]
      {
        if i < |head| <= j {
          assert tail[j - |head|] in tail;
          assert ranges[1..][0] == ranges[1];
        }
      }
    }
  }

  predicate AllInverted(ranges: seq<Range>) {
    forall i :: 0 <= i < |ranges| ==> ranges[i].last < ranges[i].first
  }

  /** `is_empty` tells whether iteration yields nothing exactly unless there are ranges but all of
      them are inverted. */
  lemma IsEmptyIff(d: Deleted)
    ensures (d.IsEmpty() <==> d.IntoIter() == []) <==>
            !(d.messages.VanishedUids? && d.messages.ranges != [] && AllInverted(d.messages.ranges))
  {
    match d.messages {
      case Expunged(_) =>
      case VanishedUids(ranges) =>
        ExpandNothing(ranges);
    }
  }

  lemma {:induction false} ExpandNothing(ranges: seq<Range>)
    ensures Expand(ranges) == [] <==> AllInverted(ranges)
  {
    if ranges != [] {
      EachElement(ranges[0]);
      ExpandNothing(ranges[1..]);
      assert forall i :: 0 < i < |ranges| ==> ranges[i] == ranges[1..][i - 1];
      assert forall i :: 0 <= i < |ranges[1..]| ==> ranges[1..][i] == ranges[i + 1];
    }
  }
}
