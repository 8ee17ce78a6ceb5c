/** GETMETADATA (src/extensions/metadata.rs). */
module MetadataResponses {
  import opened Wrappers
  import opened Text
  import opened Responses
  import opened Parsing
  import opened Folds
  import opened Utils
  import opened Quoting
  import opened Demultiplexing
  import opened Results

  datatype Depth = Zero | One | Infinity

  function DepthText(depth: Depth): bytes {
    match depth
    case Zero => "0"
    case One => "1"
    case Infinity => "infinity"
  }

  /** Validating and quoting each entry, up to the first failure. */
  function QuotedEntries(entries: seq<bytes>, index: nat): (r: Res<seq<bytes>>)
    ensures r.Success? <==> forall i :: 0 <= i < |entries| ==> NoBreak(entries[i])
    ensures r.Success? ==> |r.value| == |entries| && forall i :: 0 <= i < |entries| ==> r.value[i] == Quote(entries[i])
    decreases |entries|
  {
    if entries == [] then Success([])
    else
      var first := ValidateStr("GETMETADATA", "entry#" + Decimal(index + 1), entries[0]);
      if first.Failure? then Failure(first.error)
      else
        var later := QuotedEntries(entries[1..], index + 1);
        assert forall i :: 0 < i < |entries| ==> entries[i] == entries[1..][i - 1];
        if later.Failure? then
          assert exists i :: 0 <= i < |entries[1..]| && !NoBreak(entries[1..][i]);
          assert forall i :: 0 <= i < |entries[1..]| ==> entries[1..][i] == entries[i + 1];
          Failure(later.error)
        else Success([first.value] + later.value)
  }

  function GetMetadataCommand(mailbox: Option<bytes>, entries: seq<bytes>, depth: Depth, maxSize: Option<nat>): Res<bytes> {
    var quoted :- QuotedEntries(entries, 0);
    var options := "GETMETADATA (DEPTH " + DepthText(depth)
                   + (match maxSize case None => "" case Some(size) => " MAXSIZE " + Decimal(size));
    var mbox :- match mailbox
                case None => Success("\"\"")
                case Some(name) => ValidateStr("GETMETADATA", "mailbox", name);
    Success(options + ") " + mbox + " (" + Join(quoted, " ") + ")")
  }

  // ------------------------------------------------------------------ parse_metadata

  predicate MetadataClaims(r: Response) {
    r.MailboxData? && r.datum.MetadataSolicited?
  }

  function ValuesIn(r: Response): seq<Metadata> {
    match r
    case MailboxData(MetadataSolicited(_, values)) => values
    case _ => []
  }

  method ParseMetadata(p: Parser, input: bytes, unsolicited: Queue) returns (r: Res<seq<Metadata>>)
    modifies unsolicited
    ensures var d := Demux(p, Claiming(MetadataClaims), input);
            && unsolicited.items == old(unsolicited.items) + d.queued
            && r == if d.error.Some? then Failure(d.error.value) else Success(Collect(ValuesIn, d.kept))
  {
    var lines := input;
    var res: seq<Metadata> := [];
    ghost var seen: seq<Response> := [];
    ghost var route := Claiming(MetadataClaims);
    ghost var d := Demux(p, route, input);
    AheadStart(d, unsolicited.items);
    ghost var total := Ahead([], unsolicited.items, d);
    hide Demux, Ahead, Claiming, Convert;
    while true
      invariant Ahead(seen, unsolicited.items, Demux(p, route, lines)) == total
      invariant res == Collect(ValuesIn, seen)
      decreases |lines|
    {
      AheadEnd(p, route, lines, seen, unsolicited.items);
      if lines == [] {
        return Success(res);
      }
      match ParseResponse(p, lines) {
        case Complete(n, response) =>
          ClaimNext(p, MetadataClaims, lines, seen, unsolicited.items);
          CollectSnoc(ValuesIn, seen, response);
          lines := lines[n..];
          if MetadataClaims(response) {
            res := res + response.datum.values;
            seen := seen + [response];
          } else {
            var unhandled := unsolicited.TryHandleUnilateral(response);
            if unhandled.Some? {
              return Failure(Unexpected(unhandled.value));
            }
          }
        case _ =>
          return Failure(Error.Parse(Invalid(lines)));
      }
    }
  }

  /** Without a failure the result is all the values of all METADATA responses, in order. */
  lemma MetadataReports(p: Parser, input: bytes)
    requires Demux(p, Claiming(MetadataClaims), input).error == None
    ensures Collect(ValuesIn, Demux(p, Claiming(MetadataClaims), input).kept) ==
            Collect(ValuesIn, ResponsesOf(p, input))
  {
    NothingRefused(p, MetadataClaims, input);
    CollectFilter(ValuesIn, MetadataClaims, ResponsesOf(p, input));
  }

  /** The size of the largest entry that was held back, as the completion reports it. */
  function LongEntries(done: Response): Option<u64> {
    match done
    case Done(_, _, Some(MetadataLongEntries(size)), _) => Some(size)
    case _ => None
  }
}
