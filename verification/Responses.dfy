/**
 The vocabulary of server responses, client errors and unsolicited responses, and the
 conversion from the first to the last (`TryFrom<Response> for UnsolicitedResponse`).
 */
module Responses {
  import opened Wrappers
  import opened Text

  datatype Status = OK | NO | BAD | PREAUTH | BYE

  /** `RangeInclusive<u32>`; inverted when `last < first`. */
  datatype Range = Range(first: u32, last: u32)

  datatype ResponseCode =
    | AppendUid(validity: u32, uids: seq<Range>)
    | HighestModSeq(modSeq: u64)
    | MetadataLongEntries(size: u64)
    | PermanentFlags(flags: seq<bytes>)
    | ReadOnly
    | UidNext(uid: u32)
    | UidValidity(uid: u32)
    | Unseen(uid: u32)
    | OtherCode(text: bytes)

  datatype StatusAttribute =
    | AttrHighestModSeq(modSeq: u64)
    | AttrMessages(count: u32)
    | AttrRecent(count: u32)
    | AttrUidNext(count: u32)
    | AttrUidValidity(count: u32)
    | AttrUnseen(count: u32)
    | AttrOther(text: bytes)

  datatype Metadata = Metadata(entry: bytes, value: Option<bytes>)

  datatype MailboxDatum =
    | Exists(count: u32)
    | Flags(flags: seq<bytes>)
    | List(attributes: seq<bytes>, delimiter: Option<bytes>, name: bytes)
    | Recent(count: u32)
    | Search(ids: seq<u32>)
    | Sort(ids: seq<u32>)
    | StatusOf(mailbox: bytes, items: seq<StatusAttribute>)
    | MetadataSolicited(mailbox: bytes, values: seq<Metadata>)
    | MetadataUnsolicited(mailbox: bytes, entries: seq<bytes>)
    | OtherDatum(text: bytes)

  datatype QuotaResource = QuotaResource(name: bytes, usage: u64, limit: u64)
  datatype QuotaData = QuotaData(rootName: bytes, resources: seq<QuotaResource>)
  datatype QuotaRootData = QuotaRootData(mailbox: bytes, rootNames: seq<bytes>)

  datatype Response =
    | Capabilities(capabilities: seq<bytes>)
    | Continue(code: Option<ResponseCode>, information: Option<bytes>)
    | Done(tag: bytes, status: Status, code: Option<ResponseCode>, information: Option<bytes>)
    | Data(status: Status, code: Option<ResponseCode>, information: Option<bytes>)
    | Expunge(number: u32)
    | Vanished(earlier: bool, uids: seq<Range>)
    | Fetch(number: u32, attributes: seq<bytes>)
    | MailboxData(datum: MailboxDatum)
    | Quota(quota: QuotaData)
    | QuotaRoot(root: QuotaRootData)
    | OtherResponse(text: bytes)

  // ------------------------------------------------------------------ Flags

  datatype Flag =
    | SeenFlag | AnsweredFlag | FlaggedFlag | DeletedFlag | DraftFlag | RecentFlag | MayCreateFlag
    | CustomFlag(text: bytes)

  /** `Flag::from(String)`. */
  function FlagOf(s: bytes): Flag {
    if s == "\\Seen" then SeenFlag
    else if s == "\\Answered" then AnsweredFlag
    else if s == "\\Flagged" then FlaggedFlag
    else if s == "\\Deleted" then DeletedFlag
    else if s == "\\Draft" then DraftFlag
    else if s == "\\Recent" then RecentFlag
    else if s == "\\*" then MayCreateFlag
    else CustomFlag(s)
  }

  /** `Display for Flag`. */
  function FlagText(f: Flag): bytes {
    match f
    case SeenFlag => "\\Seen"
    case AnsweredFlag => "\\Answered"
    case FlaggedFlag => "\\Flagged"
    case DeletedFlag => "\\Deleted"
    case DraftFlag => "\\Draft"
    case RecentFlag => "\\Recent"
    case MayCreateFlag => "\\*"
    case CustomFlag(s) => s
  }

  /** `Flag::from_strs`. */
  function FlagsOf(texts: seq<bytes>): (flags: seq<Flag>)
    ensures |flags| == |texts|
    ensures forall i :: 0 <= i < |texts| ==> flags[i] == FlagOf(texts[i])
  {
    seq(|texts|, i requires 0 <= i < |texts| => FlagOf(texts[i]))
  }

  // ------------------------------------------------------------------ Errors

  datatype IoError = TimedOut | WouldBlock | OtherIo(description: bytes)

  datatype ParseError =
    | Invalid(input: bytes)
    | DataNotUtf8(input: bytes)
    | Authentication(input: bytes)

  /** `Panic` is not a value of the Rust type: it stands for a panic that unwinds out of the
      call, which propagates to callers exactly as an error passed on with `?` does. */
  datatype Error =
    | Io(io: IoError)
    | Bad(code: Option<ResponseCode>, information: bytes)
    | No(code: Option<ResponseCode>, information: bytes)
    | Bye(code: Option<ResponseCode>, information: bytes)
    | ConnectionLost
    | Parse(parse: ParseError)
    | Validate(synopsis: bytes, argument: bytes, offending: char)
    | Append
    | Unexpected(response: Response)
    | MissingStatusResponse
    | TagMismatch(expected: u32, actual: Result<u32, bytes>)
    | Panic

  type Res<+T> = Result<T, Error>

  // ------------------------------------------------------------------ Unsolicited responses

  datatype UnsolicitedResponse =
    | UBye(code: Option<ResponseCode>, information: Option<bytes>)
    | UExists(count: u32)
    | UExpunge(number: u32)
    | UFetch(number: u32, attributes: seq<bytes>)
    | UFlags(flags: seq<Flag>)
    | UMetadata(mailbox: bytes, entries: seq<bytes>)
    | UOk(code: Option<ResponseCode>, information: Option<bytes>)
    | URecent(count: u32)
    | UStatus(mailbox: bytes, items: seq<StatusAttribute>)
    | UVanished(earlier: bool, uids: seq<Range>)

  /** `UnsolicitedResponse::try_from`; `None` stands for the error that hands the response back. */
  function Convert(r: Response): Option<UnsolicitedResponse> {
    match r
    case Data(BYE, code, information) => Some(UBye(code, information))
    case Data(OK, code, information) => Some(UOk(code, information))
    case Expunge(n) => Some(UExpunge(n))
    case Fetch(n, attributes) => Some(UFetch(n, attributes))
    case MailboxData(Exists(n)) => Some(UExists(n))
    case MailboxData(Flags(flags)) => Some(UFlags(FlagsOf(flags)))
    case MailboxData(MetadataUnsolicited(mailbox, entries)) => Some(UMetadata(mailbox, entries))
    case MailboxData(Recent(n)) => Some(URecent(n))
    case MailboxData(StatusOf(mailbox, items)) => Some(UStatus(mailbox, items))
    case Vanished(earlier, uids) => Some(UVanished(earlier, uids))
    case _ => None
  }

  predicate Convertible(r: Response) {
    Convert(r).Some?
  }

  // ------------------------------------------------------------------ What the conversions mean

  /** The texts of the system flags (section 2.3.2 of RFC 3501, and `\*`). */
  lemma SystemFlags()
    ensures FlagOf("\\Seen") == SeenFlag && FlagOf("\\Answered") == AnsweredFlag
    ensures FlagOf("\\Flagged") == FlaggedFlag && FlagOf("\\Deleted") == DeletedFlag
    ensures FlagOf("\\Draft") == DraftFlag && FlagOf("\\Recent") == RecentFlag && FlagOf("\\*") == MayCreateFlag
  {
  }

  predicate IsSystemText(s: bytes) {
    s in {"\\Seen", "\\Answered", "\\Flagged", "\\Deleted", "\\Draft", "\\Recent", "\\*"}
  }

  /** A flag as it is read: a system flag is never a custom one. */
  predicate IsReadFlag(f: Flag) {
    f.CustomFlag? ==> !IsSystemText(f.text)
  }

  /** Reading a flag is the inverse of printing it, onto the flags that can be read. */
  lemma FlagReadsBackIff(s: bytes, f: Flag)
    ensures FlagOf(s) == f <==> FlagText(f) == s && IsReadFlag(f)
  {
  }

  function TextsOf(flags: seq<Flag>): (texts: seq<bytes>)
    ensures |texts| == |flags|
    ensures forall i :: 0 <= i < |flags| ==> texts[i] == FlagText(flags[i])
  {
    seq(|flags|, i requires 0 <= i < |flags| => FlagText(flags[i]))
  }

  predicate AreReadFlags(flags: seq<Flag>) {
    forall i :: 0 <= i < |flags| ==> IsReadFlag(flags[i])
  }

  lemma FlagsReadBackIff(texts: seq<bytes>, flags: seq<Flag>)
    ensures FlagsOf(texts) == flags <==> texts == TextsOf(flags) && AreReadFlags(flags)
  {
    if FlagsOf(texts) == flags {
      forall i | 0 <= i < |flags|
        ensures texts[i] == TextsOf(flags)[i] && IsReadFlag(flags[i])
      {
        FlagReadsBackIff(texts[i], flags[i]);
      }
    }
    if texts == TextsOf(flags) && AreReadFlags(flags) {
      forall i | 0 <= i < |flags|
        ensures FlagsOf(texts)[i] == flags[i]
      {
        FlagReadsBackIff(texts[i], flags[i]);
      }
    }
  }

  /** The response that an unsolicited response was made from. */
  function Origin(u: UnsolicitedResponse): Response {
    match u
    case UBye(code, information) => Data(BYE, code, information)
    case UExists(n) => MailboxData(Exists(n))
    case UExpunge(n) => Expunge(n)
    case UFetch(n, attributes) => Fetch(n, attributes)
    case UFlags(flags) => MailboxData(Flags(TextsOf(flags)))
    case UMetadata(mailbox, entries) => MailboxData(MetadataUnsolicited(mailbox, entries))
    case UOk(code, information) => Data(OK, code, information)
    case URecent(n) => MailboxData(Recent(n))
    case UStatus(mailbox, items) => MailboxData(StatusOf(mailbox, items))
    case UVanished(earlier, uids) => Vanished(earlier, uids)
  }

  /** Conversion goes back to `Origin`, and nowhere else: nothing is lost or mixed up. */
  lemma ConvertIff(r: Response, u: UnsolicitedResponse)
    ensures Convert(r) == Some(u) <==> r == Origin(u) && (u.UFlags? ==> AreReadFlags(u.flags))
  {
    if r.MailboxData? && r.datum.Flags? && u.UFlags? {
      FlagsReadBackIff(r.datum.flags, u.flags);
    }
  }

  /** The kinds of responses that convert. */
  lemma ConvertibleIff(r: Response)
    ensures Convertible(r) <==>
            match r
            case Data(status, _, _) => status == OK || status == BYE
            case Expunge(_) => true
            case Fetch(_, _) => true
            case Vanished(_, _) => true
            case MailboxData(datum) =>
              datum.Exists? || datum.Recent? || datum.Flags? || datum.StatusOf? || datum.MetadataUnsolicited?
            case _ => false
  {
  }
}
