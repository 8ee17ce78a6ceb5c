# A verified model of the protocol engine of the `imap` crate

This project models how the `imap` crate talks to a server, and proves what its callers rely on.
It covers four connected parts:

1. **Commands and replies** (`Transport`, `Connections`, `Framing`, `Replies`, `Lockstep`): tags,
   lines, the incremental reader that rebuilds responses with literals from lines, and whole runs
   of commands against a server, also one that answers what it finds on the wire (`WireLockstep`). `Clients` builds LOGIN and the SASL handshake on it, `Sessions`
   the session's commands, APPEND among them (`AppendRuns` says when it keeps in step).
2. **Response parsers** (`Demultiplexing`, `Results`, `Mailboxes`, `ListStatus`,
   `MetadataResponses`, `QuotaResponses`, `DeletedResults`, `UnsolicitedRuns`, `Reports`): the framed buffer is
   parsed a second time, in one pass, and split into results and the queue of unsolicited responses.
3. **IDLE** (`Idling`, `IdleRuns`, `IdleDelivery`): the handle's state machine, its loop and its
   callback, over every pattern of timeouts, refreshes and failures.
4. **Printers that must be unambiguous** (`Quoting`, `Commands`, `Appending`, `AppendLines`, `Wire`,
   `AclRights`, `SortCriteria`, `Utils`), each with a reader that recovers what was printed.

## How it is modelled

- **The response grammar** (`imap_proto::parser::parse_response`) is foreign. `Parsing.Parser` is
  the type of all total functions that obey three laws (`ParserLaws`): a complete response is a
  non-empty prefix that ends in CRLF; more input never changes a verdict; a response is recognised
  as soon as its last octet is there. Every theorem is about every such parser. `SmallGrammar` is a
  concrete one, with literals, proved lawful; `SmallReplies` shows that in it there is, for every
  tag, an accepted reply whose literal holds anything at all; `SmallRuns` gives concrete inputs for
  what goes wrong.
- **The transport** (`Transport.Stream`) is a sequence of events to come, octets with faults
  anywhere between them (a timeout is a fault), and a script of what becomes of each write, partial
  writes included. Both are arbitrary. `Transport.Arrive` says what successful reads will deliver.
- **State** is in classes where the source has it: `Stream`, `Connection`, `Client`, `Session`,
  `Queue`, `Handle`. Their methods are proved equal to functions on the value of that state
  (`Conn`, `State`, `Idle`), and the theorems about whole runs are about these functions.
  `Connection.log` is a ghost record of the calls made and their outcomes; a call that is made as
  part of another one leaves no entry of its own, and all reads of one IDLE period are one entry.
- **An octet** is a `char`, so that keywords can be string literals; nothing depends on a bound.
- **Panics** are the error value `Panic`, since both leave a call in the same way.
- **The IDLE callback** is a function of all responses it has been called on so far, which is what
  a closure with state of its own amounts to.

## Where the code and its documentation or comments disagree

The model follows the code; the cited members say what that means.

- A line that does not parse is reported as `Error::Bye` (src/client.rs:1599):
  `Replies.ByeIff` says when.
- A write that fails rolls the tag back (src/client.rs:1514-1522) even if the line is on the wire and
  only the flush failed; the next command then takes the stale completion for its own:
  `WireLockstep.InStepOnTheWireIff`, `WireLockstep.StrayLineIsAnswered`.
- A reply that is completed NO or BAD takes its untagged data with it (src/client.rs:1530-1539):
  `UnsolicitedRuns.RefusedIsLost`.
- The handshake drops comments line by line, so the second line of one with a literal is taken for
  the reply (src/client.rs:484-487): `SmallRuns.CommentWithLiteral`.
- `parse_mailbox` has an `unreachable!()` that a server reaches with an untagged NO, BAD, BYE or
  PREAUTH (src/parse.rs:303-307): `Mailboxes.SelectPanicsIff`, `SmallRuns.SelectWithUntaggedNo`.
- `Handle::init` has an `unreachable!()` that a server reaches by completing IDLE at once with OK
  (src/extensions/idle.rs:117): `IdleRuns.InitPanicsIff`, `SmallRuns.IdleCompletedAtOnce`.
- A handle starts with `done: false` (src/extensions/idle.rs:94), so dropping one whose first IDLE
  was not accepted sends a DONE out of turn: `IdleRuns.IdleIsEndedOnce`.
- A timeout in the middle of a response loses what had been read of it
  (src/extensions/idle.rs:137-145): `IdleDelivery.TimedOutPeriod`.
- APPEND leaves out `\Recent` only if it was passed as the system flag; the server still reads it off
  the printed list if a custom flag brings it in (src/client.rs:238):
  `AppendLines.RecentReadIff`, `Appending.RecentInLowerCase`. Its mailbox is neither escaped nor
  checked (`AppendLines.AppendLineReadsBackIff`), so a line break in it derails the literal (src/client.rs:246-252):
  `Appending.MailboxWithLineBreak`.
- A STATUS before the first LIST goes to the first name (src/extensions/list_status.rs:58-61):
  `ListStatus.ExtendedNamesReport`. The mailbox named in a STATUS is not looked at
  (src/extensions/list_status.rs:68-87): `ListStatus.ForeignStatus`.
- `Deleted::is_empty` looks at the ranges, not at what they yield (src/types/deleted.rs:104-109):
  `DeletedResults.IsEmptyIff`.

## Model

| member | source | states |
|---|---|---|
| `Connections.Connection.ReadResponseOnto` | src/client.rs:1544-1637 | The line-by-line loop, with or without a first line already read, ends exactly like one-pass framing of everything that arrives: same result, same buffer, same events left. So a peeked line changes nothing, and the loop ends on every stream. |
| `Connections.Connection.ReadResponse` | src/client.rs:1535-1539 | The same from an empty buffer, with the whole new state of the connection. |
| `Connections.Connection.ReadLine` | src/client.rs:1639-1654 | One line up to the next LF or the remainder at the end; ConnectionLost exactly when nothing is left; a fault leaves the partial line in the buffer. |
| `Connections.Connection.WriteLine` | src/client.rs:1661-1669 | Text, CRLF and flush in that order, as far as they succeed. |
| `Connections.Connection.CreateCommand` | src/client.rs:1656-1659 | The tag moves on by one and prefixes the command. |
| `Connections.Connection.RunCommand` | src/client.rs:1514-1522 | The tag moves on exactly if the command is written; a failed write rolls it back. |
| `Connections.Connection.Run` | src/client.rs:1530-1533 | A command and the reply to it, as one change of state. |
| `Connections.Onwards` | src/client.rs:1558-1635 | One step of the loop: after a line is read, either the invariant holds again or the result is that of one-pass framing. |
| `Framing.AnsweredIff` | src/client.rs:1544-1637 | One-pass framing finds a completion exactly if the octets begin with complete untagged responses followed by that completion: sound and complete, in both directions. |
| `Framing.CompletedByWholeLine` | src/client.rs:1558-1605 | A response becomes complete only with the last octet of a line, however many LFs its literals contain: a successful parse leaves nothing over. |
| `Framing.NextLine` | src/client.rs:1558-1605 | What the verdict on the line just read says about the whole reply: completion, next response, continue from here, or malformed here. |
| `Replies.ReplyOkIff` | src/client.rs:1544-1637 | A reply is accepted with its completion at i exactly if what arrives begins with untagged responses up to i and then the OK completion of the expected tag; the buffer is precisely that and nothing beyond it is consumed. |
| `Replies.AnswerConsumed` | src/client.rs:1571-1632 | Whatever the status of the completion, it decides the outcome and exactly the reply is consumed. |
| `Replies.StatusDecides` | src/client.rs:1584-1632 | What each status of the completion comes to, with the text that the server gives or `no explanation given`. |
| `Framing.UnansweredIff` | src/client.rs:1544-1637 | The other two outcomes of one-pass framing in terms of the octets, in both directions: they run out exactly if there are only untagged responses and then nothing or the beginning of one more; they turn bad exactly if something malformed comes after untagged responses. |
| `Replies.LostIff` | src/client.rs:1639-1645 | ConnectionLost exactly if the stream holds no fault and only untagged responses and perhaps the beginning of one more. |
| `Replies.FaultIff` | src/client.rs:1639-1641 | A fault is passed on exactly if it comes before a completion or anything malformed. |
| `Replies.ByeIff` | src/client.rs:1599-1629 | The unexplained BYE is reported exactly if something malformed comes after untagged responses, or the server completes the command with just that. |
| `Replies.BadIsSeenAtOnce` | src/client.rs:1595-1605 | Something malformed is noticed at the end of the first line that shows it, and nothing beyond that line is consumed. |
| `Replies.ReplyWasFirst` | src/client.rs:1544-1637 | An accepted reply was at the front of what was pending, undisturbed by faults. |
| `Replies.MismatchIsNamed` | src/client.rs:1573-1582 | A completion with the tag of another command is reported with both numbers. |
| `Replies.FramingsAgree` | src/client.rs:1544-1606 | One-pass parsing of an accepted buffer sees the responses the incremental reader saw, then the completion, and nothing left over. |
| `Results.OkReplyCompleted` | src/parse.rs:187-188 | With or without the completion, such a buffer has a completion only as its last response, with status OK: what the assertions of the parsers rely on. |
| `Results.OnlyUnexpected` | src/parse.rs:96-115 | No parser that is handed an accepted reply meets anything it cannot parse: if it fails, then at a response that it neither claims nor can queue. |
| `Results.OnlyRefusals` | src/parse.rs:96-115 | The same for any way to route responses, that of SELECT included. |
| `Lockstep.RunsInLockstep` | src/client.rs:1514-1637 | For every run of fewer than 2^32 commands, with any writes failing, against a server that answers exactly the commands whose writes succeed: every call returns its own segment or its own failure, the stream ends up exactly past the last segment, and the tags written count upwards by one. |
| `WireLockstep.LockstepOnTheWire` | src/client.rs:1514-1637 | The same against a server that answers every line it finds on the wire, as long as no failed write leaves octets there. |
| `WireLockstep.WireIsDelivered` | src/client.rs:1514-1522 | Without such a residue the wire holds the lines of the successful commands and nothing else. |
| `WireLockstep.InStepOnTheWireIff` | src/client.rs:1514-1637 | If every failed write leaves nothing on the wire or all of its line, a run is in step exactly if none leaves its line, wherever in the run that is. |
| `WireLockstep.StrayLineIsAnswered` | src/client.rs:1514-1522 | What happens then, at any point of a run: the rolled-back tag is used again, the next command takes the stale completion for its own, and its own answer stays behind. |
| `SmallReplies.StaleEcho` | src/client.rs:1514-1522 | A concrete server with which that happens when only the flush fails. |
| `Lockstep.InStepAt` | src/client.rs:1530-1533 | Call by call: the i-th result is that of the segment numbered by the successful writes before it. |
| `Lockstep.RunsOwnSegment` | src/client.rs:1530-1539 | One command consumes exactly its own segment and nothing of the next. |
| `Lockstep.TagsPrintDistinctly` | src/client.rs:1656-1659 | Different tag numbers never print the same. |
| `SmallGrammar.SmallGrammarIsLawful` | src/client.rs:1562-1605 | A concrete grammar with literals obeys all the laws asked of the foreign parser. |
| `SmallReplies.ReplyWithLiteral` | src/client.rs:1544-1637 | In it there is, for every tag and every literal content, a reply that is accepted. |
| `SmallReplies.EchoServes` | src/client.rs:1514-1637 | And a server that answers every command line. |
| `Transport.ArriveAfterLine` | src/client.rs:1545-1556 | Putting a line that was read back in front changes nothing about what arrives. |
| `Transport.WriteThenFlushWrites` | src/client.rs:1661-1669 | A successful write puts exactly its octets on the wire, a failing one a prefix of them. |
| `Demultiplexing.ParseManyInto2` | src/parse.rs:78-118 | Outputs, queue and failure of the loop are those of the declarative demultiplexer, appended to what was there; the arm for an unconverted FETCH is dead. |
| `Demultiplexing.ParseManyInto` | src/parse.rs:37-61 | The one-output form; the second output stays empty on every path. |
| `Demultiplexing.ParseUntilDoneInternal` | src/parse.rs:120-140 | Exactly one result, or at most one if optional, else a parse error; the queue grows the same. |
| `Demultiplexing.ParseUntilDone` | src/parse.rs:159-170 | Success exactly with one result; the `expect` never fails. |
| `Demultiplexing.DemuxPartition` | src/parse.rs:78-118 | An order-preserving partition: up to the first refused response each is kept or queued, both in arrival order, and their numbers add up; it fails exactly on a refused response or an unparseable rest, which is then the failure. |
| `Demultiplexing.OutputsAre` | src/parse.rs:78-118 | Each output is all that the mapper gives to it, and the queue is made of the very responses that it gives back, in order, up to the first one that ends the parse; an unparseable rest is the failure. |
| `Demultiplexing.DemuxAppend` | src/parse.rs:78-118 | Parsing whole responses and then more equals parsing all of it. |
| `Demultiplexing.Queue.TryHandleUnilateral` | src/parse.rs:480-491 | A response is queued exactly if it converts, and otherwise handed back untouched. |
| `Responses.ConvertIff` | src/types/unsolicited_response.rs:162-207 | Conversion goes back to the response that each of the ten unsolicited kinds stands for, and to no other: nothing is lost or mixed up. |
| `Responses.ConvertibleIff` | src/types/unsolicited_response.rs:162-207 | The kinds of responses that convert: untagged OK and BYE, EXPUNGE, FETCH, VANISHED, EXISTS, RECENT, FLAGS, STATUS and unsolicited METADATA. |
| `Responses.FlagReadsBackIff` | src/types/flag.rs:57-117 | Reading a flag is the inverse of printing it, onto the flags in which no system flag is a custom one. |
| `Responses.SystemFlags` | src/types/flag.rs:57-68 | The texts of the system flags. |
| `Results.ParseNoop` | src/parse.rs:259-279 | Everything is queued; the first inconvertible response or unparseable rest is the failure. |
| `Results.ParseExpunge` | src/parse.rs:172-223 | Result, queue and failure from the claimed responses in order; the assertions on the completion never fail. |
| `Results.ExpungeReports` | src/parse.rs:172-223 | Over the whole reply: if any VANISHED lists a range, the UIDs are those in all their ranges in arrival order, and exactly those; otherwise the numbers of all EXPUNGE in arrival order with repeats. The mod sequence is that of the completion, and there is none without it. |
| `Results.ParseAppend` | src/parse.rs:225-257 | APPENDUID is read off the completion, whose assertions never fail; the rest is queued. |
| `Results.AppendReports` | src/parse.rs:225-257 | The UIDs are those in the code of the completion, and there are none without it. |
| `DeletedResults.ExpandElements` | src/types/deleted.rs:95-101 | The UIDs are those in the ranges, as many as the ranges' sizes together, up to the top of u32 included. |
| `DeletedResults.ExpandAscending` | src/types/deleted.rs:95-101 | Ascending ranges without overlap give strictly ascending UIDs. |
| `DeletedResults.IsEmptyIff` | src/types/deleted.rs:104-121 | is_empty agrees with iteration exactly unless there are ranges and all of them are inverted. |
| `Mailboxes.ParseMailbox` | src/parse.rs:281-366 | The fields of the mailbox as the loop leaves them are folds over the claimed responses; queue and failure likewise. |
| `Mailboxes.SelectReports` | src/parse.rs:281-366 | On success the mailbox is what all responses of the whole reply make of it; flag lists are the concatenation of all. |
| `Mailboxes.SelectedIsLast` | src/parse.rs:281-366 | On success each scalar is that of the last response of the reply that reports it: that one does, and no later one. If none does, the counts are 0 and the mailbox is writable. |
| `Reports.SelectReplyReadsBack` | src/parse.rs:281-366 | SELECT gives the very mailbox that the server reports, with STATUS and EXPUNGE anywhere in between. |
| `Mailboxes.SelectPanicsIff` | src/parse.rs:303-307 | The `unreachable!()` is hit exactly if the first response that cannot be taken is an untagged NO, BAD, BYE or PREAUTH. |
| `SmallRuns.SelectWithUntaggedNo` | src/parse.rs:303-307 | A concrete accepted reply that hits it. |
| `Mailboxes.ReadAttributes` | src/parse.rs:386-396 | The inner loop goes on from the attributes before it. |
| `Mailboxes.AttributesAreLast` | src/parse.rs:386-396 | Each field is that of the last attribute of its kind. |
| `Mailboxes.ParseStatus` | src/parse.rs:368-413 | Result, queue and failure; MissingStatusResponse exactly if there is no other failure and nothing matched. |
| `Mailboxes.StatusReports` | src/parse.rs:368-413 | Only attributes of the requested mailbox are used, all of them, and it is missing exactly if no STATUS names it. |
| `Mailboxes.OtherStatusQueued` | src/parse.rs:398-403 | The STATUS of any other mailbox is in the queue. |
| `Reports.StatusReplyReadsBack` | src/parse.rs:368-413 | STATUS gives the very state that the server reports, whatever other mailboxes it reports too. |
| `Mailboxes.ParseIdsWith` | src/parse.rs:415-446 | Any collection is extended by the id lists of SEARCH and SORT in order. |
| `Mailboxes.ParseIdSeq` | src/parse.rs:455-460 | All ids in order. |
| `Mailboxes.ParseIdSet` | src/parse.rs:448-453 | The set of exactly those ids, with the same queue and failure. |
| `Mailboxes.IdsReported` | src/parse.rs:415-446 | On success both report on the whole reply. |
| `Reports.SearchReadsBack` | src/parse.rs:415-446 | All ids that SEARCH and SORT responses list, in order, whatever comes in between. |
| `Reports.FetchReadsBack` | src/client.rs:638-654 | All messages that FETCH responses describe, in order and with all attributes. |
| `ListStatus.ParseExtendedNames` | src/extensions/list_status.rs:28-101 | The pairing loop computes the declarative pairing, and queues the rest. |
| `ListStatus.ExtendedNamesReport` | src/extensions/list_status.rs:35-101 | On any accepted reply entry i carries the last STATUS between LIST i and the next, and the first one possibly a STATUS before it. |
| `ListStatus.OneEntryPerList` | src/extensions/list_status.rs:35-101 | One entry per LIST, in order. |
| `ListStatus.StatusIsOwn` | src/extensions/list_status.rs:68-87 | The name in a STATUS is not looked at: an entry gets its own status if the last STATUS before the next LIST bears its name, and otherwise that of another mailbox. |
| `ListStatus.EntriesAreOwnIff` | src/extensions/list_status.rs:35-101 | If that holds for every LIST, every entry has the last STATUS of its own name; and only then, if no two mailboxes are reported to be in the same state. |
| `ListStatus.ForeignStatus` | src/extensions/list_status.rs:68-87 | A concrete reply that gives one mailbox the status of another. |
| `ListStatus.ListStatusRoundTrip` | src/extensions/list_status.rs:35-101 | What a server renders as LIST and STATUS comes back, whatever convertible responses are interleaved, and exactly those are queued. |
| `MetadataResponses.ParseMetadata` | src/extensions/metadata.rs:84-116 | The values of all METADATA responses in order; the rest is queued. |
| `MetadataResponses.MetadataReports` | src/extensions/metadata.rs:84-116 | On success these are all values of the whole reply. |
| `Reports.MetadataReadsBack` | src/extensions/metadata.rs:84-116 | All entries and values that METADATA responses list, in order, whatever comes in between. |
| `Reports.LongEntriesIff` | src/extensions/metadata.rs:199-212 | What was held back is the size in the code of the completion. |
| `Sessions.Session.ReadMetadata` | src/extensions/metadata.rs:169-217 | The buffer handed to the second parse is an accepted reply, so the second parse of the completion succeeds and its `unreachable!()` is not reached; result, queue and state. |
| `QuotaResponses.ParseQuotaRoot` | src/types/quota.rs:201-232 | Exactly one QUOTAROOT, with all quotas in order, or a parse error. |
| `QuotaResponses.QuotaRootReports` | src/types/quota.rs:207-230 | Both outputs report on the whole reply in order, and everything else is in the queue. |
| `Reports.QuotaReadsBack` | src/types/quota.rs:207-230 | All roots and all quotas that the server reports, each in order, however they are mixed. |
| `QuotaResponses.ParseQuota` | src/types/quota.rs:106-121 | Zero or one QUOTA, else a parse error. |
| `QuotaResponses.QuotaReports` | src/types/quota.rs:110-118 | The result is the only quota of the whole reply. |
| `Sessions.Session.Append` | src/client.rs:237-264 | The whole APPEND exchange as one change of state: command, continuation, literal, reply, queue. |
| `Sessions.AppendWrites` | src/client.rs:253-262 | Writing the content is attempted exactly if the command was written and the next line starts with `+`, whatever becomes of the writes. |
| `AppendLines.AppendLineReadsBackIff` | src/client.rs:237-252 | A server reads off the command line just the mailbox, the flags but the system flag `\Recent` in order, the date and the length of the content that were passed, exactly if the mailbox and the date need no escaping and the custom flags fit into the list. |
| `AppendRuns.AskedInStepIff` | src/client.rs:253-264 | With a server that asks for the literal, APPEND gets its own answer and leaves nothing unread exactly if the server says nothing else first; otherwise it gives up, the literal is never written and the request stays unread. |
| `AppendRuns.RefusedInStepIff` | src/client.rs:253-257 | With a server that answers without asking, nothing of the answer is left unread exactly if it is a single line. |
| `Wire.AppendOnTheWire` | src/client.rs:246-262 | If the write succeeds, what APPEND has written reads back as a literal: exactly the content, and only a CRLF left over. |
| `Appending.LiteralReadsBackIff` | src/client.rs:246-262 | A reader that takes as many octets as announced recovers any content, CRLFs and `{k}` included, exactly if there is no LF before the literal. |
| `AppendLines.RecentReadIff` | src/client.rs:238-252 | A server that reads the flag list of the command line up to the first closing parenthesis, as tokens separated by single spaces and ignoring case, reads `\Recent` off it exactly if some custom flag has such a token and no custom flag before it closes the list. |
| `Appending.RecentAfterWord` | src/client.rs:238 | A custom flag that does so after another word. |
| `Appending.RecentInLowerCase` | src/client.rs:238 | One in lower case, which the source does not take for the system flag. |
| `Appending.RecentThenClose` | src/client.rs:238 | One that closes the list. |
| `Appending.MailboxWithLineBreak` | src/client.rs:246-252 | A line break in the unchecked mailbox derails the literal. |
| `Utils.IterJoin` | src/utils.rs:4-31 | The loop joins the items with one delimiter between neighbours. |
| `Utils.SplitJoinIff` | src/utils.rs:4-31 | Splitting at spaces what was joined with them gives the items back exactly if none has a space in it. |
| `Quoting.TwoPassesAreEscape` | src/client.rs:26-30 | The two replacements of `quote!` are one-pass escaping. |
| `Quoting.QuotedReadsBackIff` | src/client.rs:26-30 | A reader of `quoted` stops at the closing quote and recovers the argument, whatever follows, exactly if it has no line break. |
| `Quoting.BareReadsBackIff` | src/client.rs:246-252 | Text put between quotes as it is, as APPEND does, reads back exactly if it needs no escaping. |
| `Quoting.ValidateStr` | src/client.rs:52-59 | Accepts exactly values without CR and LF, and then quotes them. |
| `Quoting.ValidateStrNoQuote` | src/client.rs:79-97 | Accepts exactly values without CR and LF, unchanged. |
| `Quoting.ValidateSequenceSet` | src/client.rs:112-131 | Accepts exactly values without ASCII whitespace, unchanged. |
| `Quoting.LoginReadsBack` | src/client.rs:407-412 | A LOGIN line is built exactly from arguments without line breaks, and decodes to them. |
| `Quoting.SetMetadataReadsBack` | src/extensions/metadata.rs:242-254 | The same for a mailbox and any list of entries with a value or NIL. |
| `Wire.LoginWrites` | src/client.rs:401-417 | The bytes written are one line with one LF, its last octet, which decodes to the arguments, or a part of it if the write fails; nothing is written if an argument is refused. |
| `Wire.LoginSucceedsIff` | src/client.rs:401-417 | A session exactly if the arguments have no line break, the line goes out and what arrives begins with an OK reply to it. |
| `Quoting.LoginBlames` | src/client.rs:407-410 | A refused LOGIN names the first argument with a line break. |
| `Wire.SetMetadataWrites` | src/extensions/metadata.rs:242-255 | The same for SETMETADATA. |
| `Wire.SetMetadataSucceedsIff` | src/extensions/metadata.rs:242-255 | The same for SETMETADATA. |
| `Quoting.SetMetadataBlames` | src/extensions/metadata.rs:29-45 | A refused SETMETADATA names the first entry or value with a line break, numbered from one, and the mailbox only after all of them. |
| `Commands.CommandReadsBack` | src/client.rs:560-1453 | What a server reads off the command line of every other operation is what was passed to it: GETMETADATA with its entries, depth and limit, LIST with reference, pattern and items, FETCH with set and query, and so on. |
| `Commands.CommandRefusedIff` | src/client.rs:52-131 | Which operations are refused before anything is written: exactly those with a line break in an argument that is checked, or white space in a sequence set. |
| `Commands.CommandBlames` | src/client.rs:52-131 | A refused command names the argument at fault. |
| `Sessions.Session.SetMetadata` | src/extensions/metadata.rs:242-255 | The exchange as one change of state. |
| `Clients.Client.Login` | src/client.rs:401-417 | The exchange as one change of state; a session exactly on success, with an empty queue. |
| `Clients.Client.Authenticate` | src/client.rs:459-469 | AUTHENTICATE and then the handshake. |
| `Wire.AuthenticateWrites` | src/client.rs:459-469 | AUTHENTICATE goes out with the mechanism, and the handshake takes over. |
| `Clients.Client.DoAuthHandshake` | src/client.rs:472-525 | The loop computes the recursive handshake, its peeked line handed on to the reply reader. |
| `Clients.HandshakeIsOrderly` | src/client.rs:472-525 | For every server and every failure: each continuation `+ data` is answered by one line, the encoding of what the authenticator says to the decoding of `data`, and `+` alone by what it says to the empty challenge, before anything more is read; a challenge that is not UTF-8, does not end its line or does not decode ends it with that failure; a session comes only of the accepted reply, as the last call. |
| `Clients.SessionIff` | src/client.rs:472-525 | There is a session exactly if the handshake comes to a reply, and what arrives from there on begins with untagged responses and the completion with the tag of AUTHENTICATE and status OK. |
| `Clients.ReplyIsFirstOther` | src/client.rs:484-523 | Where that is: right after complete lines each of which is a comment or a continuation, at the first line that is neither, whatever that line is part of. |
| `Clients.DroppedIff` | src/client.rs:484-487 | What the server says is dropped exactly if every line of it begins with `* `. |
| `Clients.HandshakeFollowsScript` | src/client.rs:472-525 | For every script of one-line comments, valid continuations and a completion, as long as the writes concerned succeed: exactly which calls are made, the outcome, and where the stream stands. |
| `Clients.ReactionsWritten` | src/client.rs:513-519 | Then exactly one line for each continuation is on the wire. |
| `SmallRuns.CommentWithLiteral` | src/client.rs:484-487 | A comment whose literal makes the handshake fail although the server completes it. |
| `SmallRuns.SessionOutOfLiteral` | src/client.rs:484-523 | The text of the completion in a comment's literal makes a session, whatever the server sends after it. |
| `SmallRuns.SessionDespiteRefusal` | src/client.rs:484-523 | So even if the server sends that comment and then NO, which, read as a reply, is a refusal. |
| `Clients.BothEmptyChallenges` | src/client.rs:490-512 | `+` and `+ ` both ask with the empty challenge, the latter exactly if nothing decodes to nothing. |
| `Wire.ReactionsArriveAsLines` | src/client.rs:514-519 | If encodings have no LF, the server finds one line on the wire per continuation. |
| `Sessions.Session.DoNoop` | src/client.rs:677-680 | The operation's change of state, queue included, and its failure. |
| `Sessions.Session.Search` | src/client.rs:1264-1267 | The same for SEARCH: the ids of the whole reply. |
| `Sessions.Session.Fetch` | src/client.rs:638-654 | The same for FETCH; an empty set sends nothing. |
| `Sessions.Session.Status` | src/client.rs:1154-1166 | The same for STATUS. |
| `Sessions.Session.ListStatus` | src/extensions/list_status.rs:141-155 | The same for LIST with STATUS. |
| `Sessions.Session.Expunge` | src/client.rs:817-821 | The same for EXPUNGE. |
| `Sessions.Session.Select` | src/client.rs:560-566 | The same for SELECT. |
| `Sessions.Session.QuotaRoots` | src/client.rs:1447-1453 | The same for GETQUOTAROOT. |
| `Sessions.Session.TakeAllUnsolicited` | src/client.rs:538-540 | Takes the whole queue and leaves it empty. |
| `UnsolicitedRuns.QueueHoldsAllHeard` | src/client.rs:538-540 | For every interleaving of operations and of taking the queue: batches taken plus queue equal, in order, what was there plus, operation by operation, the conversions of what its parser does not take of its reply up to the first response it refuses, if the reply was accepted, and nothing otherwise. |
| `UnsolicitedRuns.QueueIsMadeOfUntaken` | src/client.rs:538-540 | The same in terms of the responses themselves: batches and queue are made of what was there and then of just the responses that the parsers did not take, in order. |
| `UnsolicitedRuns.TakenIff` | src/parse.rs:172-446 | The kinds of responses that the parser of each operation takes. |
| `UnsolicitedRuns.HandedOn` | src/client.rs:1524-1539 | Which parsers are given the completion, and which only what comes before it. |
| `UnsolicitedRuns.AcceptedIsHeard` | src/parse.rs:172-446 | A reply counts as accepted exactly as the server sends it: untagged responses and the OK completion. |
| `UnsolicitedRuns.RefusedIsLost` | src/client.rs:1530-1539 | The untagged data of a reply completed with another status, such as NO or BAD, is consumed and never gets into the queue. |
| `SmallRuns.ExistsIsLost` | src/client.rs:1530-1539 | A concrete reply to NOOP whose EXISTS is lost like that. |
| `UnsolicitedRuns.QueuedIsUnsolicited` | src/parse.rs:172-446 | A parser queues exactly the conversions of the responses it does not take, in order, up to the first one it refuses. |
| `UnsolicitedRuns.RefusedIsForeign` | src/parse.rs:172-446 | Only what it does not take is refused, and, other than by SELECT, only what does not convert. |
| `Idling.Handle.Init` | src/extensions/idle.rs:98-118 | IDLE, the next line and possibly the reply that starts with it, as one change of state. |
| `IdleRuns.InitAcceptedIff` | src/extensions/idle.rs:98-112 | IDLE is accepted exactly if it is written and the next line starts with `+`. |
| `IdleRuns.IdleOnTheWire` | src/extensions/idle.rs:98-128 | What goes out: `IDLE` with the next tag, `DONE`, and nothing if it is done. |
| `IdleRuns.WaitWithoutKeepalive` | src/extensions/idle.rs:186-240 | Without keepalive a timeout ends the wait successfully with the IDLE still open; a failure to set the timeout is passed on. |
| `IdleRuns.InitPanicsIff` | src/extensions/idle.rs:114-117 | The `unreachable!()` is reached exactly if IDLE is written, the next line is there and not a continuation, and what the server sends begins with untagged responses and the OK completion of IDLE. |
| `SmallRuns.IdleCompletedAtOnce` | src/extensions/idle.rs:114-117 | The completion alone as the answer reaches it. |
| `Idling.Handle.Terminate` | src/extensions/idle.rs:120-128 | Sends DONE once and waits for the completion of the IDLE's own tag. |
| `Idling.Handle.Attend` | src/extensions/idle.rs:137-184 | The waiting loop delivers exactly what one-pass delivery of everything that arrives does; at each loop head its buffer is empty or an incomplete response, and the assertion on partial parses never fails. |
| `Idling.Handle.WaitInner` | src/extensions/idle.rs:133-196 | Waiting with reconnection, as a change of state. |
| `Idling.Handle.WaitWhile` | src/extensions/idle.rs:221-240 | The same from IDLE on. |
| `Idling.Handle.Drop` | src/extensions/idle.rs:243-248 | Ends what is not done, whatever fails. |
| `Idling.WatchedLine` | src/extensions/idle.rs:146-180 | What the line just read means for the whole delivery: dropped as a reminder, delivered, refused or part of a response to come; a complete response is all of the buffer. |
| `IdleRuns.IdleIsEndedOnce` | src/extensions/idle.rs:120-248 | For every pattern of timeouts, refreshes and failures, if the first IDLE is written and the next line is a continuation: a new IDLE only after the previous one's completion, each DONE followed by the completion of its own tag, DONEs never more than accepted IDLEs and as many after the drop. Otherwise the drop tries one DONE out of turn. |
| `IdleRuns.InOrderBalanced` | src/extensions/idle.rs:120-128 | In calls that are in order exactly the IDLE that is open has not been ended. |
| `IdleRuns.WaitInOrder` | src/extensions/idle.rs:186-195 | Refreshing keeps the calls in order, and `done` says exactly whether an IDLE is open. |
| `IdleDelivery.DeliveredExactly` | src/extensions/idle.rs:137-184 | On any input the callback is called on the first complete responses that are not reminders, in order, and delivery ends only where it stops, at an inconvertible response, or at something malformed. |
| `IdleDelivery.PeriodEndsIff` | src/extensions/idle.rs:137-182 | How a period ends, in both directions: a timeout exactly if the delivery runs out of octets at a fault that is TimedOut or WouldBlock; any other fault is passed on; the end of the stream is a lost connection; a change exactly if the callback stops it. |
| `Text.LowerIff` | src/extensions/idle.rs:147-151 | Characters are the same but for case exactly if they are equal or the two cases of an ASCII letter. |
| `SmallRuns.RemindersAreDropped` | src/extensions/idle.rs:147-151 | The reminder is dropped whatever its case, and similar lines are not reminders. |
| `IdleDelivery.TimedOutPeriod` | src/extensions/idle.rs:137-145 | A period that times out delivers exactly the notices of the script; what had been read of an incomplete response makes no difference: it is lost. |
| `IdleDelivery.StoppedPeriod` | src/extensions/idle.rs:156-159 | A period that the callback ends has delivered everything up to there and consumes nothing beyond. |
| `IdleDelivery.AfterTimeout` | src/extensions/idle.rs:186-195 | Whatever arrives after a timeout, the rest of a response that has been cut off included, is read as the reply to DONE: the wait goes on exactly as that and the next IDLE allow, with all that has been delivered. |
| `IdleDelivery.KeptAlive` | src/extensions/idle.rs:186-195 | However often the wait is refreshed, if what arrives after each timeout is such a reply and the writes concerned succeed, the callback sees the notices of all rounds in order, once each, and none of a response that a timeout cuts off or of what arrives between DONE and the completion. |
| `SmallRuns.CutResponseEndsWait` | src/extensions/idle.rs:137-195 | A concrete response cut in two by a timeout: its rest is taken for the reply to DONE, the wait fails, and the callback is never called on it. |
| `AclRights.Display` | src/types/acls.rs:40-48 | Prints the sorted letters, the same in whatever order the set is iterated over. |
| `AclRights.OrderIrrelevant` | src/types/acls.rs:40-48 | Any two orders of iteration print the same. |
| `AclRights.CanonicalForm` | src/types/acls.rs:40-81 | Parsing and printing gives the strictly ascending string of the distinct characters. |
| `AclRights.RightsAcceptedIff` | src/types/acls.rs:67-81 | Accepted are exactly strings of ASCII lower-case letters and digits, and all their rights. |
| `AclRights.PrintEqualIff` | src/types/acls.rs:40-81 | Two strings print equal exactly if they have the same characters. |
| `AclRights.PrintThenParseIff` | src/types/acls.rs:40-81 | Printing and parsing is the identity exactly on sets in which every right is that of a lower-case letter or digit. |
| `SortCriteria.CriteriaReadBack` | src/extensions/sort.rs:13-79 | A reader recovers any list of criteria, however nested, from its text. |
| `SortCriteria.PrintingIsInjective` | src/extensions/sort.rs:13-79 | Different lists never print the same. |
| `Text.DecimalReadsBack` | src/client.rs:1656-1659 | A printed number reads back. |

## Left out

- `ReadResponseOnto` and all that builds on it take the laws of the response parser as given for `imap_proto`, whose grammar is not part of this model.
- `InStepOnTheWireIff` leaves out failed writes that put a part of their line on the wire: what a server makes of the line that the next command is then appended to is up to the server.
- `Connection.CreateCommand` wraps the tag after 2^32 commands as a release build does; a debug build panics there. Lockstep is stated for fewer commands than that.
- `Connection.skip_tag`, `read_greeting` and its `greeting_read` flag: one-line methods outside of the command loop.
- `Client.DoAuthHandshake` has UTF-8 checking, base64 and the authenticator as parameters; the only facts used of them are stated where they are used. The authenticator is a function of the challenge.
- `HandshakeFollowsScript` takes comments to be single lines; `DroppedIff` says exactly which others are dropped like them.
- `IdleIsEndedOnce` is about one `wait_while` per handle; a second one on a handle whose IDLE is still open would send an IDLE within it.
- `Handle.WaitWhile` has the outcome of setting the read timeout as a parameter; clocks are not modelled, a timeout is a fault that may come at any point. Resetting the timeout has no effect in the model.
- `Handle.Attend` is the loop inside `wait_inner` as a method of its own.
- `Commands.CommandReadsBack` asks for a LIST pattern without spaces, since the source does not quote it; the argument of SEARCH, the items of STATUS and the query of FETCH are the rest of their lines as they are.
- `AppendMessage` has the date as already formatted text; `chrono` is not part of this model.
- `Wire.AppendOnTheWire` asks for no LF before the literal, which the source does not check for the mailbox and custom flags; `LiteralReadsBackIff` says that this is exactly when it works.
- `AclRights.Display` sorts with a specification of `sort_unstable`; the conversions between rights and letters of `imap_proto` are parameters with the law that a letter's right has that letter.
- `IterJoin` writes to a string, which cannot fail; `iter_join_onto` with a failing writer is not modelled.
- `Mailboxes.ParseMailbox` and the other parsers that expect the completion are stated for buffers of accepted replies, the only ones the session passes to them.
- FETCH attributes, names, capabilities and other payloads are kept as texts: the accessors on them are simple lookups.
- The other session commands (EXAMINE, UID variants, STORE, COPY, MOVE, LIST, LSUB, ACL and SETQUOTA commands and so on) format one line and call `run`, as those modelled do; some do not validate their arguments.
- Debug printing, error texts, TLS, TCP and `ClientBuilder`: no behaviour of the protocol engine.
- Ownership, `Cow` and self-references: they vanish in Dafny.
