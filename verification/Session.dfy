/**
 `Session`: commands that read a reply and split it into a result and unsolicited responses
 (src/client.rs, src/extensions).
 */
module Sessions {
  import opened Wrappers
  import opened Text
  import opened Responses
  import opened Parsing
  import opened Transport
  import opened Connections
  import opened Replies
  import opened Folds
  import opened Demultiplexing
  import opened Results
  import opened DeletedResults
  import opened Mailboxes
  import opened ListStatus
  import opened QuotaResponses
  import opened MetadataResponses
  import opened Appending
  import opened Quoting
  import opened Utils

  // ------------------------------------------------------------------ The operations

  datatype Op =
    | Noop
    | SearchFor(query: bytes)
    | FetchMessages(sequenceSet: bytes, query: bytes)
    | SelectMailbox(mailbox: bytes)
    | StatusOfMailbox(mailbox: bytes, items: bytes)
    | ExpungeMessages
    | AppendMessage(args: AppendArgs)
    | GetMetadata(target: Option<bytes>, entries: seq<bytes>, depth: Depth, maxSize: Option<nat>)
    | ListWithStatus(reference: Option<bytes>, pattern: Option<bytes>, items: bytes)
    | GetQuotaRoot(mailbox: bytes)

  /** The command line of an operation, or the validation failure that keeps it from being sent. */
  function CommandOf(op: Op): Res<bytes> {
    match op
    case Noop => Success("NOOP")
    case SearchFor(query) => Success("SEARCH " + query)
    case FetchMessages(sequenceSet, query) =>
      var seqs :- ValidateSequenceSet("FETCH", "seq", sequenceSet);
      var q :- ValidateStrNoQuote("FETCH", "query", query);
      Success("FETCH " + seqs + " " + q)
    case SelectMailbox(mailbox) =>
      var name :- ValidateStr("SELECT", "mailbox", mailbox);
      Success("SELECT " + name)
    case StatusOfMailbox(mailbox, items) =>
      var name :- ValidateStr("STATUS", "mailbox", mailbox);
      Success("STATUS " + name + " " + items)
    case ExpungeMessages => Success("EXPUNGE")
    case AppendMessage(args) => Success(AppendCommand(args))
    case GetMetadata(target, entries, depth, maxSize) => GetMetadataCommand(target, entries, depth, maxSize)
    case ListWithStatus(reference, pattern, items) =>
      var r :- ValidateStr("LIST-STATUS", "reference", OrElse(reference, ""));
      Success("LIST " + r + " " + OrElse(pattern, "\"\"") + " RETURN (STATUS " + items + ")")
    case GetQuotaRoot(mailbox) =>
      var name :- ValidateStr("GETQUOTAROOT", "mailbox", mailbox);
      Success("GETQUOTAROOT " + name)
  }

  /** Whether the parser of the operation is handed the completion too. */
  predicate WithCompletion(op: Op) {
    op.SelectMailbox? || op.ExpungeMessages? || op.AppendMessage?
  }

  /** `data.truncate(ok)`. */
  function Truncate(a: Answer): bytes {
    if a.done <= |a.data| then a.data[..a.done] else a.data
  }

  function LinesOf(op: Op, a: Answer): bytes {
    if WithCompletion(op) then a.data else Truncate(a)
  }

  // ------------------------------------------------------------------ APPEND

  /** `AppendCmd::finish` up to the reply. */
  function FinishAppend(p: Parser, c: Conn, a: AppendArgs): (Res<Answer>, Conn) {
    var (sent, c1) := SendCommand(c, AppendCommand(a));
    if sent.Failure? then (Failure(sent.error), c1)
    else
      var (line, c2) := TakeLine(c1);
      if line.Failure? then (Failure(line.error), c2)
      else if !StartsWith(line.value, "+") then (Failure(Error.Append), c2)
      else
        var (wrote, out) := WriteThenFlush(c2.out, [a.content, CRLF]);
        var c3 := c2.(out := out);
        if wrote.Failure? then (Failure(wrote.error), c3) else TakeReply(p, c3)
  }

  /** Writing the content is attempted exactly if the command was written and the next line starts
      with `+`; if it succeeds, the command line and the literal are what has been written. */
  lemma AppendWrites(p: Parser, c: Conn, a: AppendArgs)
    ensures var (r, c') := FinishAppend(p, c, a);
            var (sent, c1) := SendCommand(c, AppendCommand(a));
            var line := NextRead(c.incoming);
            var agreed := line.Line? && StartsWith(line.line, "+");
            var (wrote, out) := WriteThenFlush(c1.out, [a.content, CRLF]);
            var command := CommandLine(NextTag(c.tag), AppendCommand(a)) + CRLF;
            && c'.out == (if sent.Success? && agreed then out else c1.out)
            && (sent.Success? ==> c1.out.written == c.out.written + command)
            && (sent.Success? && wrote.Success? ==> out.written == c.out.written + command + (a.content + CRLF))
            && (sent.Success? && line.Line? && !agreed ==> r == Failure(Error.Append))
  {
    hide ReadReply, WriteThenFlush, NextRead, AfterRead, AppendCommand;
    var c1 := SendCommand(c, AppendCommand(a)).1;
    WriteThenFlushWrites(c.out, [CommandLine(NextTag(c.tag), AppendCommand(a)), CRLF]);
    FlattenTwo(CommandLine(NextTag(c.tag), AppendCommand(a)), CRLF);
    WriteThenFlushWrites(c1.out, [a.content, CRLF]);
    FlattenTwo(a.content, CRLF);
  }

  lemma FlattenTwo(a: bytes, b: bytes)
    ensures Flatten([a, b]) == a + b
  {
    assert [a, b][1..] == [b] && [b][1..] == [];
    assert Flatten([b]) == b + [] == b;
  }

  // ------------------------------------------------------------------ Running an operation

  /** Runs the command of an operation; the result is the buffer that its parser is handed. */
  function RunOp(p: Parser, c: Conn, op: Op): (Res<bytes>, Conn) {
    if op.FetchMessages? && op.sequenceSet == [] then (Success([]), c)
    else
      match CommandOf(op)
      case Failure(e) => (Failure(e), c)
      case Success(command) =>
        var (answer, c') := if op.AppendMessage? then FinishAppend(p, c, op.args)
                            else RunCommandAndReply(p, c, command);
        if answer.Failure? then (Failure(answer.error), c')
        else (Success(LinesOf(op, answer.value)), c')
  }

  predicate Claims(op: Op, r: Response)
    requires !op.SelectMailbox?
  {
    match op
    case Noop => false
    case SearchFor(_) => IdsClaims(r)
    case FetchMessages(_, _) => r.Fetch?
    case StatusOfMailbox(mailbox, _) => IsStatusOf(r, mailbox)
    case ExpungeMessages => ExpungeClaims(r)
    case AppendMessage(_) => AppendClaims(r)
    case GetMetadata(_, _, _, _) => MetadataClaims(r)
    case ListWithStatus(_, _, _) => ListClaims(r)
    case GetQuotaRoot(_) => r.QuotaRoot? || r.Quota?
  }

  /** How an operation treats a response: it is claimed, queued or refused. */
  function RouteFor(op: Op): Response -> Route<Response> {
    r =>
      if op.SelectMailbox? then MailboxRoute(r)
      else if Claims(op, r) then Claimed(r)
      else Unclaimed(r)
  }

  /** What an operation adds to the unsolicited queue. */
  function Gain(p: Parser, c: Conn, op: Op): seq<UnsolicitedResponse> {
    match RunOp(p, c, op).0
    case Failure(_) => []
    case Success(lines) => Demux(p, RouteFor(op), lines).queued
  }

  datatype State = State(conn: Conn, queue: seq<UnsolicitedResponse>)

  function Perform(p: Parser, s: State, op: Op): State {
    State(RunOp(p, s.conn, op).1, s.queue + Gain(p, s.conn, op))
  }

  /** SETMETADATA: nothing is written if an argument is refused. */
  function StoreMetadata(p: Parser, c: Conn, mailbox: bytes, annotations: seq<Metadata>): (Res<()>, Conn) {
    match SetMetadataCommand(mailbox, annotations)
    case Failure(e) => (Failure(e), c)
    case Success(command) =>
      var (answer, c1) := RunCommandAndReply(p, c, command);
      (if answer.Success? then Success(()) else Failure(answer.error), c1)
  }

  /** The buffer of a reply is fit for the parsers that are handed the completion. */
  lemma RepliesAreCompleted(p: Parser, c: Conn)
    requires TakeReply(p, c).0.Success?
    ensures var a := TakeReply(p, c).0.value;
            && a.done < |a.data| && OkReply(p, c.tag, a.data, a.done)
            && Completed(SplitAll(p, a.data)) && Completed(SplitAll(p, Truncate(a)))
  {
    AnswerIsOkReply(p, c);
    OkReplyCompleted(p, c.tag, TakeReply(p, c).0.value.data, TakeReply(p, c).0.value.done);
  }

  lemma RunIsCompleted(p: Parser, c: Conn, command: bytes)
    requires RunCommandAndReply(p, c, command).0.Success?
    ensures var a := RunCommandAndReply(p, c, command).0.value;
            && a.done < |a.data| && OkReply(p, NextTag(c.tag), a.data, a.done)
            && Completed(SplitAll(p, a.data)) && Completed(SplitAll(p, Truncate(a)))
  {
    RepliesAreCompleted(p, SendCommand(c, command).1);
  }

  // ------------------------------------------------------------------ The session

  class Session {
    const conn: Connection
    const unsolicited: Queue

    constructor (conn: Connection)
      ensures this.conn == conn && fresh(unsolicited) && unsolicited.items == []
    {
      this.conn := conn;
      unsolicited := new Queue();
    }

    ghost function Snapshot(): State
      reads conn, conn.stream, unsolicited
    {
      State(conn.State(), unsolicited.items)
    }

    method RunCommandAndReadResponse(command: bytes) returns (r: Res<bytes>)
      modifies conn, conn.stream
      ensures var (answer, c) := RunCommandAndReply(conn.parse, old(conn.State()), command);
              && conn.State() == c
              && r == if answer.Failure? then Failure(answer.error) else Success(Truncate(answer.value))
    {
      var answer := conn.Run(command);
      if answer.Failure? {
        return Failure(answer.error);
      }
      RunIsCompleted(conn.parse, old(conn.State()), command);
      r := Success(answer.value.data[..answer.value.done]);
    }

    method DoNoop() returns (r: Res<()>)
      modifies conn, conn.stream, unsolicited
      ensures Snapshot() == Perform(conn.parse, old(Snapshot()), Noop)
      ensures var lines := RunOp(conn.parse, old(conn.State()), Noop).0;
              ErrorOf(r) == if lines.Failure? then Some(lines.error)
                            else Demux(conn.parse, RouteFor(Noop), lines.value).error
    {
      ghost var given := RunOp(conn.parse, conn.State(), Noop).0;
      var lines := RunCommandAndReadResponse("NOOP");
      assert lines == given;
      if lines.Failure? {
        return Failure(lines.error);
      }
      SameRoutes(conn.parse, Noop, NoClaims, lines.value);
      r := ParseNoop(conn.parse, lines.value, unsolicited);
    }

    method Search(query: bytes) returns (r: Res<set<u32>>)
      modifies conn, conn.stream, unsolicited
      ensures Snapshot() == Perform(conn.parse, old(Snapshot()), SearchFor(query))
      ensures var lines := RunOp(conn.parse, old(conn.State()), SearchFor(query)).0;
              var d := Demux(conn.parse, RouteFor(SearchFor(query)), if lines.Success? then lines.value else []);
              r == if lines.Failure? then Failure(lines.error)
                   else if d.error.Some? then Failure(d.error.value)
                   else Success(set id | id in Collect(IdsIn, ResponsesOf(conn.parse, lines.value)))
    {
      ghost var op := SearchFor(query);
      ghost var given := RunOp(conn.parse, conn.State(), op).0;
      var lines := RunCommandAndReadResponse("SEARCH " + query);
      assert lines == given;
      if lines.Failure? {
        return Failure(lines.error);
      }
      SameRoutes(conn.parse, op, IdsClaims, lines.value);
      r := ParseIdSet(conn.parse, lines.value, unsolicited);
    }

    method Status(mailbox: bytes, items: bytes) returns (r: Res<Mailbox>)
      modifies conn, conn.stream, unsolicited
      ensures Snapshot() == Perform(conn.parse, old(Snapshot()), StatusOfMailbox(mailbox, items))
      ensures var lines := RunOp(conn.parse, old(conn.State()), StatusOfMailbox(mailbox, items)).0;
              var d := Demux(conn.parse, RouteFor(StatusOfMailbox(mailbox, items)), if lines.Success? then lines.value else []);
              r == if lines.Failure? then Failure(lines.error)
                   else if d.error.Some? then Failure(d.error.value)
                   else if d.kept == [] then Failure(MissingStatusResponse)
                   else Success(MailboxOfItems(Collect(ItemsIn, d.kept)))
    {
      ghost var op := StatusOfMailbox(mailbox, items);
      ghost var given := RunOp(conn.parse, conn.State(), op).0;
      var name := ValidateStr("STATUS", "mailbox", mailbox);
      if name.Failure? {
        return Failure(name.error);
      }
      var lines := RunCommandAndReadResponse("STATUS " + name.value + " " + items);
      assert lines == given;
      if lines.Failure? {
        return Failure(lines.error);
      }
      SameRoutes(conn.parse, op, StatusClaims(mailbox), lines.value);
      r := ParseStatus(conn.parse, lines.value, mailbox, unsolicited);
    }

    method ListStatus(reference: Option<bytes>, pattern: Option<bytes>, items: bytes) returns (r: Res<seq<Entry>>)
      modifies conn, conn.stream, unsolicited
      ensures Snapshot() == Perform(conn.parse, old(Snapshot()), ListWithStatus(reference, pattern, items))
      ensures var lines := RunOp(conn.parse, old(conn.State()), ListWithStatus(reference, pattern, items)).0;
              var d := Demux(conn.parse, RouteFor(ListWithStatus(reference, pattern, items)), if lines.Success? then lines.value else []);
              r == if lines.Failure? then Failure(lines.error)
                   else if d.error.Some? then Failure(d.error.value)
                   else Success(Pairs(None, None, d.kept))
    {
      ghost var op := ListWithStatus(reference, pattern, items);
      ghost var given := RunOp(conn.parse, conn.State(), op).0;
      var quoted := ValidateStr("LIST-STATUS", "reference", OrElse(reference, ""));
      if quoted.Failure? {
        return Failure(quoted.error);
      }
      var lines := RunCommandAndReadResponse(
        "LIST " + quoted.value + " " + OrElse(pattern, "\"\"") + " RETURN (STATUS " + items + ")");
      assert lines == given;
      if lines.Failure? {
        return Failure(lines.error);
      }
      SameRoutes(conn.parse, op, ListClaims, lines.value);
      r := ParseExtendedNames(conn.parse, lines.value, unsolicited);
    }

    method Expunge() returns (r: Res<Deleted>)
      modifies conn, conn.stream, unsolicited
      ensures Snapshot() == Perform(conn.parse, old(Snapshot()), ExpungeMessages)
      ensures var lines := RunOp(conn.parse, old(conn.State()), ExpungeMessages).0;
              var d := Demux(conn.parse, RouteFor(ExpungeMessages), if lines.Success? then lines.value else []);
              r == if lines.Failure? then Failure(lines.error)
                   else if d.error.Some? then Failure(d.error.value)
                   else Success(DeletedBy(d.kept))
    {
      ghost var c := conn.State();
      var sent := conn.RunCommand("EXPUNGE");
      if sent.Failure? {
        return Failure(sent.error);
      }
      var answer := conn.ReadResponse();
      if answer.Failure? {
        return Failure(answer.error);
      }
      RunIsCompleted(conn.parse, c, "EXPUNGE");
      SameRoutes(conn.parse, ExpungeMessages, ExpungeClaims, answer.value.data);
      r := ParseExpunge(conn.parse, answer.value.data, unsolicited);
    }

    method Select(mailbox: bytes) returns (r: Res<Mailbox>)
      modifies conn, conn.stream, unsolicited
      ensures Snapshot() == Perform(conn.parse, old(Snapshot()), SelectMailbox(mailbox))
      ensures var lines := RunOp(conn.parse, old(conn.State()), SelectMailbox(mailbox)).0;
              var d := Demux(conn.parse, MailboxRoute, if lines.Success? then lines.value else []);
              r == if lines.Failure? then Failure(lines.error)
                   else if d.error.Some? then Failure(d.error.value)
                   else Success(MailboxBy(d.kept))
    {
      ghost var c := conn.State();
      var name := ValidateStr("SELECT", "mailbox", mailbox);
      if name.Failure? {
        return Failure(name.error);
      }
      var answer := conn.Run("SELECT " + name.value);
      if answer.Failure? {
        return Failure(answer.error);
      }
      RunIsCompleted(conn.parse, c, "SELECT " + name.value);
      SameRouteSameDemux(conn.parse, RouteFor(SelectMailbox(mailbox)), MailboxRoute, answer.value.data);
      r := ParseMailbox(conn.parse, answer.value.data, unsolicited);
    }

    /** The content of a literal and the CRLF after it. */
    method WriteLiteral(content: bytes) returns (r: Res<()>)
      modifies conn.stream`written, conn.stream`sends
      ensures (r, conn.stream.Out()) == WriteThenFlush(old(conn.stream.Out()), [content, CRLF])
    {
      ghost var before := conn.stream.Out();
      r := conn.stream.WriteAll(content);
      if r.Success? {
        r := conn.stream.WriteAll(CRLF);
        if r.Success? {
          r := conn.stream.Flush();
        }
      }
      TwoParts(before, content, CRLF);
    }

    method Append(args: AppendArgs) returns (r: Res<Appended>)
      modifies conn, conn.stream, unsolicited
      ensures Snapshot() == Perform(conn.parse, old(Snapshot()), AppendMessage(args))
      ensures var lines := RunOp(conn.parse, old(conn.State()), AppendMessage(args)).0;
              var d := Demux(conn.parse, RouteFor(AppendMessage(args)), if lines.Success? then lines.value else []);
              r == if lines.Failure? then Failure(lines.error)
                   else if d.error.Some? then Failure(d.error.value)
                   else Success(AppendedBy(d.kept))
    {
      hide Perform, RunOp, Demux, SplitAll, ReadReply, AppendCommand, RouteFor, NextRead, AfterRead, OkReply,
           Completed, Claiming, WriteThenFlush, AppendedBy, SendCommand;
      ghost var s := Snapshot();
      AppendSteps(conn.parse, s, args);
      var sent := conn.RunCommand(AppendCommand(args));
      if sent.Failure? {
        return Failure(sent.error);
      }
      var v, n := conn.ReadLine([]);
      if n.Failure? {
        return Failure(n.error);
      }
      if !StartsWith(v, "+") {
        return Failure(Error.Append);
      }
      var wrote := WriteLiteral(args.content);
      if wrote.Failure? {
        return Failure(wrote.error);
      }
      ghost var c := conn.State();
      var answer := conn.ReadResponse();
      if answer.Failure? {
        return Failure(answer.error);
      }
      RepliesAreCompleted(conn.parse, c);
      SameRoutes(conn.parse, AppendMessage(args), AppendClaims, answer.value.data);
      r := ParseAppend(conn.parse, answer.value.data, unsolicited);
    }

    method Fetch(sequenceSet: bytes, query: bytes) returns (r: Res<seq<Fetched>>)
      modifies conn, conn.stream, unsolicited
      ensures Snapshot() == Perform(conn.parse, old(Snapshot()), FetchMessages(sequenceSet, query))
      ensures var lines := RunOp(conn.parse, old(conn.State()), FetchMessages(sequenceSet, query)).0;
              var d := Demux(conn.parse, RouteFor(FetchMessages(sequenceSet, query)),
                             if lines.Success? then lines.value else []);
              r == if lines.Failure? then Failure(lines.error)
                   else if d.error.Some? then Failure(d.error.value)
                   else Success(Collect(FetchIn, d.kept))
    {
      var input := [];
      if sequenceSet != [] {
        var seqs := ValidateSequenceSet("FETCH", "seq", sequenceSet);
        if seqs.Failure? {
          return Failure(seqs.error);
        }
        var q := ValidateStrNoQuote("FETCH", "query", query);
        if q.Failure? {
          return Failure(q.error);
        }
        var lines := RunCommandAndReadResponse("FETCH " + seqs.value + " " + q.value);
        if lines.Failure? {
          return Failure(lines.error);
        }
        input := lines.value;
      }
      FetchShares(conn.parse, FetchMessages(sequenceSet, query), input);
      var fetches := new Collection<Fetched>();
      var parsed := ParseManyInto(conn.parse, input, fetches, unsolicited, FetchMap);
      r := if parsed.Failure? then Failure(parsed.error) else Success(fetches.items);
    }

    method QuotaRoots(mailbox: bytes) returns (r: Res<QuotaRootResponse>)
      modifies conn, conn.stream, unsolicited
      ensures Snapshot() == Perform(conn.parse, old(Snapshot()), GetQuotaRoot(mailbox))
      ensures var lines := RunOp(conn.parse, old(conn.State()), GetQuotaRoot(mailbox)).0;
              var d := Demux(conn.parse, RouteFor(GetQuotaRoot(mailbox)), if lines.Success? then lines.value else []);
              var roots := Collect(RootIn, d.kept);
              r == if lines.Failure? then Failure(lines.error)
                   else if d.error.Some? then Failure(d.error.value)
                   else if |roots| == 1 then Success(QuotaRootResponse(roots[0], Collect(QuotaIn, d.kept)))
                   else Failure(Error.Parse(Invalid(lines.value)))
    {
      var name := ValidateStr("GETQUOTAROOT", "mailbox", mailbox);
      if name.Failure? {
        return Failure(name.error);
      }
      var lines := RunCommandAndReadResponse("GETQUOTAROOT " + name.value);
      if lines.Failure? {
        return Failure(lines.error);
      }
      QuotaRootShares(conn.parse, GetQuotaRoot(mailbox), lines.value);
      r := ParseQuotaRoot(conn.parse, lines.value, unsolicited);
    }

    method ReadMetadata(target: Option<bytes>, entries: seq<bytes>, depth: Depth, maxSize: Option<nat>)
      returns (r: Res<(seq<Metadata>, Option<u64>)>)
      modifies conn, conn.stream, unsolicited
      ensures Snapshot() == Perform(conn.parse, old(Snapshot()), GetMetadata(target, entries, depth, maxSize))
      ensures var command := GetMetadataCommand(target, entries, depth, maxSize);
              if command.Failure? then r == Failure(command.error)
              else
                var answer := RunCommandAndReply(conn.parse, old(conn.State()), command.value).0;
                if answer.Failure? then r == Failure(answer.error)
                else
                  var a := answer.value;
                  var d := Demux(conn.parse, Claiming(MetadataClaims), Truncate(a));
                  && OkReply(conn.parse, NextTag(old(conn.tag)), a.data, a.done)
                  && r == if d.error.Some? then Failure(d.error.value)
                          else Success((Collect(ValuesIn, d.kept),
                                        if maxSize.None? then None
                                        else LongEntries(ResponseAt(conn.parse, a.data, a.done).response)))
    {
      hide Perform, RunOp, Demux, SplitAll, ReadReply, RouteFor, NextRead, AfterRead, OkReply, Completed, Claiming,
           WriteThenFlush, GetMetadataCommand, SendCommand, RunCommandAndReply;
      ghost var c, op := conn.State(), GetMetadata(target, entries, depth, maxSize);
      CommandSteps(conn.parse, Snapshot(), op);
      var command := GetMetadataCommand(target, entries, depth, maxSize);
      if command.Failure? {
        return Failure(command.error);
      }
      var answer := conn.Run(command.value);
      if answer.Failure? {
        return Failure(answer.error);
      }
      var data, ok := answer.value.data, answer.value.done;
      RunIsCompleted(conn.parse, c, command.value);
      CompletionAgain(conn.parse, NextTag(c.tag), data, ok);
      SameRoutes(conn.parse, op, MetadataClaims, data[..ok]);
      var meta := ParseMetadata(conn.parse, data[..ok], unsolicited);
      if meta.Failure? {
        return Failure(meta.error);
      }
      var missed: Option<u64> := None;
      if maxSize.Some? {
        var again := ParseResponse(conn.parse, data[ok..]);
        assert again.Complete? && again.response.Done?;  // the `unreachable!()` is not reached
        match again.response.code {
          case Some(MetadataLongEntries(v)) => missed := Some(v);
          case _ =>
        }
      }
      r := Success((meta.value, missed));
    }

    method SetMetadata(mailbox: bytes, annotations: seq<Metadata>) returns (r: Res<()>)
      modifies conn, conn.stream
      ensures (r, conn.State()) == StoreMetadata(conn.parse, old(conn.State()), mailbox, annotations)
    {
      var v := MetadataItems(annotations, 0);
      if v.Failure? {
        return Failure(v.error);
      }
      var s := Join(v.value, " ");
      var mbox := ValidateStr("SETMETADATA", "mailbox", mailbox);
      if mbox.Failure? {
        return Failure(mbox.error);
      }
      var answer := conn.Run("SETMETADATA " + mbox.value + " (" + s + ")");
      r := if answer.Success? then Success(()) else Failure(answer.error);
    }

    /** Takes all the unsolicited responses received thus far. */
    method TakeAllUnsolicited() returns (taken: seq<UnsolicitedResponse>)
      modifies unsolicited
      ensures taken == old(unsolicited.items) && unsolicited.items == []
    {
      taken := unsolicited.items;
      unsolicited.items := [];
    }
  }

  /** An operation that comes to nothing. */
  ghost predicate Fails(p: Parser, s: State, op: Op, error: Error, c: Conn) {
    RunOp(p, s.conn, op) == (Failure(error), c) && Perform(p, s, op) == State(c, s.queue)
  }

  /** An operation whose parser is handed `lines`. */
  ghost predicate Comes(p: Parser, s: State, op: Op, lines: bytes, c: Conn) {
    && RunOp(p, s.conn, op) == (Success(lines), c)
    && Perform(p, s, op) == State(c, s.queue + Demux(p, RouteFor(op), lines).queued)
  }

  lemma FailsOrComes(p: Parser, s: State, op: Op)
    ensures var (r, c) := RunOp(p, s.conn, op);
            if r.Failure? then Fails(p, s, op, r.error, c) else Comes(p, s, op, r.value, c)
  {
    hide RunOp, Demux;
    assert s.queue + [] == s.queue;
  }

  /** A command that is run and answered, step by step. */
  lemma CommandSteps(p: Parser, s: State, op: Op)
    requires !op.AppendMessage? && !op.FetchMessages?
    ensures var command := CommandOf(op);
            if command.Failure? then Fails(p, s, op, command.error, s.conn)
            else
              var (answer, c) := RunCommandAndReply(p, s.conn, command.value);
              if answer.Failure? then Fails(p, s, op, answer.error, c)
              else Comes(p, s, op, LinesOf(op, answer.value), c)
  {
    hide Perform, Fails, Comes, Demux, RunCommandAndReply, CommandOf, LinesOf;
    FailsOrComes(p, s, op);
  }

  /** The completion of an accepted reply is found there again. */
  lemma CompletionAgain(p: Parser, tag: u32, data: bytes, i: nat)
    requires i <= |data| && OkReply(p, tag, data, i)
    ensures ParseResponse(p, data[i..]).Complete? && ParseResponse(p, data[i..]).response.Done?
  {
  }

  /** APPEND, step by step. */
  lemma AppendSteps(p: Parser, s: State, a: AppendArgs)
    ensures var op := AppendMessage(a);
            var (sent, c1) := SendCommand(s.conn, AppendCommand(a));
            if sent.Failure? then Fails(p, s, op, sent.error, c1)
            else
              var (line, c2) := TakeLine(c1);
              if line.Failure? then Fails(p, s, op, line.error, c2)
              else if !StartsWith(line.value, "+") then Fails(p, s, op, Error.Append, c2)
              else
                var (wrote, out) := WriteThenFlush(c2.out, [a.content, CRLF]);
                var c3 := c2.(out := out);
                if wrote.Failure? then Fails(p, s, op, wrote.error, c3)
                else
                  var (answer, c4) := TakeReply(p, c3);
                  if answer.Failure? then Fails(p, s, op, answer.error, c4)
                  else Comes(p, s, op, answer.value.data, c4)
  {
    hide Perform, Fails, Comes, Demux, TakeLine, TakeReply, SendCommand, WriteThenFlush, AppendCommand;
    FailsOrComes(p, s, AppendMessage(a));
  }

  /** The route of an operation that keeps the responses it claims. */
  lemma SameRoutes(p: Parser, op: Op, claims: Response -> bool, lines: bytes)
    requires !op.SelectMailbox? && forall r :: claims(r) == Claims(op, r)
    ensures Demux(p, RouteFor(op), lines) == Demux(p, Claiming(claims), lines)
  {
    SameRouteSameDemux(p, RouteFor(op), Claiming(claims), lines);
  }

  // ------------------------------------------------------------------ Operations with shared outputs

  /** A FETCH response as it is kept. */
  datatype Fetched = Fetched(number: u32, attributes: seq<bytes>)

  function FetchMap(r: Response): Res<MapOrNot<Fetched>> {
    match r
    case Fetch(number, attributes) => Success(Map(Fetched(number, attributes)))
    case _ => Success(NotThis(r))
  }

  function FetchIn(r: Response): seq<Fetched> {
    match r
    case Fetch(number, attributes) => [Fetched(number, attributes)]
    case _ => []
  }

  /** Two ways to route the same response: claimed by both, with these contributions, or by neither. */
  ghost predicate SameTreatment<T, U>(f: Route<Share<T, U>>, g: Route<Response>, r: Response, first: seq<T>, second: seq<U>) {
    match g
    case Claimed(c) => c == r && f.Claimed? && f.c.first == first && f.c.second == second
    case Queued(u) => f.Queued? && f.u == u
    case Refused(e) => f.Refused? && f.error == e
  }

  lemma {:induction false} ShareView<T, U>(p: Parser, f: Response -> Route<Share<T, U>>, g: Response -> Route<Response>,
                                          first: Response -> seq<T>, second: Response -> seq<U>, lines: bytes)
    requires forall r :: SameTreatment(f(r), g(r), r, first(r), second(r))
    ensures var d, e := Demux(p, f, lines), Demux(p, g, lines);
            && Firsts(d.kept) == Collect(first, e.kept) && Seconds(d.kept) == Collect(second, e.kept)
            && d.queued == e.queued && d.error == e.error
    decreases |lines|
  {
    if lines != [] && ParseResponse(p, lines).Complete? {
      var Complete(n, r) := ParseResponse(p, lines);
      ShareView(p, f, g, first, second, lines[n..]);
      var d, e := Demux(p, f, lines[n..]), Demux(p, g, lines[n..]);
      assert SameTreatment(f(r), g(r), r, first(r), second(r));
      if g(r).Claimed? {
        assert ([f(r).c] + d.kept)[1..] == d.kept;
        CollectCons(first, r, e.kept);
        CollectCons(second, r, e.kept);
      }
    }
  }

  function NothingIn(r: Response): seq<()> {
    []
  }

  lemma FetchTreatment(op: Op, r: Response)
    requires op.FetchMessages?
    ensures SameTreatment(RouteOf(FetchMap)(r), RouteFor(op)(r), r, FetchIn(r), NothingIn(r))
  {
    var m: Res<MapOrNot2<Fetched, ()>> := WidenOne(FetchMap(r));
    assert RouteOf(FetchMap)(r) == RouteMapped(m);
    if r.Fetch? {
      assert m == Success(Map1(Fetched(r.number, r.attributes)));
    } else {
      assert m == Success(Not(r));
      assert RouteMapped(m) == Unclaimed(r);
    }
  }

  lemma QuotaRootTreatment(op: Op, r: Response)
    requires op.GetQuotaRoot?
    ensures SameTreatment(RouteOf2(QuotaRootMap)(r), RouteFor(op)(r), r, RootIn(r), QuotaIn(r))
  {
    var m: Res<MapOrNot2<QuotaRootData, QuotaData>> := QuotaRootMap(r);
    assert RouteOf2(QuotaRootMap)(r) == RouteMapped(m);
    if r.QuotaRoot? {
      assert m == Success(Map1(r.root));
    } else if r.Quota? {
      assert m == Success(Map2(r.quota));
    } else {
      assert m == Success(Not(r));
      assert RouteMapped(m) == Unclaimed(r);
    }
  }

  lemma FetchShares(p: Parser, op: Op, lines: bytes)
    requires op.FetchMessages?
    ensures var d, e := Demux(p, RouteOf(FetchMap), lines), Demux(p, RouteFor(op), lines);
            && [] + Firsts(d.kept) == Collect(FetchIn, e.kept)
            && d.queued == e.queued && d.error == e.error
  {
    forall r
      ensures SameTreatment(RouteOf(FetchMap)(r), RouteFor(op)(r), r, FetchIn(r), NothingIn(r))
    {
      FetchTreatment(op, r);
    }
    ShareView(p, RouteOf(FetchMap), RouteFor(op), FetchIn, NothingIn, lines);
  }

  lemma QuotaRootShares(p: Parser, op: Op, lines: bytes)
    requires op.GetQuotaRoot?
    ensures var d, e := Demux(p, RouteOf2(QuotaRootMap), lines), Demux(p, RouteFor(op), lines);
            && Firsts(d.kept) == Collect(RootIn, e.kept) && Seconds(d.kept) == Collect(QuotaIn, e.kept)
            && d.queued == e.queued && d.error == e.error
  {
    forall r
      ensures SameTreatment(RouteOf2(QuotaRootMap)(r), RouteFor(op)(r), r, RootIn(r), QuotaIn(r))
    {
      QuotaRootTreatment(op, r);
    }
    ShareView(p, RouteOf2(QuotaRootMap), RouteFor(op), RootIn, QuotaIn, lines);
  }
}
