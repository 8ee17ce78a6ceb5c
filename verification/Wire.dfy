/** What the server finds on the wire: the lines and the literal of what has been written. */
module Wire {
  import opened Wrappers
  import opened Sequences
  import opened Text
  import opened Responses
  import opened Parsing
  import opened Framing
  import opened Transport
  import opened Connections
  import opened Replies
  import opened Quoting
  import opened Appending
  import opened Sessions
  import opened Clients

  // ------------------------------------------------------------------ What the server receives

  /** A command as it goes out. */
  function LineOf(tag: u32, command: bytes): bytes {
    CommandLine(tag, command) + CRLF
  }

  lemma LineOfIsLine(tag: u32, command: bytes)
    requires NoLf(command)
    ensures var line := LineOf(tag, command);
            line != [] && line[|line| - 1] == LF && NoLf(line[..|line| - 1])
  {
    hide Decimal;
    var line := LineOf(tag, command);
    forall i | 0 <= i < |line| - 1
      ensures line[i] != LF
    {
      if 1 <= i < |TagText(tag)| {
        assert IsDigit(Decimal(tag)[i - 1]);
      } else if |TagText(tag)| < i < |line| - 2 {
        assert line[i] == command[i - |TagText(tag)| - 1];
      }
    }
  }

  lemma LineFirst(line: bytes, wire: bytes)
    requires line != [] && line[|line| - 1] == LF && NoLf(line[..|line| - 1])
    ensures CompleteLines(line + wire) == [line] + CompleteLines(wire)
  {
    LineStopAt(line, wire);
    assert (line + wire)[..|line|] == line && (line + wire)[|line|..] == wire;
  }

  /** Encoded responses have no line breaks in them, so each arrives as one line of its own. */
  lemma {:induction false} ReactionsArriveAsLines(x: Scheme, turns: seq<Turn>)
    requires ValidTurns(x, turns)
    requires forall s :: Appending.NoLf(x.encode(s))
    ensures CompleteLines(Concat(Reactions(x, turns))) == Reactions(x, turns)
  {
    if turns != [] {
      ReactionsArriveAsLines(x, turns[1..]);
      if !turns[0].Comment? {
        var line := AnswerTo(x, turns[0]) + CRLF;
        assert Reactions(x, turns)[1..] == Reactions(x, turns[1..]);
        assert forall i :: 0 <= i < |line| - 2 ==> line[i] == AnswerTo(x, turns[0])[i];
        LineFirst(line, Concat(Reactions(x, turns[1..])));
      }
    }
  }

  /** A command without line breaks goes out as a single line, or as a part of it if the write fails. */
  lemma OneLineWritten(c: Conn, command: bytes)
    requires NoBreak(command)
    ensures var (r, c') := SendCommand(c, command);
            var line := LineOf(NextTag(c.tag), command);
            && c.out.written <= c'.out.written <= c.out.written + line
            && (r.Success? ==> c'.out.written == c.out.written + line)
            && CompleteLines(line) == [line]
  {
    var line := LineOf(NextTag(c.tag), command);
    WriteThenFlushWrites(c.out, [CommandLine(NextTag(c.tag), command), CRLF]);
    Sessions.FlattenTwo(CommandLine(NextTag(c.tag), command), CRLF);
    LineOfIsLine(NextTag(c.tag), command);
    LineFirst(line, []);
    assert line + [] == line;
  }

  // ------------------------------------------------------------------ LOGIN and SETMETADATA

  function TextOf(command: Res<bytes>): bytes {
    if command.Success? then command.value else []
  }

  /** LOGIN writes one line, which the server decodes to the arguments, or a part of it if the write
      fails, or nothing if an argument is refused. */
  lemma LoginWrites(p: Parser, c: Conn, username: bytes, password: bytes)
    ensures var (r, c') := LogIn(p, c, username, password);
            var command := TextOf(LoginCommand(username, password));
            var line := LineOf(NextTag(c.tag), command);
            if NoBreak(username) && NoBreak(password) then
              && c.out.written <= c'.out.written <= c.out.written + line
              && (SendCommand(c, command).0.Success? ==> c'.out.written == c.out.written + line)
              && CompleteLines(line) == [line]
              && ReadLogin(command) == Some((username, password))
            else c' == c && r.Failure? && r.error.Validate?
  {
    hide ReadReply, ReadLogin, Quote, Decimal, WriteThenFlush, LineOf;
    LoginReadsBack(username, password);
    if LoginCommand(username, password).Success? {
      OneLineWritten(c, LoginCommand(username, password).value);
    }
  }

  /** The same for SETMETADATA: a mailbox and a list of entries, each with a value or NIL. */
  lemma SetMetadataWrites(p: Parser, c: Conn, mailbox: bytes, annotations: seq<Metadata>)
    ensures var (r, c') := StoreMetadata(p, c, mailbox, annotations);
            var command := TextOf(SetMetadataCommand(mailbox, annotations));
            var line := LineOf(NextTag(c.tag), command);
            if NoBreak(mailbox) && AllClean(annotations) then
              && c.out.written <= c'.out.written <= c.out.written + line
              && (SendCommand(c, command).0.Success? ==> c'.out.written == c.out.written + line)
              && CompleteLines(line) == [line]
              && ReadSetMetadata(command) == Some((mailbox, annotations))
            else c' == c && r.Failure?
  {
    hide ReadReply, ReadSetMetadata, Quote, Decimal, AllClean, WriteThenFlush, LineOf;
    SetMetadataReadsBack(mailbox, annotations);
    if SetMetadataCommand(mailbox, annotations).Success? {
      OneLineWritten(c, SetMetadataCommand(mailbox, annotations).value);
    }
  }

  /** LOGIN makes a session exactly if the arguments have no line break, the line goes out, and what
      arrives begins with an OK reply to it. */
  lemma LoginSucceedsIff(p: Parser, c: Conn, username: bytes, password: bytes)
    ensures LogIn(p, c, username, password).0.Success? <==>
            && NoBreak(username) && NoBreak(password)
            && SendCommand(c, TextOf(LoginCommand(username, password))).0.Success?
            && Answered(p, NextTag(c.tag), c.incoming)
  {
    hide ReadReply, OkReply, WriteThenFlush, Quote;
    LoginReadsBack(username, password);
    AnsweredIffOk(p, NextTag(c.tag), c.incoming);
  }

  lemma SetMetadataSucceedsIff(p: Parser, c: Conn, mailbox: bytes, annotations: seq<Metadata>)
    ensures StoreMetadata(p, c, mailbox, annotations).0.Success? <==>
            && NoBreak(mailbox) && AllClean(annotations)
            && SendCommand(c, TextOf(SetMetadataCommand(mailbox, annotations))).0.Success?
            && Answered(p, NextTag(c.tag), c.incoming)
  {
    hide ReadReply, OkReply, WriteThenFlush, Quote, AllClean;
    SetMetadataReadsBack(mailbox, annotations);
    AnsweredIffOk(p, NextTag(c.tag), c.incoming);
  }

  /** What arrives begins with untagged responses and the OK completion of `tag`. */
  ghost predicate Answered(p: Parser, tag: u32, pending: seq<Event>) {
    exists data: bytes, i: nat :: data <= Arrived(pending) && OkReply(p, tag, data, i)
  }

  lemma AnsweredIffOk(p: Parser, tag: u32, pending: seq<Event>)
    ensures ReadReply(p, tag, pending).result.Success? <==> Answered(p, tag, pending)
  {
    hide ReadReply, OkReply;
    var reading := ReadReply(p, tag, pending);
    if reading.result.Success? {
      ReplyOkIff(p, tag, pending, reading.data, reading.result.value);
    }
    if Answered(p, tag, pending) {
      var data: bytes, i: nat :| data <= Arrived(pending) && OkReply(p, tag, data, i);
      ReplyOkIff(p, tag, pending, data, i);
    }
  }

  /** AUTHENTICATE goes out with the mechanism, and then the handshake takes over. */
  lemma AuthenticateWrites(p: Parser, x: Scheme, c: Conn, mechanism: bytes) returns (c1: Conn)
    requires SendCommand(c, "AUTHENTICATE " + mechanism).0.Success?
    ensures AuthenticateAndShake(p, x, c, mechanism) == Handshake(p, x, c1)
    ensures c1.tag == NextTag(c.tag) && c1.incoming == c.incoming
    ensures c1.out.written == c.out.written + ("a" + Decimal(NextTag(c.tag)) + " AUTHENTICATE " + mechanism + "\r\n")
  {
    hide Handshake, WriteThenFlush, Decimal;
    var line := CommandLine(NextTag(c.tag), "AUTHENTICATE " + mechanism);
    c1 := SendCommand(c, "AUTHENTICATE " + mechanism).1;
    WriteThenFlushWrites(c.out, [line, CRLF]);
    Sessions.FlattenTwo(line, CRLF);
    assert line + CRLF == "a" + Decimal(NextTag(c.tag)) + " AUTHENTICATE " + mechanism + "\r\n";
  }

  // ------------------------------------------------------------------ APPEND

  /** Once the server has agreed to the literal, and unless the write fails, all that APPEND writes is
      the command line, the content as announced in it, and a CRLF. */
  lemma AppendOnTheWire(p: Parser, c: Conn, a: AppendArgs) returns (wire: bytes)
    requires NoLf(BeforeLiteral(a))
    requires var (sent, c1) := SendCommand(c, AppendCommand(a));
             sent.Success? && WriteThenFlush(c1.out, [a.content, CRLF]).0.Success?
    requires NextRead(c.incoming).Line? && StartsWith(NextRead(c.incoming).line, "+")
    ensures FinishAppend(p, c, a).1.out.written == c.out.written + wire
    ensures TakeLiteral(wire) == Some((a.content, CRLF))
  {
    hide FinishAppend, TakeLiteral, BeforeLiteral, Decimal, WriteThenFlush;
    AppendWrites(p, c, a);
    var tagged := TagText(NextTag(c.tag)) + " ";
    LiteralReadsBackIff(tagged, a, []);
    wire := tagged + AppendCommand(a) + CRLF + a.content + CRLF + [];
    var line := CommandLine(NextTag(c.tag), AppendCommand(a)) + CRLF;
    assert line == tagged + AppendCommand(a) + CRLF;
    Associative(line, a.content, CRLF);
    Associative(c.out.written, line, a.content + CRLF);
    assert CRLF + [] == CRLF;
    assert wire == line + a.content + CRLF;
  }
}
