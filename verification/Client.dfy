/** `Client`: logging in and the SASL handshake (src/client.rs, section 6.2 of RFC 3501). */
module Clients {
  import opened Wrappers
  import opened Sequences
  import opened Text
  import opened Responses
  import opened Parsing
  import opened Framing
  import opened Transport
  import opened Connections
  import opened Replies
  import opened Quoting
  import Lockstep
  import Appending
  import Sessions

  // ------------------------------------------------------------------ The handshake

  /** The authenticator, and the foreign functions that take a challenge off a line and put a
      response onto one. */
  datatype Scheme = Scheme(
    isUtf8: bytes -> bool,
    decode: bytes -> Option<bytes>,
    encode: bytes -> bytes,
    process: bytes -> bytes)

  const BARE: bytes := "+\r\n"

  predicate IsComment(line: bytes) {
    StartsWith(line, "* ")
  }

  predicate IsContinuation(line: bytes) {
    StartsWith(line, "+ ") || line == BARE
  }

  /** `parse_authenticate_response` on one line: what is between `+ ` and CRLF. */
  function ParseAuthenticateResponse(line: bytes): Res<bytes> {
    if StartsWith(line, "+ ") && EndsWithCRLF(line) then Success(line[2..|line| - 2])
    else Failure(Error.Parse(Authentication(line)))
  }

  function Challenge(x: Scheme, line: bytes): Res<bytes> {
    if line == BARE then Success([])
    else if !x.isUtf8(line) then Failure(Error.Parse(DataNotUtf8(line)))
    else
      var data :- ParseAuthenticateResponse(line);
      match x.decode(data)
      case None => Failure(Error.Parse(Authentication(data)))
      case Some(challenge) => Success(challenge)
  }

  /** The line that answers a challenge. */
  function Reaction(x: Scheme, challenge: bytes): bytes {
    x.encode(x.process(challenge))
  }

  /** `do_auth_handshake`, up to the session. The first line that is neither a comment nor a
      continuation belongs to the reply. */
  function Handshake(p: Parser, x: Scheme, c: Conn): (Res<()>, Conn)
    decreases |c.incoming|
  {
    var (line, c1) := TakeLine(c);
    if line.Failure? then (Failure(line.error), c1)
    else if IsComment(line.value) then Handshake(p, x, c1)
    else if IsContinuation(line.value) then
      match Challenge(x, line.value)
      case Failure(e) => (Failure(e), c1)
      case Success(challenge) =>
        var (sent, c2) := SendLine(c1, Reaction(x, challenge));
        if sent.Failure? then (Failure(sent.error), c2) else Handshake(p, x, c2)
    else
      var (answer, c2) := TakeReply(p, c.(log := c1.log));
      (if answer.Success? then Success(()) else Failure(answer.error), c2)
  }

  function AuthenticateAndShake(p: Parser, x: Scheme, c: Conn, mechanism: bytes): (Res<()>, Conn) {
    var (sent, c1) := SendCommand(c, "AUTHENTICATE " + mechanism);
    if sent.Failure? then (Failure(sent.error), c1) else Handshake(p, x, c1)
  }

  /** LOGIN: nothing is written if an argument is refused. */
  function LogIn(p: Parser, c: Conn, username: bytes, password: bytes): (Res<()>, Conn) {
    match LoginCommand(username, password)
    case Failure(e) => (Failure(e), c)
    case Success(command) =>
      var (answer, c1) := RunCommandAndReply(p, c, command);
      (if answer.Success? then Success(()) else Failure(answer.error), c1)
  }

  // ------------------------------------------------------------------ The client

  /** A failure leaves the caller with this client, a success with a session on its connection. */
  class Client {
    const conn: Connection

    constructor (conn: Connection)
      ensures this.conn == conn
    {
      this.conn := conn;
    }

    method Login(username: bytes, password: bytes) returns (r: Res<Sessions.Session>)
      modifies conn, conn.stream
      ensures var (done, c) := LogIn(conn.parse, old(conn.State()), username, password);
              && conn.State() == c
              && (r.Success? <==> done.Success?)
              && (r.Failure? ==> r.error == done.error)
      ensures r.Success? ==> r.value.conn == conn && r.value.unsolicited.items == []
    {
      var u := ValidateStr("LOGIN", "username", username);
      if u.Failure? {
        return Failure(u.error);
      }
      var p := ValidateStr("LOGIN", "password", password);
      if p.Failure? {
        return Failure(p.error);
      }
      var answer := conn.Run("LOGIN " + u.value + " " + p.value);
      if answer.Failure? {
        return Failure(answer.error);
      }
      var session := new Sessions.Session(conn);
      r := Success(session);
    }

    method Authenticate(x: Scheme, mechanism: bytes) returns (r: Res<Sessions.Session>)
      modifies conn, conn.stream
      ensures var (done, c) := AuthenticateAndShake(conn.parse, x, old(conn.State()), mechanism);
              && conn.State() == c
              && (r.Success? <==> done.Success?)
              && (r.Failure? ==> r.error == done.error)
      ensures r.Success? ==> r.value.conn == conn && r.value.unsolicited.items == []
    {
      hide Handshake;
      var sent := conn.RunCommand("AUTHENTICATE " + mechanism);
      if sent.Failure? {
        return Failure(sent.error);
      }
      r := DoAuthHandshake(x);
    }

    method DoAuthHandshake(x: Scheme) returns (r: Res<Sessions.Session>)
      modifies conn, conn.stream
      ensures var (done, c) := Handshake(conn.parse, x, old(conn.State()));
              && conn.State() == c
              && (r.Success? <==> done.Success?)
              && (r.Failure? ==> r.error == done.error)
      ensures r.Success? ==> r.value.conn == conn && r.value.unsolicited.items == []
    {
      hide Handshake, WriteThenFlush, ReadReply, Peeked, IsComment, IsContinuation, Challenge, Clean, NextRead, AfterRead;
      ghost var whole := Handshake(conn.parse, x, conn.State());
      while true
        invariant Handshake(conn.parse, x, conn.State()) == whole
        decreases |conn.stream.incoming|
      {
        ghost var c := conn.State();
        HandshakeNext(conn.parse, x, c);
        var line, n := conn.ReadLine([]);
        if n.Failure? {
          return Failure(n.error);
        }
        LineTaken(c);
        assert line == TakeLine(c).0.value;
        Kinds(x, line);
        if StartsWith(line, "* ") {
          continue;
        }
        if StartsWith(line, "+ ") || line == "+\r\n" {
          var challenge: bytes := [];
          if line != "+\r\n" {
            if !x.isUtf8(line) {
              return Failure(Error.Parse(DataNotUtf8(line)));
            }
            var data := ParseAuthenticateResponse(line);
            if data.Failure? {
              return Failure(data.error);
            }
            match x.decode(data.value) {
              case None => return Failure(Error.Parse(ParseError.Authentication(data.value)));
              case Some(decoded) => challenge := decoded;
            }
          }
          var rawResponse := x.process(challenge);
          var sent := conn.WriteLine(x.encode(rawResponse));
          if sent.Failure? {
            return Failure(sent.error);
          }
        } else {
          ghost var taken := conn.State();
          var _, done := conn.ReadResponseOnto(line);
          ReplyFrom(conn.parse, c, taken, line);
          if done.Failure? {
            return Failure(done.error);
          }
          var session := new Sessions.Session(conn);
          return Success(session);
        }
      }
    }
  }

  lemma Kinds(x: Scheme, line: bytes)
    ensures IsComment(line) <==> StartsWith(line, "* ")
    ensures IsContinuation(line) <==> StartsWith(line, "+ ") || line == "+\r\n"
    ensures Challenge(x, line) ==
            if line == "+\r\n" then Success([])
            else if !x.isUtf8(line) then Failure(Error.Parse(DataNotUtf8(line)))
            else
              var data := ParseAuthenticateResponse(line);
              if data.Failure? then Failure(data.error)
              else if x.decode(data.value).None? then Failure(Error.Parse(Authentication(data.value)))
              else Success(x.decode(data.value).value)
  {
  }

  /** The reply that is read on from a line is the one that starts with it. */
  lemma ReplyFrom(p: Parser, c: Conn, taken: Conn, line: bytes)
    requires taken == TakeLine(c).1 && Clean(line) + taken.incoming == c.incoming
    ensures var reading := ReadReply(p, taken.tag, Clean(line) + taken.incoming);
            var (answer, c2) := TakeReply(p, c.(log := taken.log));
            && c2 == taken.(incoming := reading.rest, log := taken.log + [Replied(taken.tag, reading.result.Success?)])
            && (answer.Success? <==> reading.result.Success?)
            && (answer.Failure? ==> answer.error == reading.result.error)
  {
    hide ReadReply;
  }

  // ------------------------------------------------------------------ Every handshake

  /** The line that answers a continuation: the response that the authenticator gives to the decoded
      challenge, encoded. `+` alone asks with the empty challenge. */
  ghost predicate Answers(x: Scheme, line: bytes, text: bytes) {
    || (line == "+\r\n" && text == x.encode(x.process([])))
    || exists data: bytes ::
         && line == "+ " + data + "\r\n" && x.isUtf8(line) && x.decode(data).Some?
         && text == x.encode(x.process(x.decode(data).value))
  }

  /** A continuation without a challenge that can be read, and how that is reported. */
  ghost predicate Unanswerable(x: Scheme, line: bytes, error: Error) {
    && line != "+\r\n"
    && (
         || (!x.isUtf8(line) && error == Error.Parse(DataNotUtf8(line)))
         || (x.isUtf8(line) && !EndsWithCRLF(line) && error == Error.Parse(Authentication(line)))
         || exists data: bytes ::
              && line == "+ " + data + "\r\n" && x.isUtf8(line) && x.decode(data).None?
              && error == Error.Parse(Authentication(data)))
  }

  /** The calls of a handshake and its outcome: each continuation is answered by one line before
      anything more is read, and a session comes of it only if the completion of `tag` is accepted,
      as the last call. */
  ghost predicate Orderly(x: Scheme, tag: u32, calls: seq<Call>, r: Res<()>)
    decreases |calls|
  {
    if calls == [] then false
    else
      match calls[0]
      case Missed(error) => |calls| == 1 && r == Failure(error)
      case Got(line) =>
        if "* " <= line then Orderly(x, tag, calls[1..], r)
        else if "+ " <= line || line == "+\r\n" then
          || (|calls| == 1 && r.Failure? && Unanswerable(x, line, r.error))
          || (|calls| >= 2 && calls[1].Wrote? && Answers(x, line, calls[1].text)
              && if calls[1].ok then Orderly(x, tag, calls[2..], r)
                 else |calls| == 2 && r.Failure? && r.error.Io?)
        else |calls| == 2 && calls[1] == Replied(tag, r.Success?)
      case _ => false
  }

  lemma ReactionAnswers(x: Scheme, line: bytes)
    requires IsContinuation(line)
    ensures "+ " <= line || line == "+\r\n"
    ensures var c := Challenge(x, line);
            if c.Success? then Answers(x, line, Reaction(x, c.value)) else Unanswerable(x, line, c.error)
  {
    if line != "+\r\n" && EndsWithCRLF(line) {
      var data := line[2..|line| - 2];
      assert line == "+ " + data + "\r\n";
    }
  }

  /** One turn of a handshake, however it ends. */
  lemma HandshakeNext(p: Parser, x: Scheme, c: Conn)
    ensures var (line, c1) := TakeLine(c);
            Handshake(p, x, c) ==
            if line.Failure? then (Failure(line.error), c1)
            else if IsComment(line.value) then Handshake(p, x, c1)
            else if IsContinuation(line.value) then
              if Challenge(x, line.value).Failure? then (Failure(Challenge(x, line.value).error), c1)
              else
                var (sent, c2) := SendLine(c1, Reaction(x, Challenge(x, line.value).value));
                if sent.Failure? then (Failure(sent.error), c2) else Handshake(p, x, c2)
            else
              var (answer, c2) := TakeReply(p, c.(log := c1.log));
              (if answer.Success? then Success(()) else Failure(answer.error), c2)
  {
  }

  lemma OrderlyIgnored(x: Scheme, tag: u32, line: bytes, later: seq<Call>, r: Res<()>)
    requires IsComment(line) && Orderly(x, tag, later, r)
    ensures Orderly(x, tag, [Got(line)] + later, r)
  {
    assert ([Got(line)] + later)[1..] == later;
  }

  lemma OrderlyAnswered(x: Scheme, tag: u32, line: bytes, later: seq<Call>, r: Res<()>)
    requires !IsComment(line) && IsContinuation(line) && Challenge(x, line).Success?
    requires Orderly(x, tag, later, r)
    ensures Orderly(x, tag, [Got(line), Wrote(Reaction(x, Challenge(x, line).value), true)] + later, r)
  {
    hide Challenge, Reaction, Answers;
    ReactionAnswers(x, line);
    assert ([Got(line), Wrote(Reaction(x, Challenge(x, line).value), true)] + later)[2..] == later;
  }

  lemma OrderlyEnds(x: Scheme, tag: u32, line: bytes)
    requires !IsComment(line)
    ensures IsContinuation(line) && Challenge(x, line).Failure? ==>
              Orderly(x, tag, [Got(line)], Failure(Challenge(x, line).error))
    ensures IsContinuation(line) && Challenge(x, line).Success? ==>
              forall e: Error | e.Io? ::
                Orderly(x, tag, [Got(line), Wrote(Reaction(x, Challenge(x, line).value), false)], Failure(e))
    ensures !IsContinuation(line) ==>
              forall r: Res<()> :: Orderly(x, tag, [Got(line), Replied(tag, r.Success?)], r)
  {
    hide Challenge, Reaction, Answers, Unanswerable;
    if IsContinuation(line) {
      ReactionAnswers(x, line);
    }
  }

  /** Every handshake is orderly, whatever the server sends and whichever reads and writes fail. */
  lemma {:induction false} HandshakeIsOrderly(p: Parser, x: Scheme, c: Conn) returns (calls: seq<Call>)
    ensures var (r, c') := Handshake(p, x, c);
            && c'.log == c.log + calls && c'.tag == c.tag
            && Orderly(x, c.tag, calls, r)
    decreases |c.incoming|, 1
  {
    hide Challenge, Reaction, WriteThenFlush, ReadReply, Handshake, IsComment, IsContinuation, NextRead, AfterRead;
    HandshakeNext(p, x, c);
    var (line, c1) := TakeLine(c);
    if line.Failure? {
      calls := [Missed(line.error)];
      return;
    }
    hide Orderly;
    LineTaken(c);
    if IsComment(line.value) {
      calls := HandshakeIsOrderly(p, x, c1);
      LaterCalls(c.log, [Got(line.value)], calls);
      OrderlyIgnored(x, c.tag, line.value, calls, Handshake(p, x, c).0);
      calls := [Got(line.value)] + calls;
    } else if IsContinuation(line.value) {
      calls := AskedIsOrderly(p, x, c);
    } else {
      OrderlyEnds(x, c.tag, line.value);
      calls := [Got(line.value), Replied(c.tag, Handshake(p, x, c).0.Success?)];
    }
  }

  lemma {:induction false} AskedIsOrderly(p: Parser, x: Scheme, c: Conn) returns (calls: seq<Call>)
    requires TakeLine(c).0.Success? && !IsComment(TakeLine(c).0.value) && IsContinuation(TakeLine(c).0.value)
    ensures var (r, c') := Handshake(p, x, c);
            && c'.log == c.log + calls && c'.tag == c.tag
            && Orderly(x, c.tag, calls, r)
    decreases |c.incoming|, 0
  {
    hide Challenge, Reaction, WriteThenFlush, ReadReply, Handshake, IsComment, IsContinuation, NextRead, AfterRead,
         Orderly;
    HandshakeNext(p, x, c);
    LineTaken(c);
    var (line, c1) := TakeLine(c);
    OrderlyEnds(x, c.tag, line.value);
    if Challenge(x, line.value).Failure? {
      calls := [Got(line.value)];
    } else {
      var text := Reaction(x, Challenge(x, line.value).value);
      WriteThenFlushWrites(c1.out, [text, CRLF]);
      var (sent, c2) := SendLine(c1, text);
      calls := [Got(line.value), Wrote(text, sent.Success?)];
      assert c2.log == c.log + calls;
      if sent.Success? {
        var later := HandshakeIsOrderly(p, x, c2);
        LaterCalls(c.log, calls, later);
        OrderlyAnswered(x, c.tag, line.value, later, Handshake(p, x, c).0);
        calls := calls + later;
      }
    }
  }

  lemma LaterCalls(log: seq<Call>, calls: seq<Call>, later: seq<Call>)
    ensures (log + calls) + later == log + (calls + later)
    ensures (calls + later)[|calls|..] == later && later + [] == later
  {
  }

  function Completion(r: Res<Answer>): Res<()> {
    if r.Success? then Success(()) else Failure(r.error)
  }

  // ------------------------------------------------------------------ When there is a session

  /** The connection as it is when the handshake comes to reading the reply, if it does: comments
      have been dropped and continuations answered up to there. */
  function AtReply(x: Scheme, c: Conn): Option<Conn>
    decreases |c.incoming|
  {
    var (line, c1) := TakeLine(c);
    if line.Failure? then None
    else if IsComment(line.value) then AtReply(x, c1)
    else if IsContinuation(line.value) then
      match Challenge(x, line.value)
      case Failure(_) => None
      case Success(challenge) =>
        var (sent, c2) := SendLine(c1, Reaction(x, challenge));
        if sent.Failure? then None else AtReply(x, c2)
    else Some(c.(log := c1.log))
  }

  /** One line on the way to the reply. */
  lemma AtReplyNext(x: Scheme, c: Conn)
    requires TakeLine(c).0.Success?
    ensures var (line, c1) := TakeLine(c);
            && (IsComment(line.value) ==> AtReply(x, c) == AtReply(x, c1))
            && (!IsComment(line.value) && !IsContinuation(line.value) ==> AtReply(x, c) == Some(c.(log := c1.log)))
  {
    hide IsComment, IsContinuation, WriteThenFlush;
  }

  lemma {:induction false} HandshakeAtReply(p: Parser, x: Scheme, c: Conn)
    ensures var at, r := AtReply(x, c), Handshake(p, x, c);
            && (at.None? ==> r.0.Failure?)
            && (at.Some? ==>
                  && at.value.tag == c.tag
                  && r == (Completion(TakeReply(p, at.value).0), TakeReply(p, at.value).1))
    decreases |c.incoming|
  {
    hide Challenge, Reaction, WriteThenFlush, ReadReply;
    var (line, c1) := TakeLine(c);
    if line.Success? && IsComment(line.value) {
      HandshakeAtReply(p, x, c1);
    } else if line.Success? && IsContinuation(line.value) && Challenge(x, line.value).Success? {
      HandshakeAtReply(p, x, SendLine(c1, Reaction(x, Challenge(x, line.value).value)).1);
    }
  }

  /** The reply that AUTHENTICATE needs begins right at `at`. */
  ghost predicate CompletedAt(p: Parser, at: Conn) {
    exists data: bytes, i: nat :: data <= Arrived(at.incoming) && OkReply(p, at.tag, data, i)
  }

  /** There is a session exactly if the handshake comes to a reply, and what arrives from there on
      begins with untagged responses and the completion of AUTHENTICATE, with status OK. */
  lemma SessionIff(p: Parser, x: Scheme, c: Conn)
    ensures Handshake(p, x, c).0.Success? <==> AtReply(x, c).Some? && CompletedAt(p, AtReply(x, c).value)
  {
    hide AtReply, Handshake, ReadReply, OkReply;
    HandshakeAtReply(p, x, c);
    if AtReply(x, c).Some? {
      var at := AtReply(x, c).value;
      var reading := ReadReply(p, at.tag, at.incoming);
      if reading.result.Success? {
        ReplyOkIff(p, at.tag, at.incoming, reading.data, reading.result.value);
      }
      if CompletedAt(p, at) {
        var data: bytes, i: nat :| data <= Arrived(at.incoming) && OkReply(p, at.tag, data, i);
        ReplyOkIff(p, at.tag, at.incoming, data, i);
      }
    }
  }

  predicate AllPassed(lines: seq<bytes>) {
    forall i :: 0 <= i < |lines| ==> IsComment(lines[i]) || IsContinuation(lines[i])
  }

  /** Where the reply is taken to begin: at the first line that is neither a comment nor a
      continuation, whatever that line is part of. */
  lemma {:induction false} ReplyIsFirstOther(x: Scheme, c: Conn) returns (passed: bytes)
    requires AtReply(x, c).Some?
    ensures var at := AtReply(x, c).value;
            && (passed == [] || Terminated(passed)) && AllPassed(CompleteLines(passed))
            && c.incoming == Clean(passed) + at.incoming
            && NextRead(at.incoming).Line?
            && !IsComment(NextRead(at.incoming).line) && !IsContinuation(NextRead(at.incoming).line)
    decreases |c.incoming|
  {
    hide *;
    AtReplySteps(x, c);
    var line := TakeLine(c).0.value;
    if !IsComment(line) && !IsContinuation(line) {
      passed := [];
      CleanNothing(c.incoming);
      NothingPassed();
    } else {
      var c2 := AfterOne(x, c);
      AtReplyTerminates(c, c2);
      var later := ReplyIsFirstOther(x, c2);
      MoreToCome(x, c2);
      LinePassed(c, c2, line, later, AtReply(x, c2).value.incoming);
      passed := line + later;
    }
  }

  /** The connection after a comment has been dropped or a continuation answered. */
  function AfterOne(x: Scheme, c: Conn): (c2: Conn)
    requires TakeLine(c).0.Success?
  {
    var (line, c1) := TakeLine(c);
    if IsComment(line.value) || Challenge(x, line.value).Failure? then c1
    else SendLine(c1, Reaction(x, Challenge(x, line.value).value)).1
  }

  lemma AtReplySteps(x: Scheme, c: Conn)
    requires AtReply(x, c).Some?
    ensures TakeLine(c).0.Success? && NextRead(c.incoming) == Line(TakeLine(c).0.value)
    ensures var line := TakeLine(c).0.value;
            && AfterOne(x, c).incoming == TakeLine(c).1.incoming
            && if IsComment(line) || IsContinuation(line) then AtReply(x, c) == AtReply(x, AfterOne(x, c))
               else AtReply(x, c).value.incoming == c.incoming
  {
    hide Challenge, Reaction, WriteThenFlush, IsComment, IsContinuation;
  }

  lemma AtReplyTerminates(c: Conn, c2: Conn)
    requires TakeLine(c).0.Success? && c2.incoming == TakeLine(c).1.incoming
    ensures |c2.incoming| < |c.incoming|
  {
  }

  lemma NothingPassed()
    ensures AllPassed(CompleteLines([]))
  {
  }

  lemma LinePassed(c: Conn, c2: Conn, line: bytes, later: bytes, rest: seq<Event>)
    requires TakeLine(c).0 == Success(line) && c2.incoming == TakeLine(c).1.incoming && c2.incoming != []
    requires (later == [] || Terminated(later)) && AllPassed(CompleteLines(later)) && c2.incoming == Clean(later) + rest
    requires IsComment(line) || IsContinuation(line)
    ensures Terminated(line + later) && AllPassed(CompleteLines(line + later))
    ensures c.incoming == Clean(line + later) + rest
  {
    hide IsComment, IsContinuation, Clean;
    NextReadIsLine(c.incoming);
    LineAndLines(line, later);
    CleanAppend(line, later, rest);
  }

  lemma MoreToCome(x: Scheme, c: Conn)
    requires AtReply(x, c).Some?
    ensures c.incoming != []
  {
  }

  lemma LineAndLines(line: bytes, later: bytes)
    requires IsLine(line) && Terminated(line)
    ensures CompleteLines(line + later) == [line] + CompleteLines(later)
    ensures later == [] || Terminated(later) ==> Terminated(line + later)
  {
    Appending.LineStopAt(line, later);
    assert (line + later)[..|line|] == line && (line + later)[|line|..] == later;
    if later == [] {
      assert line + later == line;
    }
  }

  // ------------------------------------------------------------------ What is dropped

  predicate AllComments(lines: seq<bytes>) {
    forall i :: 0 <= i < |lines| ==> IsComment(lines[i])
  }

  function Gots(lines: seq<bytes>): (calls: seq<Call>)
    ensures |calls| == |lines|
    ensures forall i :: 0 <= i < |lines| ==> calls[i] == Got(lines[i])
  {
    seq(|lines|, i requires 0 <= i < |lines| => Got(lines[i]))
  }

  /** As if the lines of `r` had only been read. */
  function Past(c: Conn, r: bytes, rest: seq<Event>): Conn {
    c.(incoming := rest, log := c.log + Gots(CompleteLines(r)))
  }

  /**
   What the server says is dropped exactly if every line of it begins with `* `: an untagged
   response whose literal has a line break never is, unless all of its later lines happen to look
   like comments too.
   */
  lemma {:induction false} DroppedIff(p: Parser, x: Scheme, c: Conn, r: bytes, rest: seq<Event>)
    requires (r == [] || Terminated(r)) && c.incoming == Clean(r) + rest
    ensures Handshake(p, x, c) == Handshake(p, x, Past(c, r, rest)) <==> AllComments(CompleteLines(r))
    decreases |r|
  {
    if r == [] {
      CleanNothing(rest);
      hide Handshake;
      assert c.log + Gots([]) == c.log;
    } else {
      var line, later := r[..LineStop(r, 0)], r[LineStop(r, 0)..];
      hide *;
      var c1 := FirstPast(c, r, rest);
      CommentsNext(line, CompleteLines(later));
      if IsComment(line) {
        HandshakeNext(p, x, c);
        DroppedIff(p, x, c1, later, rest);
      } else {
        Diverges(p, x, c, line, Past(c, r, rest), Gots(CompleteLines(later)));
      }
    }
  }

  /** Reading the first line of `r`. */
  lemma FirstPast(c: Conn, r: bytes, rest: seq<Event>) returns (c1: Conn)
    requires Terminated(r) && c.incoming == Clean(r) + rest
    ensures var line, later := r[..LineStop(r, 0)], r[LineStop(r, 0)..];
            && TakeLine(c) == (Success(line), c1)
            && |later| < |r| && (later == [] || Terminated(later)) && c1.incoming == Clean(later) + rest
            && CompleteLines(r) == [line] + CompleteLines(later)
            && Past(c, r, rest) == Past(c1, later, rest)
            && Past(c, r, rest).log == (c.log + [Got(line)]) + Gots(CompleteLines(later))
  {
    hide *;
    var line, later := PeelLine(r);
    CleanAppend(line, later, rest);
    c1 := ReadsLine(c, line, Clean(later) + rest);
    PastNext(c, line, CompleteLines(later));
    PastIs(c, r, rest);
    PastIs(c1, later, rest);
  }

  lemma PeelLine(r: bytes) returns (line: bytes, later: bytes)
    requires Terminated(r)
    ensures line == r[..LineStop(r, 0)] && later == r[LineStop(r, 0)..] && r == line + later && |later| < |r|
    ensures IsLine(line) && Terminated(line) && (later == [] || Terminated(later))
    ensures CompleteLines(r) == [line] + CompleteLines(later)
  {
    line, later := r[..LineStop(r, 0)], r[LineStop(r, 0)..];
    FirstLine(r);
    assert r == line + later;
    LineAndLines(line, later);
  }

  lemma ReadsLine(c: Conn, line: bytes, ev: seq<Event>) returns (c1: Conn)
    requires IsLine(line) && Terminated(line) && c.incoming == Clean(line) + ev
    ensures TakeLine(c) == (Success(line), c1)
    ensures c1 == c.(incoming := ev, log := c.log + [Got(line)])
  {
    ReadLineBack(line, ev);
    assert c.incoming[|line|..] == ev;
    c1 := TakeLine(c).1;
  }

  lemma PastIs(c: Conn, r: bytes, rest: seq<Event>)
    ensures Past(c, r, rest) == c.(incoming := rest, log := c.log + Gots(CompleteLines(r)))
  {
  }

  lemma PastNext(c: Conn, line: bytes, lines: seq<bytes>)
    ensures c.log + Gots([line] + lines) == (c.log + [Got(line)]) + Gots(lines)
  {
    assert Gots([line] + lines) == [Got(line)] + Gots(lines);
    LaterCalls(c.log, [Got(line)], Gots(lines));
  }

  lemma CommentsNext(line: bytes, later: seq<bytes>)
    ensures AllComments([line] + later) <==> IsComment(line) && AllComments(later)
  {
    assert ([line] + later)[0] == line;
    assert forall i :: 0 <= i < |later| ==> ([line] + later)[i + 1] == later[i];
  }

  /** After a line that is not a comment nothing is read before something is written or replied. */
  lemma NotReadOn(p: Parser, x: Scheme, c: Conn, line: bytes)
    requires TakeLine(c).0 == Success(line) && !IsComment(line)
    ensures var log := Handshake(p, x, c).1.log;
            |log| > |c.log| + 1 ==> log[|c.log| + 1].Wrote? || log[|c.log| + 1].Replied?
  {
    hide Challenge, Reaction, WriteThenFlush, ReadReply, IsComment, IsContinuation, Handshake;
    HandshakeNext(p, x, c);
    var c1 := TakeLine(c).1;
    assert c1.log == c.log + [Got(line)];
    if IsContinuation(line) && Challenge(x, line).Success? {
      var c2 := SendLine(c1, Reaction(x, Challenge(x, line).value)).1;
      var calls := HandshakeIsOrderly(p, x, c2);
      assert (c2.log + calls)[|c.log| + 1] == c2.log[|c.log| + 1];
    }
  }

  lemma Diverges(p: Parser, x: Scheme, c: Conn, line: bytes, past: Conn, gots: seq<Call>)
    requires TakeLine(c).0 == Success(line) && !IsComment(line)
    requires past.log == (c.log + [Got(line)]) + gots && forall i :: 0 <= i < |gots| ==> gots[i].Got?
    ensures Handshake(p, x, c) != Handshake(p, x, past)
  {
    hide TakeLine, IsComment, Handshake;
    NotReadOn(p, x, c, line);
    var calls := HandshakeIsOrderly(p, x, past);
    var log := past.log + calls;
    assert |log| > |c.log| + 1;
    assert log[|c.log| + 1] == (gots + calls)[0];
    assert calls[0].Got? || calls[0].Missed?;
  }

  // ------------------------------------------------------------------ The server's script

  datatype Turn = Comment(text: bytes) | Ask(data: bytes) | AskBare

  function Render(turn: Turn): bytes {
    match turn
    case Comment(text) => "* " + text + CRLF
    case Ask(data) => "+ " + data + CRLF
    case AskBare => BARE
  }

  function RenderAll(turns: seq<Turn>): bytes {
    if turns == [] then [] else Render(turns[0]) + RenderAll(turns[1..])
  }

  predicate ValidTurn(x: Scheme, turn: Turn) {
    match turn
    case Comment(text) => Appending.NoLf(text)
    case Ask(data) => Appending.NoLf(data) && x.isUtf8(Render(turn)) && x.decode(data).Some?
    case AskBare => true
  }

  predicate ValidTurns(x: Scheme, turns: seq<Turn>) {
    forall i :: 0 <= i < |turns| ==> ValidTurn(x, turns[i])
  }

  /** The line that answers a turn that is not a comment. */
  function AnswerTo(x: Scheme, turn: Turn): bytes
    requires ValidTurn(x, turn) && !turn.Comment?
  {
    match turn
    case Ask(data) => x.encode(x.process(x.decode(data).value))
    case AskBare => x.encode(x.process([]))
  }

  /** What is to be written in answer to the turns: one line for each that is not a comment. */
  function Reactions(x: Scheme, turns: seq<Turn>): seq<bytes>
    requires ValidTurns(x, turns)
  {
    if turns == [] then []
    else if turns[0].Comment? then Reactions(x, turns[1..])
    else [AnswerTo(x, turns[0]) + CRLF] + Reactions(x, turns[1..])
  }

  /** The calls it takes, in order. */
  function CallsOf(x: Scheme, turn: Turn): seq<Call>
    requires ValidTurn(x, turn)
  {
    [Got(Render(turn))] + if turn.Comment? then [] else [Wrote(AnswerTo(x, turn), true)]
  }

  function Calls(x: Scheme, turns: seq<Turn>): seq<Call>
    requires ValidTurns(x, turns)
  {
    if turns == [] then [] else CallsOf(x, turns[0]) + Calls(x, turns[1..])
  }

  /** The challenge is read off its line; `+` alone asks with the empty challenge. */
  lemma TurnIsRead(x: Scheme, turn: Turn)
    requires ValidTurn(x, turn)
    ensures var line := Render(turn);
            && IsLine(line) && Terminated(line)
            && (IsComment(line) <==> turn.Comment?)
            && (IsContinuation(line) <==> !turn.Comment?)
            && (!turn.Comment? ==>
                  Challenge(x, line).Success? && Reaction(x, Challenge(x, line).value) == AnswerTo(x, turn))
  {
    match turn {
      case Comment(text) => CommentRead(text);
      case Ask(data) => AskRead(x, data);
      case AskBare =>
        assert BARE[0] == '+' && "* "[0] == '*';
    }
  }

  lemma CommentRead(text: bytes)
    ensures IsComment("* " + text + CRLF) && !IsContinuation("* " + text + CRLF)
  {
    var line := "* " + text + CRLF;
    assert line[..2] == "* ";
    assert line[0] == '*' && BARE[0] == '+' && "+ "[0] == '+';
  }

  lemma AskRead(x: Scheme, data: bytes)
    ensures var line := "+ " + data + CRLF;
            && !IsComment(line) && IsContinuation(line)
            && ParseAuthenticateResponse(line) == Success(data) && line != BARE
  {
    var line := "+ " + data + CRLF;
    assert line[..2] == "+ ";
    assert line[0] == '+' && line[1] == ' ' && "* "[0] == '*' && BARE[1] == CR;
    assert line[2..|line| - 2] == data;
  }

  /** `+` and `+ ` ask for the same, if nothing decodes to nothing. */
  lemma BothEmptyChallenges(x: Scheme)
    requires x.isUtf8("+ \r\n")
    ensures Challenge(x, "+\r\n") == Success([])
    ensures Challenge(x, "+ \r\n") == Success([]) <==> x.decode([]) == Some([])
  {
    var line := "+ \r\n";
    assert line[2..|line| - 2] == [];
  }

  predicate StartsReply(reply: bytes) {
    var first := reply[..LineStop(reply, 0)];
    !IsComment(first) && !IsContinuation(first)
  }

  function Concat(lines: seq<bytes>): bytes {
    if lines == [] then [] else lines[0] + Concat(lines[1..])
  }

  /** The outbox after the line that answers a turn. */
  function WriteReaction(o: Outbox, x: Scheme, turn: Turn): (Res<()>, Outbox)
    requires ValidTurn(x, turn)
  {
    if turn.Comment? then (Success(()), o) else WriteThenFlush(o, [AnswerTo(x, turn), CRLF])
  }

  /** The outbox after all the turns, if every write succeeds. */
  function WriteReactions(o: Outbox, x: Scheme, turns: seq<Turn>): (Res<()>, Outbox)
    requires ValidTurns(x, turns)
    decreases |turns|
  {
    if turns == [] then (Success(()), o)
    else
      var (r, o') := WriteReaction(o, x, turns[0]);
      if r.Failure? then (r, o') else WriteReactions(o', x, turns[1..])
  }

  /** Then exactly the lines that answer the continuations have been written. */
  lemma {:induction false} ReactionsWritten(o: Outbox, x: Scheme, turns: seq<Turn>)
    requires ValidTurns(x, turns) && WriteReactions(o, x, turns).0.Success?
    ensures WriteReactions(o, x, turns).1.written == o.written + Concat(Reactions(x, turns))
    decreases |turns|
  {
    if turns == [] {
      assert o.written + [] == o.written;
    } else {
      hide WriteThenFlush, ValidTurn, AnswerTo;
      var text := if turns[0].Comment? then [] else AnswerTo(x, turns[0]);
      var o1 := WriteReaction(o, x, turns[0]).1;
      ReactionsWritten(o1, x, turns[1..]);
      TurnsLater(x, o.written, turns, text);
      if turns[0].Comment? {
        assert o.written + [] == o.written;
      } else {
        WriteThenFlushWrites(o, [text, CRLF]);
        Sessions.FlattenTwo(text, CRLF);
      }
    }
  }

  /** One turn of the script. */
  lemma TurnTaken(p: Parser, x: Scheme, c: Conn, turn: Turn, rest: seq<Event>)
    requires ValidTurn(x, turn) && WriteReaction(c.out, x, turn).0.Success?
    requires c.incoming == Clean(Render(turn)) + rest
    ensures Handshake(p, x, c) ==
            Handshake(p, x, Conn(c.tag, rest, WriteReaction(c.out, x, turn).1, c.log + CallsOf(x, turn)))
  {
    hide Challenge, Reaction, ReadReply, Render, ValidTurn, WriteThenFlush;
    var line := Render(turn);
    TurnIsRead(x, turn);
    ReadLineBack(line, rest);
    assert c.incoming[|line|..] == rest;
    HandshakeNext(p, x, c);
    var (read, c1) := TakeLine(c);
    assert c1 == Conn(c.tag, rest, c.out, c.log + [Got(line)]);
    assert [Got(line)] + [] == [Got(line)];
    if !turn.Comment? {
      LaterCalls(c.log, [Got(line)], [Wrote(AnswerTo(x, turn), true)]);
    }
  }

  lemma FirstTaken(c: Conn, reply: bytes, rest: seq<Event>)
    requires Terminated(reply) && c.incoming == Clean(reply) + rest
    ensures var first := reply[..LineStop(reply, 0)];
            TakeLine(c).0 == Success(first) && TakeLine(c).1.log == c.log + [Got(first)]
  {
    FirstLine(reply);
    var first, later := reply[..LineStop(reply, 0)], reply[LineStop(reply, 0)..];
    assert reply == first + later;
    CleanAppend(first, later, rest);
    ReadLineBack(first, Clean(later) + rest);
  }

  lemma ReplyRead(p: Parser, c: Conn, s: Lockstep.Segment, rest: seq<Event>)
    requires Lockstep.Answers(p, c.tag, s) && c.incoming == Clean(s.reply) + rest
    ensures var r := Lockstep.OwnAnswer(p, c.tag, s);
            TakeReply(p, c) == (r, Conn(c.tag, rest, c.out, c.log + [Replied(c.tag, r.Success?)]))
  {
    hide ReadReply;
    Lockstep.ReadsOwnSegment(p, c.tag, s, rest);
  }

  lemma ReplyTaken(p: Parser, x: Scheme, c: Conn, s: Lockstep.Segment, rest: seq<Event>)
    requires Lockstep.Answers(p, c.tag, s) && StartsReply(s.reply)
    requires c.incoming == Clean(s.reply) + rest
    ensures var first := s.reply[..LineStop(s.reply, 0)];
            var r := Completion(Lockstep.OwnAnswer(p, c.tag, s));
            Handshake(p, x, c) ==
            (r, Conn(c.tag, rest, c.out, c.log + [Got(first), Replied(c.tag, r.Success?)]))
  {
    hide Challenge, Reaction, WriteThenFlush, Handshake, TakeLine, TakeReply, Lockstep.Answers, Lockstep.OwnAnswer;
    var first := s.reply[..LineStop(s.reply, 0)];
    Lockstep.SegmentTerminated(p, c.tag, s);
    FirstTaken(c, s.reply, rest);
    HandshakeNext(p, x, c);
    var got := [Got(first)];
    var replied := [Replied(c.tag, Lockstep.OwnAnswer(p, c.tag, s).Success?)];
    ReplyRead(p, c.(log := c.log + got), s, rest);
    LaterCalls(c.log, got, replied);
    assert got + replied == [got[0], replied[0]];
  }

  /**
   Any script of comments, valid continuations and a completion, as long as the writes succeed:
   exactly one line is written for each continuation, the answer to its challenge, before the next
   line is read; the outcome is that of the completion, and nothing beyond it is consumed.
   */
  lemma {:induction false} HandshakeFollowsScript(p: Parser, x: Scheme, c: Conn, turns: seq<Turn>,
                                                  s: Lockstep.Segment, rest: seq<Event>)
    requires ValidTurns(x, turns) && WriteReactions(c.out, x, turns).0.Success?
    requires Lockstep.Answers(p, c.tag, s) && StartsReply(s.reply)
    requires c.incoming == Clean(RenderAll(turns)) + (Clean(s.reply) + rest)
    ensures var first := s.reply[..LineStop(s.reply, 0)];
            var r := Completion(Lockstep.OwnAnswer(p, c.tag, s));
            Handshake(p, x, c) ==
            (r, Conn(c.tag, rest, WriteReactions(c.out, x, turns).1,
                     c.log + Calls(x, turns) + [Got(first), Replied(c.tag, r.Success?)]))
    decreases |turns|
  {
    hide Challenge, Reaction, ReadReply, Render, ValidTurn, Handshake, StartsReply, WriteReaction, CallsOf,
         Lockstep.Answers, Lockstep.OwnAnswer;
    var reply := Clean(s.reply) + rest;
    if turns == [] {
      CleanNothing(reply);
      ReplyTaken(p, x, c, s, rest);
      assert c.log + [] == c.log;
    } else {
      var turn, later := turns[0], turns[1..];
      CleanAppend(Render(turn), RenderAll(later), reply);
      TurnTaken(p, x, c, turn, Clean(RenderAll(later)) + reply);
      var c1 := Conn(c.tag, Clean(RenderAll(later)) + reply, WriteReaction(c.out, x, turn).1, c.log + CallsOf(x, turn));
      HandshakeFollowsScript(p, x, c1, later, s, rest);
      LaterCalls(c.log, CallsOf(x, turn), Calls(x, later));
    }
  }

  lemma TurnsLater(x: Scheme, written: bytes, turns: seq<Turn>, text: bytes)
    requires ValidTurns(x, turns) && turns != []
    requires text == if turns[0].Comment? then [] else AnswerTo(x, turns[0])
    ensures ValidTurns(x, turns[1..])
    ensures var wrote := if turns[0].Comment? then [] else text + CRLF;
            (written + wrote) + Concat(Reactions(x, turns[1..])) == written + Concat(Reactions(x, turns))
  {
    var wrote := if turns[0].Comment? then [] else text + CRLF;
    if !turns[0].Comment? {
      assert ([text + CRLF] + Reactions(x, turns[1..]))[1..] == Reactions(x, turns[1..]);
    }
    Associative(written, wrote, Concat(Reactions(x, turns[1..])));
  }
}
