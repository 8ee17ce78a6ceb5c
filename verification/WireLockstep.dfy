/**
 Whole runs against a server that answers the lines it finds on the wire, whatever the client
 makes of its own writes.
 */
module WireLockstep {
  import opened Wrappers
  import opened Sequences
  import opened Text
  import opened Responses
  import opened Parsing
  import opened Framing
  import opened Transport
  import opened Connections
  import opened Lockstep
  import opened Appending
  import opened Wire
  import Sessions
  import Clients

  /** A server that answers each command line by its tag. */
  ghost predicate Serves(p: Parser, serve: bytes -> Segment) {
    forall tag: u32, command: bytes ::
      NoLf(command) ==> Answers(p, tag, serve(LineOf(tag, command)))
  }

  function Served(serve: bytes -> Segment, lines: seq<bytes>): (segments: seq<Segment>)
    ensures |segments| == |lines|
  {
    if lines == [] then [] else [serve(lines[0])] + Served(serve, lines[1..])
  }

  function WriteCommand(o: Outbox, tag: u32, command: bytes): (Res<()>, Outbox) {
    WriteThenFlush(o, [CommandLine(tag, command), CRLF])
  }

  /** The lines of the commands whose writes succeed. */
  function DeliveredLines(o: Outbox, tag: u32, commands: seq<bytes>): seq<bytes>
    decreases |commands|
  {
    if commands == [] then []
    else
      var (r, o') := WriteCommand(o, NextTag(tag), commands[0]);
      if r.Failure? then DeliveredLines(o', tag, commands[1..])
      else [LineOf(NextTag(tag), commands[0])] + DeliveredLines(o', NextTag(tag), commands[1..])
  }

  /** A write that fails leaves nothing on the wire. */
  predicate NoResidue(o: Outbox, tag: u32, commands: seq<bytes>)
    decreases |commands|
  {
    commands == [] ||
    var (r, o') := WriteCommand(o, NextTag(tag), commands[0]);
    && (r.Failure? ==> o'.written == o.written)
    && NoResidue(o', if r.Success? then NextTag(tag) else tag, commands[1..])
  }

  predicate AllNoLf(commands: seq<bytes>) {
    forall i :: 0 <= i < |commands| ==> NoLf(commands[i])
  }

  // ------------------------------------------------------------------ What is on the wire

  lemma CommandWritten(o: Outbox, tag: u32, command: bytes)
    ensures var (r, o') := WriteCommand(o, tag, command);
            r.Success? ==> o'.written == o.written + LineOf(tag, command)
  {
    WriteThenFlushWrites(o, [CommandLine(tag, command), CRLF]);
    Sessions.FlattenTwo(CommandLine(tag, command), CRLF);
  }

  /** Without residue the wire holds the delivered lines and nothing else. */
  lemma {:induction false} WireIsDelivered(p: Parser, c: Conn, commands: seq<bytes>)
    requires NoResidue(c.out, c.tag, commands)
    ensures RunAll(p, c, commands).1.out.written ==
            c.out.written + Clients.Concat(DeliveredLines(c.out, c.tag, commands))
    decreases |commands|
  {
    hide ReadReply, WriteThenFlush;
    if commands == [] {
      assert c.out.written + [] == c.out.written;
    } else {
      var tag := NextTag(c.tag);
      var (r, o) := WriteCommand(c.out, tag, commands[0]);
      CommandWritten(c.out, tag, commands[0]);
      var c1 := RunCommandAndReply(p, c, commands[0]).1;
      assert c1.out == o && c1.tag == if r.Success? then tag else c.tag;
      WireIsDelivered(p, c1, commands[1..]);
      if r.Success? {
        var later := DeliveredLines(o, tag, commands[1..]);
        assert ([LineOf(tag, commands[0])] + later)[1..] == later;
        Associative(c.out.written, LineOf(tag, commands[0]), Clients.Concat(later));
      }
    }
  }

  lemma {:induction false} DeliveredAreLines(o: Outbox, tag: u32, commands: seq<bytes>)
    requires AllNoLf(commands)
    ensures CompleteLines(Clients.Concat(DeliveredLines(o, tag, commands))) == DeliveredLines(o, tag, commands)
    decreases |commands|
  {
    if commands != [] {
      hide WriteThenFlush;
      var (r, o') := WriteCommand(o, NextTag(tag), commands[0]);
      DeliveredAreLines(o', if r.Success? then NextTag(tag) else tag, commands[1..]);
      if r.Success? {
        var line, later := LineOf(NextTag(tag), commands[0]), DeliveredLines(o', NextTag(tag), commands[1..]);
        LineOfIsLine(NextTag(tag), commands[0]);
        LineFirst(line, Clients.Concat(later));
        assert ([line] + later)[1..] == later;
      }
    }
  }

  // ------------------------------------------------------------------ Lockstep

  lemma {:induction false} ServedInTurn(p: Parser, serve: bytes -> Segment, o: Outbox, tag: u32, commands: seq<bytes>)
    requires Serves(p, serve) && AllNoLf(commands) && tag + |commands| < 0x1_0000_0000
    ensures AnswersInTurn(p, tag, Served(serve, DeliveredLines(o, tag, commands)))
    ensures |DeliveredLines(o, tag, commands)| == Count(Delivered(o, tag, commands))
    decreases |commands|
  {
    if commands != [] {
      hide WriteThenFlush, Answers;
      var (r, o') := WriteCommand(o, NextTag(tag), commands[0]);
      var tag' := if r.Success? then NextTag(tag) else tag;
      ServedInTurn(p, serve, o', tag', commands[1..]);
      var oks := Delivered(o', tag', commands[1..]);
      assert ([r.Success?] + oks)[1..] == oks;
      if r.Success? {
        var lines := DeliveredLines(o, tag, commands);
        assert lines[1..] == DeliveredLines(o', tag', commands[1..]);
        assert Served(serve, lines)[1..] == Served(serve, lines[1..]);
      }
    }
  }

  /**
   A server that answers every line it receives: as long as no failed write leaves octets on the
   wire, every call returns the answer to its own line, and everything the server has sent is used up.
   */
  lemma LockstepOnTheWire(p: Parser, serve: bytes -> Segment, c: Conn, commands: seq<bytes>, wire: bytes, rest: seq<Event>)
    requires Serves(p, serve) && AllNoLf(commands) && c.tag + |commands| < 0x1_0000_0000
    requires NoResidue(c.out, c.tag, commands)
    requires RunAll(p, c, commands).1.out.written == c.out.written + wire
    requires c.incoming == Clean(Script(Served(serve, CompleteLines(wire)))) + rest
    ensures var (results, c') := RunAll(p, c, commands);
            && InStep(p, c.tag, Delivered(c.out, c.tag, commands), Served(serve, CompleteLines(wire)), results)
            && c'.incoming == rest && c'.tag == c.tag + |CompleteLines(wire)|
  {
    hide *;
    var lines := DeliveredLines(c.out, c.tag, commands);
    WireIsDelivered(p, c, commands);
    SameRest(c.out.written, wire, Clients.Concat(lines));
    DeliveredAreLines(c.out, c.tag, commands);
    ServedInTurn(p, serve, c.out, c.tag, commands);
    RunsInLockstep(p, c, commands, Served(serve, lines), rest);
  }

  lemma SameRest(a: bytes, b: bytes, c: bytes)
    requires a + b == a + c
    ensures b == c
  {
    assert b == (a + b)[|a|..] && c == (a + c)[|a|..];
  }

  // ------------------------------------------------------------------ Exactly when

  /** A write that fails leaves nothing on the wire, or all of its line. */
  predicate WholeOrNothing(o: Outbox, tag: u32, commands: seq<bytes>)
    decreases |commands|
  {
    commands == [] ||
    var (r, o') := WriteCommand(o, NextTag(tag), commands[0]);
    && (r.Failure? ==> o'.written == o.written || o'.written == o.written + LineOf(NextTag(tag), commands[0]))
    && WholeOrNothing(o', if r.Success? then NextTag(tag) else tag, commands[1..])
  }

  /** How many failed writes leave their line on the wire. */
  function Stray(o: Outbox, tag: u32, commands: seq<bytes>): nat
    decreases |commands|
  {
    if commands == [] then 0
    else
      var (r, o') := WriteCommand(o, NextTag(tag), commands[0]);
      (if r.Failure? && o'.written == o.written + LineOf(NextTag(tag), commands[0]) then 1 else 0)
      + Stray(o', if r.Success? then NextTag(tag) else tag, commands[1..])
  }

  function Lfs(s: bytes): nat {
    if s == [] then 0 else (if s[0] == LF then 1 else 0) + Lfs(s[1..])
  }

  lemma {:induction false} LfsAppend(a: bytes, b: bytes)
    ensures Lfs(a + b) == Lfs(a) + Lfs(b)
  {
    if a == [] {
      assert a + b == b;
    } else {
      assert (a + b)[1..] == a[1..] + b;
      LfsAppend(a[1..], b);
    }
  }

  lemma {:induction false} NoLfsIn(s: bytes)
    requires NoLf(s)
    ensures Lfs(s) == 0
  {
    if s != [] {
      NoLfsIn(s[1..]);
    }
  }

  lemma OneLf(line: bytes)
    requires line != [] && line[|line| - 1] == LF && NoLf(line[..|line| - 1])
    ensures Lfs(line) == 1
  {
    var init := line[..|line| - 1];
    assert line == init + [LF];
    NoLfsIn(init);
    LfsAppend(init, [LF]);
  }

  /** There is a complete line for each LF. */
  lemma {:induction false} LinesAreLfs(v: bytes)
    ensures |CompleteLines(v)| == Lfs(v)
    decreases |v|
  {
    if v != [] {
      var e := LineStop(v, 0);
      if v[e - 1] == LF {
        assert v == v[..e] + v[e..];
        assert v[..e][..e - 1] == v[..e - 1];
        OneLf(v[..e]);
        LfsAppend(v[..e], v[e..]);
        LinesAreLfs(v[e..]);
      } else {
        NoLfsIn(v);
      }
    }
  }

  lemma CommandLfs(o: Outbox, tag: u32, command: bytes)
    requires NoLf(command)
    ensures var (r, o') := WriteCommand(o, tag, command);
            && Lfs(LineOf(tag, command)) == 1 && Lfs(o.written + LineOf(tag, command)) == Lfs(o.written) + 1
            && (r.Success? ==> Lfs(o'.written) == Lfs(o.written) + 1)
  {
    CommandWritten(o, tag, command);
    LineOfIsLine(tag, command);
    OneLf(LineOf(tag, command));
    LfsAppend(o.written, LineOf(tag, command));
  }

  /** Each command that succeeds puts one LF on the wire, and so does each stray line. */
  lemma {:induction false} WireLfs(p: Parser, c: Conn, commands: seq<bytes>)
    requires AllNoLf(commands) && WholeOrNothing(c.out, c.tag, commands)
    ensures Lfs(RunAll(p, c, commands).1.out.written) ==
            Lfs(c.out.written) + Count(Delivered(c.out, c.tag, commands)) + Stray(c.out, c.tag, commands)
    decreases |commands|
  {
    if commands != [] {
      hide ReadReply, WriteThenFlush, LineOf, NoLf, Lfs;
      CommandLfs(c.out, NextTag(c.tag), commands[0]);
      var c1 := RunCommandAndReply(p, c, commands[0]).1;
      WireLfs(p, c1, commands[1..]);
      FirstOfRun(p, c, commands);
    }
  }

  lemma {:induction false} NoStrayNoResidue(o: Outbox, tag: u32, commands: seq<bytes>)
    requires WholeOrNothing(o, tag, commands)
    ensures Stray(o, tag, commands) == 0 <==> NoResidue(o, tag, commands)
    decreases |commands|
  {
    if commands != [] {
      hide WriteThenFlush;
      var (r, o') := WriteCommand(o, NextTag(tag), commands[0]);
      NoStrayNoResidue(o', if r.Success? then NextTag(tag) else tag, commands[1..]);
      LineOfNotEmpty(o.written, NextTag(tag), commands[0]);
    }
  }

  lemma LineOfNotEmpty(written: bytes, tag: u32, command: bytes)
    ensures written + LineOf(tag, command) != written
  {
    assert |written + LineOf(tag, command)| > |written|;
  }

  /**
   If every failed write leaves nothing on the wire or all of its line, a run against a server
   that answers every line is in step exactly if none leaves its line: wherever in the run one does,
   some call does not return the answer to its own line.
   */
  lemma InStepOnTheWireIff(p: Parser, serve: bytes -> Segment, c: Conn, commands: seq<bytes>, wire: bytes, rest: seq<Event>)
    requires Serves(p, serve) && AllNoLf(commands) && c.tag + |commands| < 0x1_0000_0000
    requires WholeOrNothing(c.out, c.tag, commands)
    requires RunAll(p, c, commands).1.out.written == c.out.written + wire
    requires c.incoming == Clean(Script(Served(serve, CompleteLines(wire)))) + rest
    ensures InStep(p, c.tag, Delivered(c.out, c.tag, commands), Served(serve, CompleteLines(wire)),
                   RunAll(p, c, commands).0)
            <==> NoResidue(c.out, c.tag, commands)
  {
    hide *;
    var oks, segments := Delivered(c.out, c.tag, commands), Served(serve, CompleteLines(wire));
    if NoResidue(c.out, c.tag, commands) {
      LockstepOnTheWire(p, serve, c, commands, wire, rest);
    }
    if InStep(p, c.tag, oks, segments, RunAll(p, c, commands).0) {
      if oks != [] {
        InStepAt(p, c.tag, oks, segments, RunAll(p, c, commands).0, 0);
        WireLfs(p, c, commands);
        LfsAppend(c.out.written, wire);
        LinesAreLfs(wire);
      } else {
        NothingStray(c.out, c.tag, commands);
      }
      NoStrayNoResidue(c.out, c.tag, commands);
    }
  }

  lemma NothingStray(o: Outbox, tag: u32, commands: seq<bytes>)
    ensures commands == [] ==> Stray(o, tag, commands) == 0
  {
  }

  // ------------------------------------------------------------------ A line that strays

  /**
   A command whose write fails but whose line is on the wire, as when only the flush fails: the
   server answers it; the next command, under the same tag, takes that stale completion for its
   own, and its own answer stays behind. This is so at whatever point of a run it happens.
   */
  lemma StrayLineIsAnswered(p: Parser, serve: bytes -> Segment, c: Conn, x: bytes, y: bytes, rest: seq<Event>)
    requires Serves(p, serve) && NoLf(x) && NoLf(y)
    requires var (sent, c1) := SendCommand(c, x);
             && sent.Failure? && c1.out.written == c.out.written + LineOf(NextTag(c.tag), x)
             && SendCommand(c1, y).0.Success?
    requires c.incoming ==
             Clean(Script(Served(serve, CompleteLines(LineOf(NextTag(c.tag), x) + LineOf(NextTag(c.tag), y))))) + rest
    ensures var tag := NextTag(c.tag);
            var (results, c') := RunAll(p, c, [x, y]);
            && Answers(p, tag, serve(LineOf(tag, x)))
            && c'.out.written == c.out.written + (LineOf(tag, x) + LineOf(tag, y))
            && results == [Failure(SendCommand(c, x).0.error), OwnAnswer(p, tag, serve(LineOf(tag, x)))]
            && c'.incoming == Clean(serve(LineOf(tag, y)).reply) + rest
  {
    hide *;
    var tag := NextTag(c.tag);
    var first, second := LineOf(tag, x), LineOf(tag, y);
    var c1 := SendCommand(c, x).1;
    CommandFails(p, c, x);
    CommandGoesOut(p, c1, y);
    Associative(c.out.written, first, second);
    BothServed(serve, tag, x, y);
    var stale, own := serve(first), serve(second);
    Associative(Clean(stale.reply), Clean(own.reply), rest);
    AnswersLine(p, serve, tag, x);
    RunsOwnSegment(p, c1, y, stale, Clean(own.reply) + rest);
    OneThenTwo(p, c, x, y);
  }

  lemma CommandFails(p: Parser, c: Conn, command: bytes)
    requires SendCommand(c, command).0.Failure?
    ensures var (sent, c1) := SendCommand(c, command);
            && RunCommandAndReply(p, c, command) == (Failure(sent.error), c1)
            && c1.tag == c.tag && c1.incoming == c.incoming
  {
    hide WriteThenFlush;
  }

  lemma CommandGoesOut(p: Parser, c: Conn, command: bytes)
    requires SendCommand(c, command).0.Success?
    ensures SendCommand(c, command).1.out.written == c.out.written + LineOf(NextTag(c.tag), command)
  {
    hide WriteThenFlush;
    CommandWritten(c.out, NextTag(c.tag), command);
  }

  lemma AnswersLine(p: Parser, serve: bytes -> Segment, tag: u32, command: bytes)
    requires Serves(p, serve) && NoLf(command)
    ensures Answers(p, tag, serve(LineOf(tag, command)))
  {
    hide Answers;
  }

  /** A flush that fails leaves all that was written before it. */
  lemma FlushFails(o: Outbox, a: bytes, b: bytes, io: IoError)
    requires o.sends == [Sent, Sent, Broken(0, io)]
    ensures WriteThenFlush(o, [a, b]) == (Failure(Error.Io(io)), Outbox(o.written + (a + b), []))
  {
    TwoParts(o, a, b);
    Associative(o.written, a, b);
    assert o.written + (a + b) + [] == o.written + (a + b);
    assert o.sends[1..] == [Sent, Broken(0, io)] && o.sends[1..][1..] == [Broken(0, io)];
  }

  lemma BothServed(serve: bytes -> Segment, tag: u32, x: bytes, y: bytes)
    requires NoLf(x) && NoLf(y)
    ensures var (first, second) := (LineOf(tag, x), LineOf(tag, y));
            Clean(Script(Served(serve, CompleteLines(first + second)))) ==
            Clean(serve(first).reply) + Clean(serve(second).reply)
  {
    var first, second := LineOf(tag, x), LineOf(tag, y);
    LineOfIsLine(tag, x);
    LineOfIsLine(tag, y);
    LineFirst(first, second);
    assert second + [] == second;
    LineFirst(second, []);
    hide CompleteLines, LineOf, NoLf;
    var a, b := serve(first), serve(second);
    assert [first, second][1..] == [second] && [second][1..] == [];
    assert CompleteLines(first + second) == [first, second];
    assert Served(serve, [second]) == [b];
    assert Served(serve, [first, second]) == [a, b];
    assert [a, b][1..] == [b] && [b][1..] == [];
    assert Script([b]) == b.reply + [] == b.reply;
    assert Clean(a.reply + b.reply) == Clean(a.reply) + Clean(b.reply);
  }

  lemma OneThenTwo(p: Parser, c: Conn, x: bytes, y: bytes)
    ensures var (r, c1) := RunCommandAndReply(p, c, x);
            var (s, c2) := RunCommandAndReply(p, c1, y);
            RunAll(p, c, [x, y]) == ([r, s], c2)
  {
    hide RunCommandAndReply;
    assert [x, y][1..] == [y] && [y][1..] == [];
    var (r, c1) := RunCommandAndReply(p, c, x);
    var (s, c2) := RunCommandAndReply(p, c1, y);
    assert RunAll(p, c2, []) == ([], c2);
    assert RunAll(p, c1, [y]) == ([s] + [], c2);
    assert [s] + [] == [s] && [r] + [s] == [r, s];
  }
}
