/** `Connection`: tags, lines, and reading the reply to a command (src/client.rs). */
module Connections {
  import opened Wrappers
  import opened Text
  import opened Responses
  import opened Parsing
  import opened Framing
  import opened Transport

  // ------------------------------------------------------------------ Tags and verdicts

  const TAG_PREFIX: bytes := "a"
  const NO_EXPLANATION: bytes := "no explanation given"

  function TagText(tag: u32): bytes {
    TAG_PREFIX + Decimal(tag)
  }

  /** `self.tag += 1` as the release build computes it. */
  function NextTag(tag: u32): u32 {
    if tag == 0xffff_ffff then 0 else tag + 1
  }

  /** `self.tag -= 1`. */
  function PreviousTag(tag: u32): u32 {
    if tag == 0 then 0xffff_ffff else tag - 1
  }

  /** `trim_start_matches(TAG_PREFIX)`. */
  function TrimPrefix(s: bytes): bytes {
    if StartsWith(s, TAG_PREFIX) then TrimPrefix(s[1..]) else s
  }

  /** The number in a completion's tag, or the tag itself if there is none. */
  function ActualTag(tag: bytes): Result<u32, bytes> {
    match ParseU32(TrimPrefix(tag))
    case Some(n) => Success(n)
    case None => Failure(tag)
  }

  function Explain(information: Option<bytes>): bytes {
    match information
    case Some(text) => text
    case None => NO_EXPLANATION
  }

  /** What a completion found at `start` means to the command numbered `tag`. */
  function Verdict(tag: u32, start: nat, done: Response, data: bytes): Res<nat>
    requires done.Done?
  {
    if done.tag != TagText(tag) then Failure(TagMismatch(tag, ActualTag(done.tag)))
    else
      match done.status
      case OK => Success(start)
      case NO => Failure(Error.No(done.code, Explain(done.information)))
      case BAD => Failure(Error.Bad(done.code, Explain(done.information)))
      case BYE => Failure(Error.Bye(done.code, Explain(done.information)))
      case PREAUTH => Failure(Error.Parse(Invalid(data)))
  }

  /** What remains in the buffer: a completion of any other status takes it along. */
  function BufferLeft(tag: u32, done: Response, data: bytes): bytes
    requires done.Done?
  {
    if done.tag == TagText(tag) && done.status.PREAUTH? then [] else data
  }

  /** The outcome of reading a reply, the buffer it leaves, and the events not consumed. */
  datatype Reading = Reading(result: Res<nat>, data: bytes, rest: seq<Event>)

  function Conclude(tag: u32, reply: Reply, arrival: Arrival, pending: seq<Event>): Reading
    requires |arrival.octets| <= |pending|
    requires reply.Answered? ==> reply.end <= |arrival.octets| && reply.done.Done?
    requires reply.Garbled? ==> reply.end <= |arrival.octets|
  {
    var v := arrival.octets;
    match reply
    case Answered(start, end, done) =>
      Reading(Verdict(tag, start, done, v[..end]), BufferLeft(tag, done, v[..end]), pending[end..])
    case Garbled(_, end) =>
      Reading(Failure(Error.Bye(None, NO_EXPLANATION)), v[..end], pending[end..])
    case Starved(_) =>
      match arrival.failed
      case Broke(partial, io) => Reading(Failure(Error.Io(io)), v + partial, arrival.after)
      case _ => Reading(Failure(ConnectionLost), v, arrival.after)
  }

  /**
   What `read_response_onto` amounts to: the reply is taken off all that will arrive, in one
   pass. A line that was read before is simply still pending.
   */
  function ReadReply(p: Parser, tag: u32, pending: seq<Event>): Reading {
    var arrival := Arrive(pending);
    Conclude(tag, Frame(p, arrival.octets, 0), arrival, pending)
  }

  // ------------------------------------------------------------------ The state of a connection

  /** One call on a connection and its outcome. A call made by another one leaves no entry. */
  datatype Call =
    | Commanded(tag: u32, text: bytes, ok: bool)
    | Wrote(text: bytes, ok: bool)
    | Got(line: bytes)
    | Missed(error: Error)
    | Replied(tag: u32, ok: bool)
    | Waited(timedOut: bool)

  datatype Conn = Conn(tag: u32, incoming: seq<Event>, out: Outbox, log: seq<Call>)

  /** `readline` into an empty buffer. */
  function TakeLine(c: Conn): (Res<bytes>, Conn) {
    var r: Res<bytes> :=
      match NextRead(c.incoming)
      case Line(l) => Success(l)
      case Lost => Failure(ConnectionLost)
      case Broke(_, io) => Failure(Error.Io(io));
    var call := if r.Success? then Got(r.value) else Missed(r.error);
    (r, c.(incoming := AfterRead(c.incoming), log := c.log + [call]))
  }

  /** `write_line`. */
  function SendLine(c: Conn, text: bytes): (Res<()>, Conn) {
    var (r, out) := WriteThenFlush(c.out, [text, CRLF]);
    (r, c.(out := out, log := c.log + [Wrote(text, r.Success?)]))
  }

  function CommandLine(tag: u32, command: bytes): bytes {
    TagText(tag) + " " + command
  }

  /** `run_command`: the tag moves on only if the command was written. */
  function SendCommand(c: Conn, command: bytes): (Res<()>, Conn) {
    var tag := NextTag(c.tag);
    var (r, out) := WriteThenFlush(c.out, [CommandLine(tag, command), CRLF]);
    (r, Conn(if r.Success? then tag else c.tag, c.incoming, out,
             c.log + [Commanded(tag, command, r.Success?)]))
  }

  /** A reply: the buffer and where its completion starts. */
  datatype Answer = Answer(data: bytes, done: nat)

  /** `read_response`. */
  function TakeReply(p: Parser, c: Conn): (Res<Answer>, Conn) {
    var reading := ReadReply(p, c.tag, c.incoming);
    var r := if reading.result.Success? then Success(Answer(reading.data, reading.result.value))
             else Failure(reading.result.error);
    (r, c.(incoming := reading.rest, log := c.log + [Replied(c.tag, r.Success?)]))
  }

  /** `run`. */
  function RunCommandAndReply(p: Parser, c: Conn, command: bytes): (Res<Answer>, Conn) {
    var (sent, c1) := SendCommand(c, command);
    if sent.Failure? then (Failure(sent.error), c1) else TakeReply(p, c1)
  }

  /** A buffer that holds nothing, or one line that `readline` delivered. */
  predicate Peeked(data: bytes, incoming: seq<Event>) {
    data == [] || (IsLine(data) && (Terminated(data) || incoming == []))
  }

  // ------------------------------------------------------------------ The connection

  class Connection {
    const parse: Parser
    const stream: Stream
    var tag: u32
    ghost var log: seq<Call>

    constructor (parse: Parser, stream: Stream)
      ensures this.parse == parse && this.stream == stream && tag == 0 && log == []
    {
      this.parse := parse;
      this.stream := stream;
      tag := 0;
      log := [];
    }

    ghost function State(): Conn
      reads this, stream
    {
      Conn(tag, stream.incoming, stream.Out(), log)
    }

    method ReadLine(into: bytes) returns (data: bytes, r: Res<nat>)
      modifies this`log, stream`incoming
      ensures var (line, c) := TakeLine(old(State()));
              && State() == c
              && (r.Success? <==> line.Success?)
              && (r.Success? ==> data == into + line.value && r.value == |line.value|)
              && (r.Failure? ==> r.error == line.error)
      ensures NextRead(old(stream.incoming)).Broke? ==>
                data == into + NextRead(old(stream.incoming)).partial
      ensures NextRead(old(stream.incoming)).Lost? ==> data == into
    {
      var read;
      data, read := stream.ReadUntilLf(into);
      match read {
        case Failure(io) => r := Failure(Error.Io(io));
        case Success(n) => r := if n == 0 then Failure(ConnectionLost) else Success(n);
      }
      log := log + [if r.Success? then Got(data[|into|..]) else Missed(r.error)];
    }

    method WriteLine(text: bytes) returns (r: Res<()>)
      modifies this`log, stream`written, stream`sends
      ensures (r, State()) == SendLine(old(State()), text)
    {
      ghost var before := stream.Out();
      r := stream.WriteAll(text);
      if r.Success? {
        r := stream.WriteAll(CRLF);
        if r.Success? {
          r := stream.Flush();
        }
      }
      log := log + [Wrote(text, r.Success?)];
      assert (r, stream.Out()) == WriteThenFlush(before, [text, CRLF]) by {
        TwoParts(before, text, CRLF);
      }
    }

    method CreateCommand(command: bytes) returns (line: bytes)
      modifies this`tag
      ensures tag == NextTag(old(tag)) && line == CommandLine(tag, command)
    {
      tag := NextTag(tag);
      line := TAG_PREFIX + Decimal(tag) + " " + command;
    }

    method RunCommand(command: bytes) returns (r: Res<()>)
      modifies this, stream`written, stream`sends
      ensures (r, State()) == SendCommand(old(State()), command)
    {
      ghost var calls := log;
      var line := CreateCommand(command);
      ghost var used := tag;
      r := WriteLine(line);
      if r.Failure? {
        tag := PreviousTag(tag);
      }
      log := calls + [Commanded(used, command, r.Success?)];
    }

    /** What the octets from `lineStart` on call for: the `break_with` of the reading loop. */
    method Examine(buffer: bytes, lineStart: nat) returns (data: bytes, step: Step)
      requires lineStart <= |buffer|
      ensures (step, data) == Examined(parse, tag, buffer, lineStart)
    {
      data := buffer;
      match ParseResponse(parse, buffer[lineStart..]) {
        case Incomplete => step := MoreOfThis;
        case Malformed => step := Finish(Failure(Error.Bye(None, NO_EXPLANATION)));
        case Complete(_, done) =>
          if !done.Done? {
            step := NextOne;
          } else if done.tag != TAG_PREFIX + Decimal(tag) {
            step := Finish(Failure(TagMismatch(tag, ActualTag(done.tag))));
          } else {
            match done.status {
              case OK => step := Finish(Success(lineStart));
              case NO => step := Finish(Failure(Error.No(done.code, Explain(done.information))));
              case BAD => step := Finish(Failure(Error.Bad(done.code, Explain(done.information))));
              case BYE => step := Finish(Failure(Error.Bye(done.code, Explain(done.information))));
              case PREAUTH =>
                step := Finish(Failure(Error.Parse(Invalid(buffer))));
                data := [];
            }
          }
      }
    }

    method ReadResponseOnto(into: bytes) returns (data: bytes, r: Res<nat>)
      requires Peeked(into, stream.incoming)
      modifies this`log, stream`incoming
      ensures ReadReply(parse, tag, Clean(into) + old(stream.incoming)) == Reading(r, data, stream.incoming)
      ensures log == old(log) + [Replied(tag, r.Success?)]
    {
      data := into;
      ghost var calls, pending := log, Clean(into) + stream.incoming;
      AtFirst(parse, into, stream.incoming);

      var continueFrom: Option<nat> := None;
      var tryFirst := data != [];
      while true
        invariant AtLoopHead(parse, pending, data, stream.incoming, continueFrom, tryFirst)
        decreases |stream.incoming|, tryFirst
      {
        var lineStart := 0;
        ghost var before, rest := data, stream.incoming;
        if tryFirst {
          tryFirst := false;
        } else {
          var startNew := |data|;
          var n;
          data, n := ReadLine(data);
          if n.Failure? {
            r := Failure(n.error);
            EndsStarved(parse, tag, pending, before, rest, continueFrom);
            log := calls + [Replied(tag, false)];
            return;
          }
          OneLineMore(parse, pending, before, rest, continueFrom);
          lineStart := if continueFrom.Some? then continueFrom.value else startNew;
          continueFrom := None;
        }

        Onwards(parse, tag, pending, data, stream.incoming, lineStart);
        var step;
        data, step := Examine(data, lineStart);
        match step {
          case MoreOfThis => continueFrom := Some(lineStart);
          case NextOne =>
          case Finish(result) =>
            r := result;
            log := calls + [Replied(tag, r.Success?)];
            return;
        }
      }
    }

    method ReadResponse() returns (r: Res<Answer>)
      modifies this`log, stream`incoming
      ensures (r, State()) == TakeReply(parse, old(State()))
    {
      CleanNothing(stream.incoming);
      var data, done := ReadResponseOnto([]);
      r := if done.Success? then Success(Answer(data, done.value)) else Failure(done.error);
    }

    method Run(command: bytes) returns (r: Res<Answer>)
      modifies this, stream
      ensures (r, State()) == RunCommandAndReply(parse, old(State()), command)
    {
      var sent := RunCommand(command);
      if sent.Failure? {
        return Failure(sent.error);
      }
      r := ReadResponse();
    }
  }

  lemma TwoParts(o: Outbox, a: bytes, b: bytes)
    ensures WriteThenFlush(o, [a, b]) ==
            var (r, o1) := Write(o, a);
            if r.Failure? then (r, o1)
            else
              var (r2, o2) := Write(o1, b);
              if r2.Failure? then (r2, o2) else Write(o2, [])
  {
    var (r, o1) := Write(o, a);
    assert [a, b][1..] == [b] && [b][1..] == [];
    assert WriteThenFlush(o, [a, b]) == if r.Failure? then (r, o1) else WriteThenFlush(o1, [b]);
    var (r2, o2) := Write(o1, b);
    assert WriteThenFlush(o1, [b]) == if r2.Failure? then (r2, o2) else WriteThenFlush(o2, []);
  }

  /** `data` has been taken off `pending`, and `incoming` is still to come. */
  ghost predicate Consumed(pending: seq<Event>, data: bytes, incoming: seq<Event>) {
    && |data| <= |Arrived(pending)| && data == Arrived(pending)[..|data|]
    && incoming == pending[|data|..]
    && Arrive(pending) == Prepend(data, Arrive(incoming))
  }

  // ------------------------------------------------------------------ The reading loop

  datatype Step = MoreOfThis | NextOne | Finish(result: Res<nat>)

  /** What a buffer whose last response starts at `lineStart` calls for, and what is kept of it. */
  function Examined(p: Parser, tag: u32, data: bytes, lineStart: nat): (Step, bytes)
    requires lineStart <= |data|
  {
    match ParseResponse(p, data[lineStart..])
    case Incomplete => (MoreOfThis, data)
    case Malformed => (Finish(Failure(Error.Bye(None, NO_EXPLANATION))), data)
    case Complete(_, done) =>
      if !done.Done? then (NextOne, data)
      else (Finish(Verdict(tag, lineStart, done, data)), BufferLeft(tag, done, data))
  }

  /** At the head of the loop: `continueFrom` is where an incomplete response starts, if there is one. */
  ghost predicate AtLoopHead(p: Parser, pending: seq<Event>, data: bytes, incoming: seq<Event>,
                             continueFrom: Option<nat>, tryFirst: bool)
  {
    && Consumed(pending, data, incoming)
    && if tryFirst then continueFrom.None? && LineRead(p, pending, data, 0)
       else Scanned(p, Arrived(pending), if continueFrom.Some? then continueFrom.value else |data|, |data|)
  }

  /** One line has just been added to the buffer, and its last response starts at `lineStart`. */
  ghost predicate LineRead(p: Parser, pending: seq<Event>, data: bytes, lineStart: nat) {
    exists j: nat ::
      && Scanned(p, Arrived(pending), lineStart, j)
      && j < |Arrived(pending)| && |data| == LineStop(Arrived(pending), j)
  }

  lemma AtFirst(p: Parser, into: bytes, incoming: seq<Event>)
    requires Peeked(into, incoming)
    ensures AtLoopHead(p, Clean(into) + incoming, into, incoming, None, into != [])
  {
    PeekedLine(into, incoming);
    ScannedNothing(p, Arrived(Clean(into) + incoming));
  }

  lemma OneLineMore(p: Parser, pending: seq<Event>, data: bytes, incoming: seq<Event>, continueFrom: Option<nat>)
    requires AtLoopHead(p, pending, data, incoming, continueFrom, false)
    requires NextRead(incoming).Line?
    ensures var data' := data + NextRead(incoming).line;
            var lineStart := if continueFrom.Some? then continueFrom.value else |data|;
            && Consumed(pending, data', AfterRead(incoming))
            && LineRead(p, pending, data', lineStart)
            && lineStart <= |data'|
  {
    ConsumeLine(pending, data, incoming);
  }

  /** The three ways on from a line: the loop's invariant again, or the final result. */
  lemma Onwards(p: Parser, tag: u32, pending: seq<Event>, data: bytes, incoming: seq<Event>, lineStart: nat)
    requires Consumed(pending, data, incoming) && LineRead(p, pending, data, lineStart) && lineStart <= |data|
    ensures var (step, kept) := Examined(p, tag, data, lineStart);
            match step
            case MoreOfThis => kept == data && AtLoopHead(p, pending, data, incoming, Some(lineStart), false)
            case NextOne => kept == data && AtLoopHead(p, pending, data, incoming, None, false)
            case Finish(r) => ReadReply(p, tag, pending) == Reading(r, kept, incoming)
  {
    var v := Arrived(pending);
    var j: nat :| Scanned(p, v, lineStart, j) && j < |v| && |data| == LineStop(v, j);
    assert data[lineStart..] == v[lineStart..|data|];
    ScannedLine(p, v, lineStart, j);
  }

  lemma EndsStarved(p: Parser, tag: u32, pending: seq<Event>, data: bytes, incoming: seq<Event>,
                    continueFrom: Option<nat>)
    requires AtLoopHead(p, pending, data, incoming, continueFrom, false)
    requires !NextRead(incoming).Line?
    ensures ReadReply(p, tag, pending) ==
            match NextRead(incoming)
            case Broke(partial, io) => Reading(Failure(Error.Io(io)), data + partial, AfterRead(incoming))
            case _ => Reading(Failure(ConnectionLost), data, AfterRead(incoming))
  {
    ConsumeLine(pending, data, incoming);
    ScannedAll(p, data, if continueFrom.Some? then continueFrom.value else |data|);
  }

  /** A peeked line is the first line of all that is pending. */
  lemma PeekedLine(into: bytes, incoming: seq<Event>)
    requires Peeked(into, incoming)
    ensures var pending := Clean(into) + incoming;
            && Consumed(pending, into, incoming)
            && (into != [] ==> Arrived(pending) != [] && LineStop(Arrived(pending), 0) == |into|)
  {
    var pending := Clean(into) + incoming;
    if into == [] {
      CleanNothing(incoming);
      PrependTwice(into, into, Arrive(incoming));
    } else {
      ArriveAfterLine(into, incoming);
      ReadLineBack(into, incoming);
      NextReadIsLineStop(pending);
    }
  }

  /** A line that has been read is a fit buffer to go on from, and goes back in front of the rest. */
  lemma LineTaken(c: Conn)
    requires TakeLine(c).0.Success?
    ensures var (line, c1) := TakeLine(c);
            && Peeked(line.value, c1.incoming)
            && Clean(line.value) + c1.incoming == c.incoming
            && |c1.incoming| < |c.incoming|
  {
    NextReadIsLine(c.incoming);
  }

  /** A successful read takes the next line off what arrives; a failing one finds nothing left. */
  lemma ConsumeLine(pending: seq<Event>, data: bytes, incoming: seq<Event>)
    requires Consumed(pending, data, incoming)
    ensures NextRead(incoming).Line? ==>
              var data' := data + NextRead(incoming).line;
              && |data| < |Arrived(pending)| && LineStop(Arrived(pending), |data|) == |data'|
              && Consumed(pending, data', AfterRead(incoming))
    ensures !NextRead(incoming).Line? ==>
              Arrive(pending) == Arrival(data, NextRead(incoming), AfterRead(incoming))
  {
    var v := Arrived(pending);
    match NextRead(incoming) {
      case Line(l) =>
        NextReadIsLineStop(incoming);
        LineStopShift(v, |data|, |data|);
        TakeMore(v, data, l, Arrived(incoming[|l|..]));
        PrependTwice(data, l, Arrive(incoming[|l|..]));
        assert pending[|data|..][|l|..] == pending[|data + l|..];
      case _ =>
        assert data + [] == data;
    }
  }

  lemma TakeMore(v: bytes, data: bytes, l: bytes, t: bytes)
    requires v == data + (l + t)
    ensures v[|data|..] == l + t
    ensures data + l == v[..|data + l|]
  {
  }
}
