/**
 The buffered stream under a connection. What arrives is a sequence of events, octets with
 faults (timeouts included) anywhere between them; what becomes of each write is a script.
 Both are arbitrary, so statements about them hold for every pattern of failures.
 */
module Transport {
  import opened Wrappers
  import opened Sequences
  import opened Text
  import opened Responses
  import opened Framing

  datatype Event = Octet(c: char) | Fault(io: IoError)

  /** What becomes of one write or flush: `Broken` lets `k` octets through before it fails. */
  datatype Sending = Sent | Broken(k: nat, io: IoError)

  // ------------------------------------------------------------------ Reading

  /** The outcome of reading up to the next LF. */
  datatype Read = Line(line: bytes) | Lost | Broke(partial: bytes, io: IoError)

  /** `read_until(LF)`: up to and including the next LF, or the remainder at the end of the
      stream, or nothing there (`Lost`), or a fault after some octets. */
  function NextRead(ev: seq<Event>): (r: Read)
    ensures r.Line? ==> 0 < |r.line| <= |ev|
    ensures r.Lost? ==> ev == []
    ensures r.Broke? ==> |r.partial| < |ev|
  {
    if ev == [] then Lost
    else
      match ev[0]
      case Fault(io) => Broke([], io)
      case Octet(c) =>
        if c == LF then Line([c])
        else
          match NextRead(ev[1..])
          case Line(l) => Line([c] + l)
          case Lost => Line([c])
          case Broke(l, io) => Broke([c] + l, io)
  }

  /** The events that remain after that read. */
  function AfterRead(ev: seq<Event>): (rest: seq<Event>)
    ensures ev != [] ==> |rest| < |ev|
  {
    match NextRead(ev)
    case Line(l) => ev[|l|..]
    case Lost => []
    case Broke(l, _) => ev[|l| + 1..]
  }

  /** The outcome of a read of which `got` has been taken before. */
  function ReadOn(got: bytes, r: Read): Read {
    match r
    case Line(l) => Line(got + l)
    case Lost => if got == [] then Lost else Line(got)
    case Broke(l, io) => Broke(got + l, io)
  }

  lemma ReadOnOne(got: bytes, ev: seq<Event>)
    requires ev != []
    ensures ReadOn(got, NextRead(ev)) ==
            match ev[0]
            case Fault(io) => Broke(got, io)
            case Octet(c) => if c == LF then Line(got + [c]) else ReadOn(got + [c], NextRead(ev[1..]))
    ensures AfterRead(ev) == if ev[0].Fault? || ev[0].c == LF then ev[1..] else AfterRead(ev[1..])
  {
    match ev[0] {
      case Fault(io) => assert got + [] == got;
      case Octet(c) =>
        match NextRead(ev[1..])
        case Line(l) => Associative(got, [c], l);
        case Broke(l, _) => Associative(got, [c], l);
        case Lost =>
    }
  }

  /** All the octets that successful reads will deliver, the first read that fails, and the
      events that remain after it. */
  datatype Arrival = Arrival(octets: bytes, failed: Read, after: seq<Event>)

  function Prepend(s: bytes, a: Arrival): Arrival {
    a.(octets := s + a.octets)
  }

  function Arrive(ev: seq<Event>): (a: Arrival)
    ensures |a.octets| <= |ev| && !a.failed.Line?
    ensures ev != [] ==> |a.after| < |ev|
    decreases |ev|
  {
    match NextRead(ev)
    case Line(l) =>
      Prepend(l, Arrive(ev[|l|..]))
    case r => Arrival([], r, AfterRead(ev))
  }

  function Arrived(ev: seq<Event>): (v: bytes)
    ensures |v| <= |ev|
  {
    Arrive(ev).octets
  }

  /** Octets arriving undisturbed. */
  function Clean(s: bytes): (ev: seq<Event>)
    ensures |ev| == |s|
    ensures forall i :: 0 <= i < |s| ==> ev[i] == Octet(s[i])
  {
    seq(|s|, i requires 0 <= i < |s| => Octet(s[i]))
  }

  /** One line as a read delivers it: an LF can only be its last octet. */
  predicate IsLine(s: bytes) {
    s != [] && forall i :: 0 <= i < |s| - 1 ==> s[i] != LF
  }

  predicate Terminated(s: bytes) {
    s != [] && s[|s| - 1] == LF
  }

  lemma LinePrefixed(c: char, l: bytes, ev: seq<Event>)
    requires IsLine(l) && c != LF && (Terminated(l) || |l| == |ev|) && |l| <= |ev| && ev == Clean(l) + ev[|l|..]
    ensures var (l', ev') := ([c] + l, [Octet(c)] + ev);
            && IsLine(l') && (Terminated(l') || |l'| == |ev'|)
            && ev' == Clean(l') + ev'[|l'|..]
  {
    assert ([Octet(c)] + ev)[|l| + 1..] == ev[|l|..];
    assert Clean([c] + l) == [Octet(c)] + Clean(l);
  }

  lemma {:induction false} NextReadIsLine(ev: seq<Event>)
    requires NextRead(ev).Line?
    ensures var l := NextRead(ev).line;
            && IsLine(l)
            && (Terminated(l) || |l| == |ev|)
            && ev == Clean(l) + ev[|l|..]
  {
    hide IsLine, Terminated;
    assert ev == [ev[0]] + ev[1..];
    if ev[0].c != LF && NextRead(ev[1..]).Line? {
      NextReadIsLine(ev[1..]);
      LinePrefixed(ev[0].c, NextRead(ev[1..]).line, ev[1..]);
    } else {
      OneOctetLine(ev);
    }
  }

  lemma OneOctetLine(ev: seq<Event>)
    requires ev != [] && ev[0].Octet? && (ev[0].c == LF || |ev| == 1)
    ensures IsLine([ev[0].c]) && (Terminated([ev[0].c]) || 1 == |ev|)
    ensures ev == Clean([ev[0].c]) + ev[1..]
  {
  }

  /** A line and whatever follows it is read back as that line. */
  lemma {:induction false} ReadLineBack(l: bytes, rest: seq<Event>)
    requires IsLine(l) && (Terminated(l) || rest == [])
    ensures NextRead(Clean(l) + rest) == Line(l)
  {
    var ev := Clean(l) + rest;
    assert ev[0] == Octet(l[0]);
    assert ev[1..] == Clean(l[1..]) + rest;
    if |l| > 1 {
      ReadLineBack(l[1..], rest);
      assert l == [l[0]] + l[1..];
    } else {
      assert l == [l[0]];
      assert ev[1..] == rest;
    }
  }

  /** Everything that arrives was there, undisturbed, at the front. */
  lemma {:induction false} ArrivedIsPrefix(ev: seq<Event>)
    ensures ev[..|Arrived(ev)|] == Clean(Arrived(ev))
    decreases |ev|
  {
    match NextRead(ev) {
      case Line(l) =>
        NextReadIsLine(ev);
        var rest := ev[|l|..];
        ArrivedIsPrefix(rest);
        var v := Arrived(ev);
        forall i | 0 <= i < |v|
          ensures ev[i] == Octet(v[i])
        {
          if i >= |l| {
            assert ev[i] == rest[i - |l|] == rest[..|Arrived(rest)|][i - |l|];
          }
        }
      case _ =>
    }
  }

  /** Reading ends without a fault exactly if there is none, and then everything has arrived. */
  lemma {:induction false} LostIffClean(ev: seq<Event>)
    ensures Arrive(ev).failed.Lost? <==> ev == Clean(Arrived(ev))
    decreases |ev|
  {
    match NextRead(ev) {
      case Line(l) =>
        NextReadIsLine(ev);
        LostIffClean(ev[|l|..]);
        LineThenClean(l, Arrived(ev[|l|..]), ev);
      case _ =>
    }
  }

  lemma LineThenClean(l: bytes, s: bytes, ev: seq<Event>)
    requires |l| <= |ev| && ev == Clean(l) + ev[|l|..]
    ensures ev == Clean(l + s) <==> ev[|l|..] == Clean(s)
  {
    assert Clean(l + s) == Clean(l) + Clean(s);
    assert Clean(l + s)[|l|..] == Clean(s);
  }

  /** An already read line put back in front: nothing about what arrives changes. */
  lemma ArriveAfterLine(l: bytes, rest: seq<Event>)
    requires IsLine(l) && (Terminated(l) || rest == [])
    ensures Arrive(Clean(l) + rest) == Prepend(l, Arrive(rest))
  {
    ReadLineBack(l, rest);
    assert (Clean(l) + rest)[|l|..] == rest;
  }

  lemma FirstLine(s: bytes)
    requires Terminated(s)
    ensures var e := LineStop(s, 0);
            && 0 < e && IsLine(s[..e]) && Terminated(s[..e])
            && (s[e..] == [] || Terminated(s[e..]))
  {
  }

  lemma CleanAppend(s: bytes, t: bytes, rest: seq<Event>)
    ensures Clean(s + t) + rest == Clean(s) + (Clean(t) + rest)
  {
  }

  lemma CleanNothing(rest: seq<Event>)
    ensures Clean([]) + rest == rest
  {
  }

  lemma PrependTwice(s: bytes, t: bytes, a: Arrival)
    ensures Prepend(s, Prepend(t, a)) == Prepend(s + t, a)
    ensures Prepend([], a) == a
  {
    assert s + (t + a.octets) == (s + t) + a.octets;
  }

  /** Octets that end a line arrive whatever comes after them. */
  lemma {:induction false} ArriveAfterLines(s: bytes, rest: seq<Event>)
    requires s == [] || Terminated(s)
    ensures Arrive(Clean(s) + rest) == Prepend(s, Arrive(rest))
    decreases |s|
  {
    if s == [] {
      CleanNothing(rest);
      PrependTwice(s, s, Arrive(rest));
    } else {
      var e := LineStop(s, 0);
      var l, t := s[..e], s[e..];
      FirstLine(s);
      assert s == l + t;
      CleanAppend(l, t, rest);
      ArriveAfterLine(l, Clean(t) + rest);
      ArriveAfterLines(t, rest);
      PrependTwice(l, t, Arrive(rest));
    }
  }

  /** A successful read delivers exactly one line of what arrives. */
  lemma NextReadIsLineStop(ev: seq<Event>)
    requires NextRead(ev).Line?
    ensures var l := NextRead(ev).line;
            && Arrived(ev) == l + Arrived(ev[|l|..])
            && LineStop(Arrived(ev), 0) == |l|
  {
    NextReadIsLine(ev);
    var l := NextRead(ev).line;
    var v := Arrived(ev);
    assert forall i :: 0 <= i < |l| ==> v[i] == l[i];
    var e := LineStop(v, 0);
    assert e >= |l|;
    assert v[|l| - 1] == l[|l| - 1];
  }

  // ------------------------------------------------------------------ Writing

  /** What has been written, and what will become of the writes to come. */
  datatype Outbox = Outbox(written: bytes, sends: seq<Sending>)

  function Min(a: nat, b: nat): nat {
    if a <= b then a else b
  }

  function Write(o: Outbox, data: bytes): (Res<()>, Outbox) {
    if o.sends == [] then (Success(()), o.(written := o.written + data))
    else
      match o.sends[0]
      case Sent => (Success(()), Outbox(o.written + data, o.sends[1..]))
      case Broken(k, io) =>
        (Failure(Error.Io(io)), Outbox(o.written + data[..Min(k, |data|)], o.sends[1..]))
  }

  /** The writes of all the parts and then a flush, as far as they succeed. */
  function WriteThenFlush(o: Outbox, parts: seq<bytes>): (Res<()>, Outbox)
    decreases |parts|
  {
    if parts == [] then Write(o, [])
    else
      var (r, o') := Write(o, parts[0]);
      if r.Success? then WriteThenFlush(o', parts[1..]) else (r, o')
  }

  function Flatten(parts: seq<bytes>): bytes {
    if parts == [] then [] else parts[0] + Flatten(parts[1..])
  }

  /** A successful write puts exactly its octets on the wire; a failing one a prefix of them. */
  lemma {:induction false} WriteThenFlushWrites(o: Outbox, parts: seq<bytes>)
    ensures var (r, o') := WriteThenFlush(o, parts);
            && (r.Success? ==> o'.written == o.written + Flatten(parts))
            && (r.Failure? ==> r.error.Io? && o.written <= o'.written <= o.written + Flatten(parts))
            && |o'.sends| <= |o.sends|
            && (o.sends == [] ==> r.Success? && o'.sends == [])
    decreases |parts|
  {
    if parts != [] {
      var (r, o1) := Write(o, parts[0]);
      assert o.written + (parts[0] + Flatten(parts[1..])) == (o.written + parts[0]) + Flatten(parts[1..]);
      if r.Success? {
        WriteThenFlushWrites(o1, parts[1..]);
      }
    }
  }

  // ------------------------------------------------------------------ The stream itself

  class Stream {
    var incoming: seq<Event>
    var written: bytes
    var sends: seq<Sending>

    constructor (incoming: seq<Event>, sends: seq<Sending>)
      ensures this.incoming == incoming && this.sends == sends && written == []
    {
      this.incoming := incoming;
      this.sends := sends;
      written := [];
    }

    ghost function Out(): Outbox
      reads this
    {
      Outbox(written, sends)
    }

    /** `BufRead::read_until(LF, into)`: returns the grown buffer and how much it grew. */
    method ReadUntilLf(into: bytes) returns (data: bytes, r: Result<nat, IoError>)
      modifies this`incoming
      ensures incoming == AfterRead(old(incoming))
      ensures match NextRead(old(incoming))
              case Line(l) => data == into + l && r == Success(|l|)
              case Lost => data == into && r == Success(0)
              case Broke(l, io) => data == into + l && r == Failure(io)
    {
      data := into;
      ghost var start := incoming;
      ghost var got: bytes := [];
      while incoming != []
        invariant data == into + got
        invariant AfterRead(start) == AfterRead(incoming)
        invariant NextRead(start) == ReadOn(got, NextRead(incoming))
        decreases |incoming|
      {
        ReadOnOne(got, incoming);
        var event := incoming[0];
        incoming := incoming[1..];
        match event {
          case Fault(io) =>
            r := Failure(io);
            return;
          case Octet(c) =>
            data := data + [c];
            Associative(into, got, [c]);
            if c == LF {
              r := Success(|data| - |into|);
              return;
            }
            got := got + [c];
        }
      }
      r := Success(|data| - |into|);
    }

    method WriteAll(data: bytes) returns (r: Res<()>)
      modifies this`written, this`sends
      ensures (r, Out()) == Write(old(Out()), data)
    {
      if sends == [] {
        written := written + data;
        return Success(());
      }
      var sending := sends[0];
      sends := sends[1..];
      match sending {
        case Sent =>
          written := written + data;
          r := Success(());
        case Broken(k, io) =>
          written := written + data[..Min(k, |data|)];
          r := Failure(Error.Io(io));
      }
    }

    method Flush() returns (r: Res<()>)
      modifies this`written, this`sends
      ensures (r, Out()) == Write(old(Out()), [])
    {
      r := WriteAll([]);
    }
  }
}
