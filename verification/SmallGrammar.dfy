/**
 A small concrete grammar: untagged, continuation and tagged lines, with `{n}` literals
 (section 4.3 of RFC 3501). It obeys the laws of a response parser, so statements about every
 lawful parser are not vacuous.
 */
module SmallGrammar {
  import opened Wrappers
  import opened Text
  import opened Responses
  import opened ParserLaws

  /** The position just past the first CRLF at or after `k`. */
  function LineEnd(x: bytes, k: nat): (e: Option<nat>)
    ensures e.Some? ==> k + 2 <= e.value <= |x| && x[e.value - 2] == CR && x[e.value - 1] == LF
    decreases |x| - k
  {
    if k + 2 > |x| then None
    else if x[k] == CR && x[k + 1] == LF then Some(k + 2)
    else LineEnd(x, k + 1)
  }

  /** The position of the last `{` of `s`. */
  function LastBrace(s: bytes): (k: Option<nat>)
    ensures k.Some? ==> k.value < |s|
  {
    if s == [] then None
    else if s[|s| - 1] == '{' then Some(|s| - 1)
    else LastBrace(s[..|s| - 1])
  }

  /** The octet count announced by a line (CRLF included) that ends in `{n}`. */
  function LiteralLength(line: bytes): Option<nat> {
    if |line| < 3 || line[|line| - 3] != '}' then None
    else
      var body := line[..|line| - 3];
      match LastBrace(body)
      case None => None
      case Some(k) =>
        var digits := body[k + 1..];
        if digits != [] && AllDigits(digits) then Some(Value(digits)) else None
  }

  /** The end of the response that has been scanned up to `k`. */
  function FrameEnd(x: bytes, k: nat): (e: Option<nat>)
    ensures e.Some? ==> k + 2 <= e.value <= |x|
    decreases |x| - k
  {
    match LineEnd(x, k)
    case None => None
    case Some(e) =>
      match LiteralLength(x[k..e])
      case None => Some(e)
      case Some(n) => if e + n <= |x| then FrameEnd(x, e + n) else None
  }

  /** The position of the first space, or the length. */
  function Space(s: bytes): (k: nat)
    ensures k <= |s|
  {
    if s == [] || s[0] == ' ' then 0 else 1 + Space(s[1..])
  }

  function StatusWord(s: bytes): Option<Status> {
    if s == "OK" then Some(OK)
    else if s == "NO" then Some(NO)
    else if s == "BAD" then Some(BAD)
    else if s == "BYE" then Some(BYE)
    else if s == "PREAUTH" then Some(PREAUTH)
    else None
  }

  /** What a whole frame means. */
  function Meaning(frame: bytes): Option<Response>
    requires EndsWithCRLF(frame)
  {
    var text := frame[..|frame| - 2];
    var head := text[..Space(text)];
    var tail := if |head| < |text| then text[|head| + 1..] else [];
    var word := tail[..Space(tail)];
    var info := if |word| < |tail| then Some(tail[|word| + 1..]) else None;
    if head == "+" then Some(Continue(None, info))
    else if head == "*" then
      match StatusWord(word)
      case Some(status) => Some(Data(status, None, info))
      case None =>
        match ParseU32(word)
        case None => Some(OtherResponse(tail))
        case Some(n) =>
          match info
          case None => None
          case Some(kind) =>
            if kind == "EXISTS" then Some(MailboxData(Exists(n)))
            else if kind == "RECENT" then Some(MailboxData(Recent(n)))
            else if kind == "EXPUNGE" then Some(Expunge(n))
            else Some(Fetch(n, [kind]))
    else
      match StatusWord(word)
      case None => None
      case Some(status) => Some(Done(head, status, None, info))
  }

  function ParseResponse(x: bytes): Parsed {
    match FrameEnd(x, 0)
    case None => Incomplete
    case Some(e) =>
      FrameEndsLine(x, 0);
      match Meaning(x[..e])
      case None => Malformed
      case Some(r) => Complete(e, r)
  }

  // ------------------------------------------------------------------ The laws hold

  lemma {:induction false} LineEndOfPrefix(x: bytes, k: nat, m: nat)
    requires m <= |x|
    ensures LineEnd(x[..m], k).Some? ==> LineEnd(x, k) == LineEnd(x[..m], k)
    ensures LineEnd(x, k).Some? && LineEnd(x, k).value <= m ==> LineEnd(x[..m], k) == LineEnd(x, k)
    decreases |x| - k
  {
    if k + 2 <= |x| {
      LineEndOfPrefix(x, k + 1, m);
    }
  }

  lemma {:induction false} FrameEndsLine(x: bytes, k: nat)
    requires FrameEnd(x, k).Some?
    ensures EndsWithCRLF(x[..FrameEnd(x, k).value])
    decreases |x| - k
  {
    var e := LineEnd(x, k).value;
    var literal := LiteralLength(x[k..e]);
    if literal.Some? {
      FrameEndsLine(x, e + literal.value);
    }
  }

  /** The scan of a prefix that holds the first line agrees on that line. */
  lemma SameFirstLine(x: bytes, k: nat, m: nat)
    requires m <= |x|
    requires LineEnd(x[..m], k).Some? || (LineEnd(x, k).Some? && LineEnd(x, k).value <= m)
    ensures LineEnd(x, k) == LineEnd(x[..m], k) && LineEnd(x, k).Some?
    ensures x[..m][k..LineEnd(x, k).value] == x[k..LineEnd(x, k).value]
  {
    LineEndOfPrefix(x, k, m);
  }

  lemma {:induction false} FrameEndGrows(x: bytes, k: nat, m: nat)
    requires m <= |x| && FrameEnd(x[..m], k).Some?
    ensures FrameEnd(x, k) == FrameEnd(x[..m], k)
    decreases |x| - k
  {
    SameFirstLine(x, k, m);
    var e := LineEnd(x, k).value;
    var literal := LiteralLength(x[k..e]);
    if literal.Some? {
      FrameEndGrows(x, e + literal.value, m);
    }
  }

  lemma {:induction false} FrameEndShrinks(x: bytes, k: nat, m: nat)
    requires m <= |x| && FrameEnd(x, k).Some? && FrameEnd(x, k).value <= m
    ensures FrameEnd(x[..m], k) == FrameEnd(x, k)
    decreases |x| - k
  {
    SameFirstLine(x, k, m);
    var e := LineEnd(x, k).value;
    var literal := LiteralLength(x[k..e]);
    if literal.Some? {
      FrameEndShrinks(x, e + literal.value, m);
    }
  }

  lemma SmallGrammarIsLawful()
    ensures Lawful(ParseResponse)
  {
    forall x: bytes | ParseResponse(x).Complete?
      ensures Cut(x, ParseResponse(x).length) && EndsWithCRLF(x[..ParseResponse(x).length])
    {
      FrameEndsLine(x, 0);
    }
    assert EndsLines(ParseResponse);
    forall x, k | Cut(x, k)
      ensures !ParseResponse(x[..k]).Incomplete? ==> ParseResponse(x) == ParseResponse(x[..k])
      ensures ParseResponse(x).Complete? && ParseResponse(x).length <= k ==> ParseResponse(x[..k]) == ParseResponse(x)
    {
      var e := FrameEnd(x, 0);
      if FrameEnd(x[..k], 0).Some? {
        FrameEndGrows(x, 0, k);
      }
      if e.Some? && e.value <= k {
        FrameEndShrinks(x, 0, k);
        assert x[..k][..e.value] == x[..e.value];
      }
    }
  }
}
