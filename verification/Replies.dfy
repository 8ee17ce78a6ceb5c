/** What reading a reply guarantees: exactly when it succeeds, and what the buffer then holds. */
module Replies {
  import opened Wrappers
  import opened Text
  import opened Responses
  import opened ParserLaws
  import opened Parsing
  import opened Framing
  import opened Transport
  import opened Connections

  predicate IsCompletion(done: Response, tag: u32) {
    done.Done? && done.tag == TagText(tag) && done.status == OK
  }

  /** The response that the code finds at `i`. */
  function ResponseAt(p: Parser, data: bytes, i: nat): Parsed
    requires i <= |data|
  {
    ParseResponse(p, data[i..])
  }

  /** The buffer is complete untagged responses up to `i`, and from there the OK completion of `tag`. */
  predicate OkReply(p: Parser, tag: u32, data: bytes, i: nat) {
    && i < |data|
    && Whole(p, data[..i]) && NoneDone(ResponsesOf(p, data[..i]))
    && ResponseAt(p, data, i).Complete? && ResponseAt(p, data, i).length == |data| - i
    && IsCompletion(ResponseAt(p, data, i).response, tag)
  }

  lemma OkReplyBegins(p: Parser, tag: u32, data: bytes, i: nat)
    requires i < |data| && ResponseAt(p, data, i).Complete?
    ensures OkReply(p, tag, data, i) <==>
            && BeginsWithReply(p, data, i, |data|, ResponseAt(p, data, i).response)
            && IsCompletion(ResponseAt(p, data, i).response, tag)
  {
    assert data[i..|data|] == data[i..];
  }

  /** A reply is accepted, with its completion at `i`, exactly if what arrives begins with such a
      buffer; then that is the buffer, and nothing beyond it has been consumed. */
  lemma ReplyOkIff(p: Parser, tag: u32, pending: seq<Event>, data: bytes, i: nat)
    ensures var r := ReadReply(p, tag, pending);
            r.result == Success(i) && r.data == data
            <==> data <= Arrived(pending) && OkReply(p, tag, data, i)
    ensures var r := ReadReply(p, tag, pending);
            r.result.Success? ==> r.rest == pending[|r.data|..]
  {
    var v := Arrived(pending);
    var r := ReadReply(p, tag, pending);
    if r.result == Success(i) && r.data == data {
      var f := Frame(p, v, 0);
      AnsweredIff(p, v, f.start, f.end, f.done);
      CutReply(p, v, f.start, f.end, f.done);
      OkReplyBegins(p, tag, data, i);
    }
    if data <= v && OkReply(p, tag, data, i) {
      OkReplyBegins(p, tag, data, i);
      AnswerConsumed(p, tag, pending, data, i, ResponseAt(p, data, i).response);
    }
  }

  /** Whether something begins with a reply only depends on the octets of the reply. */
  lemma CutReply(p: Parser, v: bytes, start: nat, end: nat, done: Response)
    requires start < end <= |v|
    ensures BeginsWithReply(p, v, start, end, done) <==> BeginsWithReply(p, v[..end], start, end, done)
    ensures v[..end][start..] == v[start..end]
  {
    assert v[..end][..start] == v[..start];
    assert v[..end][start..end] == v[start..end];
  }

  /** Any reply that is answered, whatever the completion says, is consumed to its last octet. */
  lemma AnswerConsumed(p: Parser, tag: u32, pending: seq<Event>, reply: bytes, start: nat, done: Response)
    requires reply <= Arrived(pending)
    requires BeginsWithReply(p, reply, start, |reply|, done)
    ensures ReadReply(p, tag, pending) ==
            Reading(Verdict(tag, start, done, reply), BufferLeft(tag, done, reply), pending[|reply|..])
  {
    var v := Arrived(pending);
    assert v[..|reply|] == reply;
    CutReply(p, v, start, |reply|, done);
    AnsweredIff(p, v, start, |reply|, done);
  }

  /** What each status of the command's own completion comes to, with the text that the server gives. */
  lemma StatusDecides(p: Parser, tag: u32, pending: seq<Event>, reply: bytes, start: nat, done: Response)
    requires reply <= Arrived(pending) && BeginsWithReply(p, reply, start, |reply|, done)
    requires done.tag == "a" + Decimal(tag)
    ensures var text := if done.information.Some? then done.information.value else "no explanation given";
            ReadReply(p, tag, pending).result ==
            match done.status
            case OK => Success(start)
            case NO => Failure(Error.No(done.code, text))
            case BAD => Failure(Error.Bad(done.code, text))
            case BYE => Failure(Error.Bye(done.code, text))
            case PREAUTH => Failure(Error.Parse(Invalid(reply)))
  {
    hide ReadReply, SplitAll, NoneDone;
    AnswerConsumed(p, tag, pending, reply, start, done);
  }

  /** An accepted reply was there, undisturbed, at the front of what was pending. */
  lemma ReplyWasFirst(p: Parser, tag: u32, pending: seq<Event>)
    requires ReadReply(p, tag, pending).result.Success?
    ensures var r := ReadReply(p, tag, pending);
            pending == Clean(r.data) + r.rest
  {
    hide OkReply;
    var r := ReadReply(p, tag, pending);
    ReplyOkIff(p, tag, pending, r.data, r.result.value);
    ArrivedIsPrefix(pending);
    FrontOfClean(pending, r.data, Arrived(pending));
  }

  lemma FrontOfClean(pending: seq<Event>, data: bytes, v: bytes)
    requires data <= v && |v| <= |pending| && pending[..|v|] == Clean(v)
    ensures pending == Clean(data) + pending[|data|..]
  {
    forall i | 0 <= i < |data|
      ensures pending[i] == Clean(data)[i]
    {
      assert pending[..|v|][i] == Clean(v)[i];
    }
  }

  /** A completion that bears the tag of another command is reported with both numbers. */
  lemma MismatchIsNamed(p: Parser, tag: u32, other: u32, pending: seq<Event>, reply: bytes, start: nat, done: Response)
    requires reply <= Arrived(pending) && BeginsWithReply(p, reply, start, |reply|, done)
    requires done.tag == TagText(other) && other != tag
    ensures ReadReply(p, tag, pending).result == Failure(TagMismatch(tag, Success(other)))
  {
    hide BeginsWithReply, ReadReply;
    AnswerConsumed(p, tag, pending, reply, start, done);
    if TagText(tag) == TagText(other) {
      TagsDiffer(tag, other);
    }
    TagNumber(other);
  }

  lemma TagsDiffer(s: u32, t: u32)
    requires TagText(s) == TagText(t)
    ensures s == t
  {
    assert TagText(s)[1..] == Decimal(s);
    assert TagText(t)[1..] == Decimal(t);
    DecimalInjective(s, t);
  }

  lemma TagNumber(n: u32)
    ensures ActualTag(TagText(n)) == Success(n)
  {
    var digits := Decimal(n);
    assert TagText(n)[1..] == digits;
    assert TagText(n)[..1] == TAG_PREFIX;
    assert IsDigit(digits[0]);
    assert TrimPrefix(digits) == digits;
    ParseU32OfDecimal(n);
  }

  /** The connection is reported lost exactly if the stream ends, undisturbed, before a completion
      or anything malformed: it holds only untagged responses and perhaps the beginning of one more. */
  lemma LostIff(p: Parser, tag: u32, pending: seq<Event>)
    ensures ReadReply(p, tag, pending).result == Failure(ConnectionLost) <==>
            pending == Clean(Arrived(pending)) && RunsOut(p, Arrived(pending))
  {
    var v := Arrived(pending);
    assert v[0..] == v;
    UnansweredIff(p, v, 0);
    LostIffClean(pending);
  }

  /** A fault is passed on exactly if it comes before a completion or anything malformed. */
  lemma FaultIff(p: Parser, tag: u32, pending: seq<Event>, io: IoError)
    ensures ReadReply(p, tag, pending).result == Failure(Error.Io(io)) <==>
            Arrive(pending).failed.Broke? && Arrive(pending).failed.io == io && RunsOut(p, Arrived(pending))
  {
    var v := Arrived(pending);
    assert v[0..] == v;
    UnansweredIff(p, v, 0);
  }

  /** What arrives begins with a reply whose completion, for `tag`, is an unexplained BYE. */
  ghost predicate UnexplainedBye(p: Parser, tag: u32, v: bytes) {
    exists start: nat, end: nat, done: Response ::
      && BeginsWithReply(p, v, start, end, done)
      && done.tag == TagText(tag) && done.status == BYE && done.code == None
      && Explain(done.information) == NO_EXPLANATION
  }

  /** The BYE without explanation stands for something malformed after untagged responses, exactly
      unless the server did complete the command like that. */
  lemma ByeIff(p: Parser, tag: u32, pending: seq<Event>)
    ensures ReadReply(p, tag, pending).result == Failure(Error.Bye(None, NO_EXPLANATION)) <==>
            TurnsBad(p, Arrived(pending)) || UnexplainedBye(p, tag, Arrived(pending))
  {
    var v := Arrived(pending);
    assert v[0..] == v;
    UnansweredIff(p, v, 0);
    var f := Frame(p, v, 0);
    if f.Answered? {
      AnsweredIff(p, v, f.start, f.end, f.done);
    }
    if UnexplainedBye(p, tag, v) {
      var start: nat, end: nat, done: Response :|
        && BeginsWithReply(p, v, start, end, done)
        && done.tag == TagText(tag) && done.status == BYE && done.code == None
        && Explain(done.information) == NO_EXPLANATION;
      AnsweredIff(p, v, start, end, done);
    }
  }

  lemma BadEnds(p: Parser, tag: u32, pending: seq<Event>)
    requires TurnsBad(p, Arrived(pending))
    ensures var v := Arrived(pending);
            var tail := SplitAll(p, v).tail;
            var end := |v| - |tail| + FirstBad(p, tail, 0);
            ReadReply(p, tag, pending) ==
            Reading(Failure(Error.Bye(None, NO_EXPLANATION)), v[..end], pending[end..])
  {
    hide FirstBad, Frame, SplitAll, Arrive;
    var v := Arrived(pending);
    assert v[0..] == v;
    UnansweredIff(p, v, 0);
  }

  /** Something malformed is noticed at the end of the first line that shows it: up to there the
      octets are taken, and nothing beyond. */
  lemma BadIsSeenAtOnce(p: Parser, tag: u32, pending: seq<Event>, j: nat)
    requires TurnsBad(p, Arrived(pending))
    ensures var v := Arrived(pending);
            var start, r := |v| - |SplitAll(p, v).tail|, ReadReply(p, tag, pending);
            && start < |r.data| && r.data <= v && r.rest == pending[|r.data|..]
            && ParseResponse(p, r.data[start..]).Malformed?
            && (start < j < |r.data| && v[j - 1] == LF ==> !ParseResponse(p, v[start..j]).Malformed?)
  {
    hide FirstBad, SplitAll, Arrive, ReadReply, NoneDone;
    var v := Arrived(pending);
    var tail := SplitAll(p, v).tail;
    var start, end := |v| - |tail|, |v| - |tail| + FirstBad(p, tail, 0);
    BadEnds(p, tag, pending);
    SplitTail(p, v);
    SliceOfTail(v, start, end);
    if start < j < end && v[j - 1] == LF {
      FirstBadIsFirst(p, tail, 0, j - start);
      SliceOfTail(v, start, j);
    }
  }

  lemma SliceOfTail(v: bytes, start: nat, end: nat)
    requires start <= end <= |v|
    ensures v[..end][start..] == v[start..end] == v[start..][..end - start]
  {
  }

  /**
   The two framings agree: parsing the buffer of an accepted reply again, in one pass, sees
   untagged responses and then the completion, with nothing left over.
   */
  lemma FramingsAgree(p: Parser, tag: u32, data: bytes, i: nat)
    requires OkReply(p, tag, data, i)
    ensures SplitAll(p, data) == Split(ResponsesOf(p, data[..i]) + [ResponseAt(p, data, i).response], [])
  {
    assert data == data[..i] + data[i..];
    SplitLast(p, data[..i], data[i..]);
  }

  /** `run`'s answer, as the code that parses it may rely on it. */
  lemma AnswerIsOkReply(p: Parser, c: Conn)
    requires TakeReply(p, c).0.Success?
    ensures OkReply(p, c.tag, TakeReply(p, c).0.value.data, TakeReply(p, c).0.value.done)
  {
    var r := ReadReply(p, c.tag, c.incoming);
    ReplyOkIff(p, c.tag, c.incoming, r.data, r.result.value);
  }
}
