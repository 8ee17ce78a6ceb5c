/** Concrete inputs in the small grammar for what goes wrong. */
module SmallRuns {
  import opened Wrappers
  import opened Sequences
  import opened Text
  import opened Responses
  import opened ParserLaws
  import opened Parsing
  import opened Framing
  import opened Transport
  import opened Connections
  import opened Replies
  import opened SmallReplies
  import Demultiplexing
  import Mailboxes
  import Sessions
  import UnsolicitedRuns
  import Clients
  import Idling
  import IdleRuns
  import IdleDelivery
  import SmallGrammar

  // ------------------------------------------------------------------ Replies that panic

  /** The completion alone, as the answer to IDLE: `init` panics. */
  lemma IdleCompletedAtOnce(s: Idling.Idle)
    requires s.conn.out.sends == []
    requires s.conn.incoming == Clean(Completion(NextTag(s.conn.tag)))
    ensures Idling.InitIdle(Small(), s).0 == Failure(Panic)
  {
    hide Idling.InitIdle, OkReply;
    var tag := NextTag(s.conn.tag);
    var x := Completion(tag);
    WriteThenFlushWrites(s.conn.out, [CommandLine(tag, Idling.IDLE), CRLF]);
    CompletionIsLine(tag);
    assert Clean(x) + [] == Clean(x);
    ReadLineBack(x, []);
    ArriveAfterLine(x, []);
    assert x + [] == x;
    CompletionIsReply(tag);
    assert OkReply(Small(), tag, x, 0);
    IdleRuns.InitPanicsIff(Small(), s);
  }

  lemma CompletionIsLine(tag: u32)
    ensures IsLine(Completion(tag)) && Terminated(Completion(tag)) && !StartsWith(Completion(tag), "+")
  {
    hide TagText;
    TagIsPlain(tag);
    assert "+"[0] == '+';
  }

  lemma CompletionIsReply(tag: u32)
    ensures OkReply(Small(), tag, Completion(tag), 0)
  {
    hide Completion;
    CompletionParsed(tag);
    assert Completion(tag)[..0] == [] && Completion(tag)[0..] == Completion(tag);
  }

  const UNTAGGED_NO: bytes := "* NO\r\n"

  lemma UntaggedNoParsed()
    ensures ParseResponse(Small(), UNTAGGED_NO) == Complete(6, Data(NO, None, None))
  {
    var x := UNTAGGED_NO;
    FirstLineEnd(x, 0, 4);
    assert x[0..6] == x && x[..6] == x;
    assert SmallGrammar.FrameEnd(x, 0) == Some(6);
    UntaggedNoMeans();
  }

  lemma UntaggedNoMeans()
    ensures SmallGrammar.Meaning(UNTAGGED_NO) == Some(Data(NO, None, None))
  {
    var text := UNTAGGED_NO[..4];
    assert text == "*" + " " + "NO";
    FirstSpace("*", "NO");
    FirstSpace("NO", []);
    assert text[..1] == "*" && text[2..] == "NO" && "NO"[..2] == "NO";
  }

  lemma UntaggedNoFirst(tag: u32)
    ensures OkReply(Small(), tag, UNTAGGED_NO + Completion(tag), 6)
    ensures SplitAll(Small(), UNTAGGED_NO) == Split([Data(NO, None, None)], [])
  {
    hide Completion, SplitAll, Small;
    var x, y := UNTAGGED_NO, Completion(tag);
    UntaggedNoParsed();
    CompletionParsed(tag);
    SplitOne(Small(), x);
    assert (x + y)[..6] == x && (x + y)[6..] == y;
  }

  /** An untagged NO within an accepted reply: SELECT panics. */
  lemma SelectWithUntaggedNo(tag: u32)
    ensures OkReply(Small(), tag, UNTAGGED_NO + Completion(tag), 6)
    ensures Demultiplexing.Demux(Small(), Mailboxes.MailboxRoute, UNTAGGED_NO + Completion(tag)).error == Some(Panic)
  {
    hide Completion, Demultiplexing.Demux, OkReply, SplitAll;
    var x, y := UNTAGGED_NO, Completion(tag);
    UntaggedNoFirst(tag);
    FramingsAgree(Small(), tag, x + y, 6);
    assert (x + y)[..6] == x;
    var rs := ResponsesOf(Small(), x + y);
    assert rs[0] == Data(NO, None, None);
    assert Demultiplexing.Accepted(Mailboxes.MailboxRoute, rs) == 0;
    Mailboxes.SelectPanicsIff(Small(), x + y);
  }

  // ------------------------------------------------------------------ A comment of two lines

  const COMMENT: bytes := "* X {2}\r\n"
  const LITERAL: bytes := "hi)\r\n"

  lemma CommentSplits()
    ensures WithLiteral("hi") == COMMENT + LITERAL
  {
    assert Decimal(2) == "2";
  }

  lemma LiteralIsMalformed()
    ensures ParseResponse(Small(), LITERAL) == Malformed
  {
    var x := LITERAL;
    FirstLineEnd(x, 0, 3);
    assert x[0..5] == x && x[..5] == x;
    assert SmallGrammar.FrameEnd(x, 0) == Some(5);
    var text := x[..3];
    assert text == "hi)";
    SpaceOfWord(text);
    assert text[..3] == text;
    assert SmallGrammar.Meaning(x) == None;
  }

  lemma SpaceOfWord(s: bytes)
    requires ' ' !in s
    ensures SmallGrammar.Space(s) == |s|
  {
    FirstSpace(s, []);
  }

  /** The handshake drops comments line by line: the second line of one with a literal is taken for
      the reply, and the handshake fails although the server completes it. */
  lemma CommentWithLiteral(x: Clients.Scheme, c: Conn)
    requires c.incoming == Clean(WithLiteral("hi") + Completion(c.tag))
    ensures Clients.Handshake(Small(), x, c).0 == Failure(Error.Bye(None, NO_EXPLANATION))
  {
    hide *;
    var later := LITERAL + Completion(c.tag);
    CommentSplits();
    Associative(COMMENT, LITERAL, Completion(c.tag));
    BothAreLines();
    ReadsPast(c, COMMENT, later);
    var c1 := TakeLine(c).1;
    ReadsPast(c1, LITERAL, Completion(c.tag));
    Clients.AtReplyNext(x, c);
    Clients.AtReplyNext(x, c1);
    LiteralIsMalformed();
    BadReply(c.tag, LITERAL, Completion(c.tag));
    ReplyIsBad(Clients.AtReply(x, c).value);
    Clients.HandshakeAtReply(Small(), x, c);
    assert Clients.Completion(TakeReply(Small(), Clients.AtReply(x, c).value).0) ==
           Failure(Error.Bye(None, NO_EXPLANATION)) by {
      FailureStays(TakeReply(Small(), Clients.AtReply(x, c).value).0);
    }
  }

  lemma BothAreLines()
    ensures IsLine(COMMENT) && Terminated(COMMENT) && Clients.IsComment(COMMENT)
    ensures IsLine(LITERAL) && Terminated(LITERAL)
    ensures !Clients.IsComment(LITERAL) && !Clients.IsContinuation(LITERAL)
  {
    assert COMMENT[..2] == "* ";
    assert LITERAL[0] == 'h' && "* "[0] == '*' && "+ "[0] == '+' && Clients.BARE[0] == '+';
  }

  lemma FailureStays(r: Res<Answer>)
    ensures r.Failure? ==> Clients.Completion(r) == Failure(r.error)
  {
  }

  lemma ReplyIsBad(at: Conn)
    requires ReadReply(Small(), at.tag, at.incoming).result == Failure(Error.Bye(None, NO_EXPLANATION))
    ensures TakeReply(Small(), at).0 == Failure(Error.Bye(None, NO_EXPLANATION))
  {
    hide ReadReply, Small;
  }

  // ------------------------------------------------------------------ A session out of a literal

  lemma LiteralLines(content: bytes) returns (first: bytes)
    ensures WithLiteral(content) == first + (content + ")" + CRLF)
    ensures IsLine(first) && Terminated(first) && Clients.IsComment(first)
  {
    hide Decimal;
    first := "* X {" + Decimal(|content|) + "}" + CRLF;
    forall i | 0 <= i < |first| - 1
      ensures first[i] != LF
    {
      if 5 <= i < |first| - 3 {
        assert IsDigit(Decimal(|content|)[i - 5]);
      }
    }
    assert first[..2] == "* ";
  }

  /** The text of a completion within a comment's literal passes for the completion itself. */
  lemma SessionOutOfLiteral(x: Clients.Scheme, c: Conn, more: bytes)
    requires c.incoming == Clean(WithLiteral(Completion(c.tag)) + more)
    ensures Clients.Handshake(Small(), x, c).0.Success?
  {
    hide *;
    var done, after := Completion(c.tag), ")" + CRLF + more;
    var first := LiteralLines(done);
    Regrouped(first, done, more);
    ReadsPast(c, first, done + after);
    CompletionIsLine(c.tag);
    NotOther(c.tag);
    var c1 := TakeLine(c).1;
    ReadsPast(c1, done, after);
    Clients.AtReplyNext(x, c);
    Clients.AtReplyNext(x, c1);
    CompletionArrives(Clients.AtReply(x, c).value, after);
    Clients.SessionIff(Small(), x, c);
  }

  lemma Regrouped(first: bytes, done: bytes, more: bytes)
    ensures first + (done + ")" + CRLF) + more == first + (done + (")" + CRLF + more))
  {
  }

  lemma CompletionArrives(at: Conn, after: bytes)
    requires at.incoming == Clean(Completion(at.tag) + after)
    ensures Clients.CompletedAt(Small(), at)
  {
    hide Completion, Small, OkReply;
    var done := Completion(at.tag);
    CompletionIsLine(at.tag);
    assert Clean(done + after) == Clean(done) + Clean(after);
    ArriveAfterLines(done, Clean(after));
    CompletionIsReply(at.tag);
    assert done <= Arrived(at.incoming) && OkReply(Small(), at.tag, done, 0);
  }

  lemma ReadsPast(c: Conn, line: bytes, later: bytes)
    requires c.incoming == Clean(line + later) && IsLine(line) && Terminated(line)
    ensures var (r, c1) := TakeLine(c);
            r == Success(line) && c1.incoming == Clean(later) && c1.tag == c.tag
  {
    assert Clean(line + later) == Clean(line) + Clean(later);
    ReadLineBack(line, Clean(later));
    assert c.incoming[|line|..] == Clean(later);
  }

  lemma NotOther(tag: u32)
    ensures !Clients.IsComment(Completion(tag)) && !Clients.IsContinuation(Completion(tag))
  {
    hide TagText;
    TagIsPlain(tag);
    assert Completion(tag)[0] == 'a' && "* "[0] == '*' && "+ "[0] == '+' && Clients.BARE[0] == '+';
  }

  /** So there is a session even if the server refuses: what it sends is one untagged response and
      then NO, and read as a reply it is a refusal. */
  lemma SessionDespiteRefusal(x: Clients.Scheme, c: Conn)
    requires c.incoming == Clean(WithLiteral(Completion(c.tag)) + Refusal(c.tag))
    ensures Clients.Handshake(Small(), x, c).0.Success?
    ensures ReadReply(Small(), c.tag, c.incoming).result == Failure(Error.No(None, NO_EXPLANATION))
  {
    hide ReadReply, Completion, Refusal, WithLiteral, BeginsWithReply, Clients.Handshake;
    SessionOutOfLiteral(x, c, Refusal(c.tag));
    var comment := WithLiteral(Completion(c.tag));
    LiteralParsed(Completion(c.tag));
    RefusedAfter(c.tag, comment);
    RefusalReadBack(c.tag, comment, c.incoming);
  }

  /** One untagged response, and the command is refused. */
  lemma RefusedAfter(tag: u32, untagged: bytes)
    requires var q := ParseResponse(Small(), untagged);
             q.Complete? && q.length == |untagged| && !q.response.Done?
    ensures BeginsWithReply(Small(), untagged + Refusal(tag), |untagged|, |untagged + Refusal(tag)|,
                            Done(TagText(tag), NO, None, None))
  {
    hide Refusal, Small, SplitAll;
    var x, y := untagged, Refusal(tag);
    RefusalParsed(tag);
    SplitOne(Small(), x);
    assert (x + y)[..|x|] == x && (x + y)[|x|..|x + y|] == y;
  }

  lemma RefusalReadBack(tag: u32, untagged: bytes, pending: seq<Event>)
    requires pending == Clean(untagged + Refusal(tag))
    requires BeginsWithReply(Small(), untagged + Refusal(tag), |untagged|, |untagged + Refusal(tag)|,
                             Done(TagText(tag), NO, None, None))
    ensures untagged + Refusal(tag) <= Arrived(pending)
    ensures var r := ReadReply(Small(), tag, pending);
            r.result == Failure(Error.No(None, NO_EXPLANATION)) && r.rest == []
  {
    hide ReadReply, Small, BeginsWithReply, TagText;
    var v := untagged + Refusal(tag);
    assert v[|v| - 1] == LF;
    assert Clean(v) + [] == Clean(v);
    ArriveAfterLines(v, []);
    AnswerConsumed(Small(), tag, pending, v, |untagged|, Done(TagText(tag), NO, None, None));
  }

  // ------------------------------------------------------------------ Reminders

  /** Dovecot's reminder is dropped whatever its case, and nothing else is, a letter less included. */
  lemma RemindersAreDropped(go: Idling.Callback, seen: seq<UnsolicitedResponse>)
    ensures Idling.Deliver(Small(), go, seen, "* OK Still here\r\n", 0) == Idling.Exhausted(seen, 17)
    ensures Idling.Deliver(Small(), go, seen, "* ok STILL HERE\r\n", 0) == Idling.Exhausted(seen, 17)
    ensures !Idling.IsStillHere("* OK Still there\r\n") && !Idling.IsStillHere("* NO Still here\r\n")
  {
    hide Small, Idling.Deliver;
    AlsoReminds();
    DroppedAlone(go, seen, "* OK Still here\r\n");
    DroppedAlone(go, seen, "* ok STILL HERE\r\n");
    assert Lower("* NO Still here\r\n"[2]) != Lower("* OK Still here\r\n"[2]);
  }

  lemma AlsoReminds()
    ensures Idling.IsStillHere("* ok STILL HERE\r\n")
  {
  }

  lemma DroppedAlone(go: Idling.Callback, seen: seq<UnsolicitedResponse>, line: bytes)
    requires Idling.IsStillHere(line)
    ensures Idling.Deliver(Small(), go, seen, line, 0) == Idling.Exhausted(seen, |line|)
  {
    hide Small, Idling.IsStillHere;
    Idling.StillHereIsLine(line);
    IdleDelivery.StillHereEnds(line);
    assert LineStop(line, 0) == |line| && line[0..|line|] == line;
  }

  // ------------------------------------------------------------------ Data that is lost

  const EXISTS: bytes := "* 3 EXISTS\r\n"

  lemma ExistsParsed()
    ensures ParseResponse(Small(), EXISTS) == Complete(12, MailboxData(Exists(3)))
  {
    var x := EXISTS;
    FirstLineEnd(x, 0, 10);
    assert x[0..12] == x && x[..12] == x;
    assert SmallGrammar.FrameEnd(x, 0) == Some(12);
    ExistsMeans();
  }

  lemma ExistsMeans()
    ensures SmallGrammar.Meaning(EXISTS) == Some(MailboxData(Exists(3)))
  {
    var text := EXISTS[..10];
    assert text == "*" + " " + ("3" + " " + "EXISTS");
    FirstSpace("*", "3" + " " + "EXISTS");
    FirstSpace("3", "EXISTS");
    assert text[..1] == "*" && text[2..] == "3" + " " + "EXISTS";
    assert ("3" + " " + "EXISTS")[..1] == "3" && ("3" + " " + "EXISTS")[2..] == "EXISTS";
    assert Decimal(3) == "3";
    ParseU32OfDecimal(3);
  }

  /** NOOP, answered with the new size of the mailbox and NO: the size is consumed and never seen. */
  lemma ExistsIsLost(s: Sessions.State)
    requires s.conn.out.sends == []
    requires s.conn.incoming == Clean(EXISTS + Refusal(NextTag(s.conn.tag)))
    ensures var s' := Sessions.Perform(Small(), s, Sessions.Noop);
            s'.queue == s.queue && s'.conn.incoming == []
    ensures var q := ParseResponse(Small(), EXISTS);
            q.Complete? && Convert(q.response) == Some(UExists(3))
  {
    hide *;
    var tag := NextTag(s.conn.tag);
    var reply := EXISTS + Refusal(tag);
    ExistsConverts();
    RefusedAfter(tag, EXISTS);
    NoopAtReply(s.conn);
    RefusalReadBack(tag, EXISTS, s.conn.incoming);
    UnsolicitedRuns.RefusedIsLost(Small(), s, Sessions.Noop, reply, |EXISTS|, Done(TagText(tag), NO, None, None));
    assert s.conn.incoming[|reply|..] == [];
  }

  lemma ExistsConverts()
    ensures var q := ParseResponse(Small(), EXISTS);
            q.Complete? && q.length == |EXISTS| && !q.response.Done? && Convert(q.response) == Some(UExists(3))
  {
    ExistsParsed();
  }

  lemma NoopAtReply(c: Conn)
    requires c.out.sends == []
    ensures var at := UnsolicitedRuns.AtReply(c, Sessions.Noop);
            at.Some? && at.value.incoming == c.incoming && at.value.tag == NextTag(c.tag)
  {
    WriteThenFlushWrites(c.out, [CommandLine(NextTag(c.tag), "NOOP"), CRLF]);
  }

  const CUT: bytes := "* 3 EX"
  const REST: bytes := "ISTS\r\n"

  lemma CutIsBeginning()
    ensures CUT + REST == EXISTS && IdleDelivery.Beginning(Small(), CUT)
  {
    NoLineEnd(CUT, 0);
    assert |CUT[0..LineStop(CUT, 0)]| <= 6;
  }

  lemma {:induction false} NoLineEnd(x: bytes, k: nat)
    requires k <= |x| && forall i :: 0 <= i < |x| ==> x[i] != CR
    ensures SmallGrammar.LineEnd(x, k) == None
    decreases |x| - k
  {
    if k + 2 <= |x| {
      NoLineEnd(x, k + 1);
    }
  }

  lemma RestIsMalformed()
    ensures ParseResponse(Small(), REST) == Malformed
  {
    var x := REST;
    FirstLineEnd(x, 0, 4);
    assert x[0..6] == x && x[..6] == x;
    assert SmallGrammar.FrameEnd(x, 0) == Some(6);
    var text := x[..4];
    assert text == "ISTS";
    SpaceOfWord(text);
    assert text[..4] == text;
    assert SmallGrammar.Meaning(x) == None;
  }

  /** A response that a timeout cuts in two: the first half is lost, and the second is taken for the
      reply to DONE, so that the wait fails and the callback is never called on it. */
  lemma CutResponseEndsWait(go: Idling.Callback, seen: seq<UnsolicitedResponse>, s: Idling.Idle, more: bytes)
    requires !s.done && s.conn.out.sends == []
    requires s.conn.incoming == Clean(CUT) + ([Fault(TimedOut)] + Clean(REST + more))
    ensures var (r, seen', _) := Idling.WaitOn(Small(), go, true, seen, s);
            r == Failure(Error.Bye(None, NO_EXPLANATION)) && seen' == seen
  {
    hide Idling.WaitOn, Idling.TerminateIdle, ReadReply, Small, IdleDelivery.Beginning;
    CutIsBeginning();
    assert IdleDelivery.Render([]) + CUT == CUT && seen + [] == seen;
    var s1 := IdleDelivery.AfterTimeout(Small(), go, seen, s, [], CUT, TimedOut, Clean(REST + more));
    RestIsMalformed();
    BadReply(s1.conn.tag, REST, more);
    DoneMet(s1);
  }

  lemma DoneMet(s: Idling.Idle)
    requires !s.done && s.conn.out.sends == []
    requires ReadReply(Small(), s.conn.tag, s.conn.incoming).result == Failure(Error.Bye(None, NO_EXPLANATION))
    ensures Idling.TerminateIdle(Small(), s).0 == Failure(Error.Bye(None, NO_EXPLANATION))
  {
    hide ReadReply, Small;
    WriteThenFlushWrites(s.conn.out, [Idling.DONE, CRLF]);
  }

  lemma BadReply(tag: u32, bad: bytes, more: bytes)
    requires ParseResponse(Small(), bad).Malformed? && Terminated(bad)
    ensures ReadReply(Small(), tag, Clean(bad + more)).result == Failure(Error.Bye(None, NO_EXPLANATION))
  {
    hide Small;
    assert Clean(bad + more) == Clean(bad) + Clean(more);
    ArriveAfterLines(bad, Clean(more));
    var v := bad + Arrived(Clean(more));
    Extend(Small(), bad, Arrived(Clean(more)));
    assert v[0..] == v;
  }
}
