/**
 Replies in the small grammar: for every tag and every literal there is a reply that a command
 accepts, so the statements about whole runs are about something.
 */
module SmallReplies {
  import opened Wrappers
  import opened Text
  import opened Responses
  import opened ParserLaws
  import opened Parsing
  import opened Framing
  import opened Transport
  import opened Connections
  import opened Lockstep
  import Appending
  import WireLockstep
  import Wire
  import SmallGrammar

  ghost function Small(): Parser {
    SmallGrammar.SmallGrammarIsLawful();
    SmallGrammar.ParseResponse
  }

  /** A response with a literal, which may hold anything, line breaks and `{k}` included. */
  function WithLiteral(content: bytes): bytes {
    "* X {" + Decimal(|content|) + "}" + CRLF + (content + ")" + CRLF)
  }

  function Closing(tag: u32, word: bytes): bytes {
    TagText(tag) + " " + word + CRLF
  }

  function Completion(tag: u32): bytes {
    Closing(tag, "OK")
  }

  function Refusal(tag: u32): bytes {
    Closing(tag, "NO")
  }

  lemma {:induction false} FirstLineEnd(x: bytes, k: nat, e: nat)
    requires k <= e && e + 2 <= |x| && x[e] == CR && x[e + 1] == LF
    requires forall i :: k <= i < e ==> x[i] != CR
    ensures SmallGrammar.LineEnd(x, k) == Some(e + 2)
    decreases e - k
  {
    if k < e {
      FirstLineEnd(x, k + 1, e);
    }
  }

  lemma {:induction false} FirstSpace(s: bytes, rest: bytes)
    requires ' ' !in s
    ensures SmallGrammar.Space(s + " " + rest) == |s| && SmallGrammar.Space(s) == |s|
  {
    if s == [] {
      assert (s + " " + rest)[0] == ' ';
    } else {
      assert (s + " " + rest)[1..] == s[1..] + " " + rest;
      FirstSpace(s[1..], rest);
    }
  }

  lemma TagIsPlain(tag: u32)
    ensures TagText(tag) != [] && TagText(tag)[0] == 'a'
    ensures forall i :: 0 <= i < |TagText(tag)| ==> TagText(tag)[i] != ' ' && TagText(tag)[i] != CR && TagText(tag)[i] != LF
  {
    hide Decimal;
    forall i | 0 < i < |TagText(tag)|
      ensures IsDigit(TagText(tag)[i])
    {
      assert TagText(tag)[i] == Decimal(tag)[i - 1];
    }
  }

  lemma ClosingFrame(tag: u32, word: bytes)
    requires word == "OK" || word == "NO"
    ensures SmallGrammar.FrameEnd(Closing(tag, word), 0) == Some(|Closing(tag, word)|)
  {
    hide TagText;
    var x := Closing(tag, word);
    TagIsPlain(tag);
    FirstLineEnd(x, 0, |TagText(tag)| + 3);
    assert x[0..|x|] == x && x[|x| - 3] != '}';
  }

  lemma ClosingMeans(tag: u32, word: bytes)
    requires word == "OK" || word == "NO"
    requires EndsWithCRLF(Closing(tag, word))
    ensures SmallGrammar.Meaning(Closing(tag, word)) ==
            Some(Done(TagText(tag), if word == "OK" then OK else NO, None, None))
  {
    hide TagText;
    var frame := Closing(tag, word);
    var text := TagText(tag) + " " + word;
    assert frame[..|frame| - 2] == text;
    TagIsPlain(tag);
    FirstSpace(TagText(tag), word);
    FirstSpace(word, []);
    assert text[..|TagText(tag)|] == TagText(tag);
    assert text[|TagText(tag)| + 1..] == word;
    assert word[..2] == word;
  }

  lemma ClosingParsed(tag: u32, word: bytes)
    requires word == "OK" || word == "NO"
    ensures ParseResponse(Small(), Closing(tag, word)) ==
            Complete(|Closing(tag, word)|, Done(TagText(tag), if word == "OK" then OK else NO, None, None))
  {
    hide SmallGrammar.Meaning, SmallGrammar.FrameEnd;
    var x := Closing(tag, word);
    ClosingFrame(tag, word);
    assert x[..|x|] == x;
    assert EndsWithCRLF(x);
    ClosingMeans(tag, word);
  }

  lemma CompletionParsed(tag: u32)
    ensures ParseResponse(Small(), Completion(tag)) ==
            Complete(|Completion(tag)|, Done(TagText(tag), OK, None, None))
  {
    ClosingParsed(tag, "OK");
  }

  lemma RefusalParsed(tag: u32)
    ensures ParseResponse(Small(), Refusal(tag)) ==
            Complete(|Refusal(tag)|, Done(TagText(tag), NO, None, None))
  {
    ClosingParsed(tag, "NO");
  }

  lemma LiteralFrame(content: bytes)
    ensures SmallGrammar.FrameEnd(WithLiteral(content), 0) == Some(|WithLiteral(content)|)
  {
    hide Decimal, SmallGrammar.LiteralLength;
    var before, digits := "* X ", Decimal(|content|);
    var text := before + "{" + digits + "}";
    var line := text + CRLF;
    var rest := content + ")" + CRLF;
    var x := line + rest;
    assert x == WithLiteral(content);
    forall i | 0 <= i < |text|
      ensures x[i] != CR
    {
      if 5 <= i < 5 + |digits| {
        assert IsDigit(digits[i - 5]);
      }
    }
    FirstLineEnd(x, 0, |text|);
    assert x[0..|line|] == line;
    Appending.LiteralAnnounced(before, |content|);
    LastLine(x, |line| + |content|);
  }

  lemma LastLine(x: bytes, k: nat)
    requires k + 3 == |x| && x[k] == ')' && x[k + 1] == CR && x[k + 2] == LF
    ensures SmallGrammar.FrameEnd(x, k) == Some(|x|)
  {
    FirstLineEnd(x, k, k + 1);
    assert x[k..|x|][|x[k..|x|]| - 3] == ')';
  }

  lemma LiteralMeans(content: bytes)
    requires EndsWithCRLF(WithLiteral(content))
    ensures var r := SmallGrammar.Meaning(WithLiteral(content));
            r.Some? && r.value.OtherResponse?
  {
    hide Decimal;
    var frame := WithLiteral(content);
    var tail := "{" + Decimal(|content|) + "}" + CRLF + (content + ")");
    assert frame[..|frame| - 2] == "*" + " " + ("X" + " " + tail);
    FirstSpace("*", "X" + " " + tail);
    FirstSpace("X", tail);
    assert ("*" + " " + ("X" + " " + tail))[..1] == "*";
    assert ("*" + " " + ("X" + " " + tail))[2..] == "X" + " " + tail;
    assert ("X" + " " + tail)[..1] == "X";
    assert !IsDigit("X"[0]) && ParseU32("X") == None;
  }

  lemma LiteralParsed(content: bytes)
    ensures var q := ParseResponse(Small(), WithLiteral(content));
            q.Complete? && q.length == |WithLiteral(content)| && q.response.OtherResponse?
  {
    hide SmallGrammar.Meaning, SmallGrammar.FrameEnd, Decimal;
    var x := WithLiteral(content);
    LiteralFrame(content);
    assert x[..|x|] == x;
    assert EndsWithCRLF(x);
    LiteralMeans(content);
  }

  /** A reply to every command, whatever its literal holds. */
  lemma ReplyWithLiteral(tag: u32, content: bytes)
    ensures var s := Segment(WithLiteral(content) + Completion(tag), |WithLiteral(content)|);
            Answers(Small(), tag, s) && OwnAnswer(Small(), tag, s) == Success(Answer(s.reply, s.start))
  {
    hide WithLiteral, Lockstep.Script;
    var x, y := WithLiteral(content), Completion(tag);
    LiteralParsed(content);
    CompletionParsed(tag);
    SplitOne(Small(), x);
    assert (x + y)[..|x|] == x && (x + y)[|x|..] == y;
  }

  // ------------------------------------------------------------------ A server

  /** A server that sends each command line back, as a literal, and completes the command. */
  function Echo(line: bytes): Segment {
    var reply := WithLiteral(line);
    Segment(reply + (line[..SmallGrammar.Space(line)] + " OK" + CRLF), |reply|)
  }

  lemma EchoOfCommand(tag: u32, command: bytes)
    ensures Echo(Wire.LineOf(tag, command)) ==
            Segment(WithLiteral(Wire.LineOf(tag, command)) + Completion(tag),
                    |WithLiteral(Wire.LineOf(tag, command))|)
  {
    hide Decimal, WithLiteral;
    var line := Wire.LineOf(tag, command);
    assert line == TagText(tag) + " " + (command + CRLF);
    TagIsPlain(tag);
    assert " " + "OK" == " OK";
    FirstSpace(TagText(tag), command + CRLF);
    assert line[..|TagText(tag)|] == TagText(tag);
  }

  lemma EchoAnswers(tag: u32, command: bytes)
    ensures var s := Echo(Wire.LineOf(tag, command));
            Answers(Small(), tag, s) && OwnAnswer(Small(), tag, s) == Success(Answer(s.reply, s.start))
  {
    hide *;
    EchoOfCommand(tag, command);
    ReplyWithLiteral(tag, Wire.LineOf(tag, command));
  }

  lemma EchoServes()
    ensures WireLockstep.Serves(Small(), Echo)
  {
    hide Answers, Echo, Small;
    forall tag: u32, command: bytes | Appending.NoLf(command)
      ensures Answers(Small(), tag, Echo(Wire.LineOf(tag, command)))
    {
      EchoAnswers(tag, command);
    }
  }

  /** After a failed flush the second command is answered with the echo of the first. */
  lemma StaleEcho(c: Conn, x: bytes, y: bytes, io: IoError)
    requires Appending.NoLf(x) && Appending.NoLf(y) && x != y
    requires c.out.sends == [Sent, Sent, Broken(0, io)]
    requires var tag := NextTag(c.tag);
             var lines := CompleteLines(Wire.LineOf(tag, x) + Wire.LineOf(tag, y));
             c.incoming == Clean(Script(WireLockstep.Served(Echo, lines)))
    ensures var tag := NextTag(c.tag);
            var stale := Echo(Wire.LineOf(tag, x));
            && RunAll(Small(), c, [x, y]).0 == [Failure(Error.Io(io)), Success(Answer(stale.reply, stale.start))]
            && Wire.LineOf(tag, x) != Wire.LineOf(tag, y)
  {
    hide *;
    EchoServes();
    FlushFailsFirst(c, x, y, io);
    assert c.incoming + [] == c.incoming;
    WireLockstep.StrayLineIsAnswered(Small(), Echo, c, x, y, []);
    EchoAnswers(NextTag(c.tag), x);
    if Wire.LineOf(NextTag(c.tag), x) == Wire.LineOf(NextTag(c.tag), y) {
      LinesDiffer(NextTag(c.tag), x, y);
    }
  }

  lemma FlushFailsFirst(c: Conn, x: bytes, y: bytes, io: IoError)
    requires c.out.sends == [Sent, Sent, Broken(0, io)]
    ensures var (sent, c1) := SendCommand(c, x);
            && sent == Failure(Error.Io(io)) && c1.out.written == c.out.written + Wire.LineOf(NextTag(c.tag), x)
            && SendCommand(c1, y).0.Success?
  {
    hide CommandLine;
    var tag := NextTag(c.tag);
    WireLockstep.FlushFails(c.out, CommandLine(tag, x), CRLF, io);
    WriteThenFlushWrites(SendCommand(c, x).1.out, [CommandLine(tag, y), CRLF]);
  }

  lemma LinesDiffer(tag: u32, x: bytes, y: bytes)
    requires Wire.LineOf(tag, x) == Wire.LineOf(tag, y)
    ensures x == y
  {
    hide Decimal;
    var before := TagText(tag) + " ";
    assert Wire.LineOf(tag, x) == before + x + CRLF;
    assert Wire.LineOf(tag, y) == before + y + CRLF;
    assert x == (before + x + CRLF)[|before|..|before + x|];
    assert y == (before + y + CRLF)[|before|..|before + y|];
  }
}
