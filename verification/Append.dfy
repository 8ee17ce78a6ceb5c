/** The APPEND command line and its literal (src/client.rs; section 6.3.11 of RFC 3501). */
module Appending {
  import opened Wrappers
  import opened Sequences
  import opened Text
  import opened Responses
  import opened Folds
  import opened Framing
  import opened Utils
  import SmallGrammar

  /** The date, if there is one, as it has been formatted. */
  datatype AppendArgs = AppendArgs(mailbox: bytes, flags: seq<Flag>, date: Option<bytes>, content: bytes)

  predicate NotRecent(f: Flag) {
    f != RecentFlag
  }

  function FlagList(flags: seq<Flag>): seq<bytes> {
    TextsOf(Filter(NotRecent, flags))
  }

  function DateText(date: Option<bytes>): bytes {
    match date
    case None => ""
    case Some(text) => " \"" + text + "\""
  }

  function BeforeLiteral(a: AppendArgs): bytes {
    "APPEND \"" + a.mailbox + "\" (" + Join(FlagList(a.flags), " ") + ")" + DateText(a.date) + " "
  }

  function AppendCommand(a: AppendArgs): bytes {
    BeforeLiteral(a) + "{" + Decimal(|a.content|) + "}"
  }

  // ------------------------------------------------------------------ The flags

  const RECENT: bytes := "\\Recent"

  /** Up to the parenthesis that closes the list. */
  function UpToClose(s: bytes): bytes {
    if s == [] || s[0] == ')' then [] else [s[0]] + UpToClose(s[1..])
  }

  /** A flag list as a server reads it (section 9 of RFC 3501), from after its opening parenthesis:
      tokens separated by single spaces, up to the first closing one. */
  function ReadFlags(s: bytes): seq<bytes> {
    Split(UpToClose(s))
  }

  /** Flags are case-insensitive. */
  predicate ReadsRecent(tokens: seq<bytes>) {
    exists i :: 0 <= i < |tokens| && EqIgnoringCase(tokens[i], RECENT)
  }

  /** Some custom flag reads as `\Recent`, alone or in part, and none before it closes the list. */
  predicate RecentSlips(flags: seq<Flag>) {
    flags != [] &&
    if !flags[0].CustomFlag? then RecentSlips(flags[1..])
    else
      || ReadsRecent(ReadFlags(flags[0].text))
      || (')' !in flags[0].text && RecentSlips(flags[1..]))
  }

  lemma {:induction false} UpToCloseOf(a: bytes, b: bytes)
    ensures UpToClose(a + b) == if ')' in a then UpToClose(a) else a + UpToClose(b)
    ensures ')' !in a ==> UpToClose(a) == a
    ensures ')' !in UpToClose(a)
  {
    if a == [] {
      assert a + b == b;
    } else {
      assert (a + b)[1..] == a[1..] + b;
      UpToCloseOf(a[1..], b);
      assert a == [a[0]] + a[1..];
    }
  }

  lemma ReadsEither(a: seq<bytes>, b: seq<bytes>)
    ensures ReadsRecent(a + b) <==> ReadsRecent(a) || ReadsRecent(b)
  {
    forall i | 0 <= i < |b|
      ensures (a + b)[|a| + i] == b[i]
    {
    }
    if ReadsRecent(a) {
      var i :| 0 <= i < |a| && EqIgnoringCase(a[i], RECENT);
      assert (a + b)[i] == a[i];
    }
    if ReadsRecent(b) {
      var i :| 0 <= i < |b| && EqIgnoringCase(b[i], RECENT);
      assert EqIgnoringCase((a + b)[|a| + i], RECENT);
    }
  }

  /** The first flag of a list, and the rest of it. */
  lemma FirstRead(text: bytes, later: seq<bytes>)
    ensures var tokens := ReadFlags(Join([text] + later, " "));
            ReadsRecent(tokens) <==>
            ReadsRecent(ReadFlags(text)) || (')' !in text && ReadsRecent(ReadFlags(Join(later, " "))))
  {
    hide ReadsRecent, Split;
    JoinCons(text, later, " ");
    if later == [] {
      NothingRead();
    } else {
      var rest := Join(later, " ");
      UpToCloseOf(text, " " + rest);
      UpToCloseOf(" ", rest);
      assert text + " " + rest == text + (" " + rest);
      assert text + (" " + UpToClose(rest)) == text + " " + UpToClose(rest);
      SplitTwo(text, UpToClose(rest));
      ReadsEither(Split(text), Split(UpToClose(rest)));
    }
  }

  lemma NothingRead()
    ensures !ReadsRecent(ReadFlags(Join([], " ")))
  {
    assert Split([]) == [[]];
  }

  lemma SystemFlagRead(f: Flag)
    requires NotRecent(f) && !f.CustomFlag?
    ensures ' ' !in FlagText(f) && ')' !in FlagText(f) && !ReadsRecent(ReadFlags(FlagText(f)))
  {
    SystemFlagText(f);
    UpToCloseOf(FlagText(f), []);
    SplitWord(FlagText(f), []);
  }

  lemma SystemFlagText(f: Flag)
    requires NotRecent(f) && !f.CustomFlag?
    ensures ' ' !in FlagText(f) && ')' !in FlagText(f) && |FlagText(f)| != |RECENT|
  {
  }

  lemma {:induction false} SlipsIff(flags: seq<Flag>)
    ensures ReadsRecent(ReadFlags(Join(FlagList(flags), " "))) <==> RecentSlips(flags)
  {
    hide ReadsRecent, ReadFlags, Join;
    if flags == [] {
      NothingRead();
    } else {
      SlipsIff(flags[1..]);
      FlagListNext(flags);
      assert [] + FlagList(flags[1..]) == FlagList(flags[1..]);
      if NotRecent(flags[0]) {
        FirstRead(FlagText(flags[0]), FlagList(flags[1..]));
        if !flags[0].CustomFlag? {
          SystemFlagRead(flags[0]);
        }
      }
    }
  }

  lemma FlagListNext(flags: seq<Flag>)
    requires flags != []
    ensures FlagList(flags) ==
            (if NotRecent(flags[0]) then [FlagText(flags[0])] else []) + FlagList(flags[1..])
  {
    var later := Filter(NotRecent, flags[1..]);
    if NotRecent(flags[0]) {
      assert Filter(NotRecent, flags) == [flags[0]] + later;
    } else {
      assert Filter(NotRecent, flags) == [] + later == later;
    }
  }

  lemma CloseIsNotRead(s: bytes, more: bytes)
    ensures UpToClose(s + (")" + more)) == UpToClose(s)
  {
    UpToCloseOf(s, ")" + more);
    assert UpToClose(")" + more) == [];
    assert s + [] == s;
  }

  predicate Plain(s: bytes) {
    ' ' !in s && ')' !in s
  }

  /** Custom flags that bring it in: after another word. */
  lemma RecentAfterWord()
    ensures RecentSlips([CustomFlag("a \\Recent")])
  {
    hide RecentSlips, ReadFlags;
    AfterWord("a", RECENT);
    assert "a \\Recent" == "a" + " " + RECENT;
    SlipsAs("a \\Recent", ["a", RECENT]);
  }

  /** In lower case, which is not the system flag to the source. */
  lemma RecentInLowerCase()
    ensures RecentSlips([CustomFlag("\\recent")]) && FlagOf("\\recent") == CustomFlag("\\recent")
  {
    hide RecentSlips, ReadFlags;
    OneWord("\\recent");
    SlipsAs("\\recent", ["\\recent"]);
  }

  /** And closing the list. */
  lemma RecentThenClose()
    ensures RecentSlips([CustomFlag("\\Recent)")])
  {
    hide RecentSlips, Split, UpToClose;
    OneWord(RECENT);
    CloseIsNotRead(RECENT, []);
    assert "\\Recent)" == RECENT + (")" + []);
    SlipsAs("\\Recent)", [RECENT]);
  }

  lemma OneWord(word: bytes)
    requires Plain(word)
    ensures ReadFlags(word) == [word]
  {
    UpToCloseOf(word, []);
    SplitWord(word, []);
  }

  lemma AfterWord(a: bytes, b: bytes)
    requires Plain(a) && Plain(b)
    ensures ReadFlags(a + " " + b) == [a, b]
  {
    UpToCloseOf(a + " " + b, []);
    SplitTwo(a, b);
    SplitWord(a, []);
    SplitWord(b, []);
  }

  lemma SlipsAs(text: bytes, tokens: seq<bytes>)
    requires ReadFlags(text) == tokens && tokens != [] && EqIgnoringCase(tokens[|tokens| - 1], RECENT)
    ensures RecentSlips([CustomFlag(text)])
  {
    assert ReadsRecent(tokens);
  }

  lemma {:induction false} FilterHas<A>(keep: A -> bool, xs: seq<A>)
    ensures forall x :: x in Filter(keep, xs) <==> x in xs && keep(x)
  {
    if xs != [] {
      FilterHas(keep, xs[1..]);
    }
  }

  lemma ReadsBackIff(items: seq<bytes>)
    requires items != []
    ensures ReadFlags(Join(items, " ")) == items <==> forall i :: 0 <= i < |items| ==> Plain(items[i])
  {
    hide Split, Join, UpToClose;
    var s := Join(items, " ");
    UpToCloseOf(s, []);
    PiecesOf(UpToClose(s));
    if forall i :: 0 <= i < |items| ==> Plain(items[i]) {
      JoinCloses(items);
      SplitJoin(items);
    }
    if ReadFlags(s) == items {
      forall i | 0 <= i < |items|
        ensures Plain(items[i])
      {
        assert IsPiece(items[i], UpToClose(s));
      }
    }
  }

  lemma {:induction false} JoinCloses(items: seq<bytes>)
    requires forall i :: 0 <= i < |items| ==> ')' !in items[i]
    ensures ')' !in Join(items, " ")
  {
    if |items| > 1 {
      JoinCloses(items[1..]);
    }
  }

  lemma PlainFlags(flags: seq<Flag>)
    requires forall f :: f in flags ==> NotRecent(f)
    ensures (forall i :: 0 <= i < |flags| ==> Plain(TextsOf(flags)[i])) <==>
            forall f :: f in flags && f.CustomFlag? ==> Plain(f.text)
  {
    if forall i :: 0 <= i < |flags| ==> Plain(TextsOf(flags)[i]) {
      forall f | f in flags && f.CustomFlag?
        ensures Plain(f.text)
      {
        var i :| 0 <= i < |flags| && flags[i] == f;
        assert Plain(TextsOf(flags)[i]);
      }
    }
    if forall f :: f in flags && f.CustomFlag? ==> Plain(f.text) {
      forall i | 0 <= i < |flags|
        ensures Plain(TextsOf(flags)[i])
      {
        assert flags[i] in flags;
        if !flags[i].CustomFlag? {
          SystemFlagText(flags[i]);
        }
      }
    }
  }

  // ------------------------------------------------------------------ The literal

  predicate NoLf(s: bytes) {
    forall i :: 0 <= i < |s| ==> s[i] != LF
  }

  /** How a server takes an APPEND off the wire: the announced number of octets after the first line. */
  function TakeLiteral(wire: bytes): Option<(bytes, bytes)> {
    var e := LineStop(wire, 0);
    match SmallGrammar.LiteralLength(wire[..e])
    case None => None
    case Some(n) => if e + n <= |wire| then Some((wire[e..e + n], wire[e + n..])) else None
  }

  lemma {:induction false} LastBraceBeforeDigits(before: bytes, digits: bytes)
    requires AllDigits(digits)
    ensures SmallGrammar.LastBrace(before + "{" + digits) == Some(|before|)
    decreases |digits|
  {
    var s := before + "{" + digits;
    if digits != [] {
      var init := digits[..|digits| - 1];
      LastBraceBeforeDigits(before, init);
      assert s[..|s| - 1] == before + "{" + init;
      assert IsDigit(s[|s| - 1]);
    }
  }

  lemma LiteralAnnounced(before: bytes, n: nat)
    ensures SmallGrammar.LiteralLength(before + "{" + Decimal(n) + "}" + CRLF) == Some(n)
  {
    hide Decimal, Value, SmallGrammar.LastBrace;
    var line := before + "{" + Decimal(n) + "}" + CRLF;
    var body := before + "{" + Decimal(n);
    assert line[..|line| - 3] == body;
    LastBraceBeforeDigits(before, Decimal(n));
    assert body[|before| + 1..] == Decimal(n);
    DecimalReadsBack(n);
  }

  lemma LiteralTaken(line: bytes, content: bytes, rest: bytes)
    requires line != [] && line[|line| - 1] == LF && NoLf(line[..|line| - 1])
    requires SmallGrammar.LiteralLength(line) == Some(|content|)
    ensures TakeLiteral(line + (content + rest)) == Some((content, rest))
  {
    hide SmallGrammar.LiteralLength;
    LineStopAt(line, content + rest);
    var wire := line + (content + rest);
    assert wire[..|line|] == line;
    assert wire[|line|..] == content + rest;
    assert wire[|line|..|line| + |content|] == content;
    assert wire[|line| + |content|..] == rest;
  }

  /** If the first line ends before the one that announces the literal does, what is taken is not the content. */
  lemma LiteralMissed(line: bytes, content: bytes, rest: bytes)
    requires line != [] && !NoLf(line[..|line| - 1])
    ensures TakeLiteral(line + (content + rest)) != Some((content, rest))
  {
    hide SmallGrammar.LiteralLength;
    var wire := line + (content + rest);
    var k :| 0 <= k < |line| - 1 && line[k] == LF;
    assert wire[k] == LF;
    assert LineStop(wire, 0) <= k + 1 < |line|;
  }

  /**
   Whatever the content is, CRLFs and `{k}` included, the server recovers it and is left with the
   CRLF after it, exactly if there is no LF before the literal.
   */
  lemma LiteralReadsBackIff(tagged: bytes, a: AppendArgs, more: bytes)
    requires NoLf(tagged)
    ensures var wire := tagged + AppendCommand(a) + CRLF + a.content + CRLF + more;
            TakeLiteral(wire) == Some((a.content, CRLF + more)) <==> NoLf(BeforeLiteral(a))
  {
    hide BeforeLiteral, TakeLiteral, Decimal, SmallGrammar.LiteralLength;
    var before, digits := tagged + BeforeLiteral(a), Decimal(|a.content|);
    var line := before + "{" + digits + "}" + CRLF;
    BreakBeforeLiteral(tagged, BeforeLiteral(a), digits);
    assert tagged + AppendCommand(a) + CRLF == line;
    Associative(line + a.content, CRLF, more);
    Associative(line, a.content, CRLF + more);
    if NoLf(BeforeLiteral(a)) {
      LiteralAnnounced(before, |a.content|);
      LiteralTaken(line, a.content, CRLF + more);
    } else {
      LiteralMissed(line, a.content, CRLF + more);
    }
  }

  lemma BreakBeforeLiteral(tagged: bytes, before: bytes, digits: bytes)
    requires NoLf(tagged) && AllDigits(digits)
    ensures var line := tagged + before + "{" + digits + "}" + CRLF;
            NoLf(line[..|line| - 1]) <==> NoLf(before)
  {
    var line := tagged + before + "{" + digits + "}" + CRLF;
    if !NoLf(before) {
      var k :| 0 <= k < |before| && before[k] == LF;
      assert line[..|line| - 1][|tagged| + k] == LF;
    }
  }

  lemma LineStopAt(line: bytes, rest: bytes)
    requires line != [] && line[|line| - 1] == LF && NoLf(line[..|line| - 1])
    ensures LineStop(line + rest, 0) == |line|
  {
    var v := line + rest;
    var e := LineStop(v, 0);
    assert forall i :: 0 <= i < |line| - 1 ==> v[i] == line[..|line| - 1][i];
    assert v[|line| - 1] == LF;
  }

  /** The mailbox is neither quoted nor checked: a line break in it derails the literal. */
  lemma MailboxWithLineBreak()
    ensures var a := AppendArgs("x\r\n", [], None, "hello");
            TakeLiteral("a1 " + AppendCommand(a) + CRLF + a.content + CRLF) == None
  {
    var a := AppendArgs("x\r\n", [], None, "hello");
    var wire := "a1 " + AppendCommand(a) + CRLF + a.content + CRLF;
    var line := "a1 APPEND \"x\r\n";
    assert wire[..|line|] == line;
    assert wire == line + wire[|line|..];
    LineStopAt(line, wire[|line|..]);
  }
}
