/**
 The APPEND command line as a server reads it (sections 6.3.11 and 9 of RFC 3501), and exactly when
 it reads what was passed (src/client.rs).
 */
module AppendLines {
  import opened Wrappers
  import opened Text
  import opened Responses
  import opened Folds
  import opened Utils
  import opened Quoting
  import opened Appending

  datatype AppendLine = AppendLine(mailbox: bytes, flags: seq<bytes>, date: Option<bytes>, length: nat)

  // ------------------------------------------------------------------ The reader

  function ReadMailbox(line: bytes): Option<ReadOff<bytes>> {
    match Expect("APPEND ", line)
    case None => None
    case Some(s) => ReadQuoted(s)
  }

  /** A space and a parenthesised list; what is left is what follows its closing parenthesis. */
  function ReadFlagList(s: bytes): Option<ReadOff<seq<bytes>>> {
    match Expect(" (", s)
    case None => None
    case Some(s) =>
      var body := UpToClose(s);
      if |body| >= |s| || !NoBreak(body) then None
      else Some(ReadOff(if body == [] then [] else Split(body), s[|body| + 1..]))
  }

  /** A space and a quoted date, if there is one. */
  function ReadDate(s: bytes): Option<ReadOff<Option<bytes>>> {
    match Expect(" \"", s)
    case None => Some(ReadOff(None, s))
    case Some(_) =>
      match ReadQuoted(s[1..])
      case None => None
      case Some(ReadOff(date, rest)) => Some(ReadOff(Some(date), rest))
  }

  /** A space and the announcement of a literal, at the end of the line. */
  function ReadLength(s: bytes): Option<nat> {
    match Expect(" {", s)
    case None => None
    case Some(s) =>
      if |s| < 2 || s[|s| - 1] != '}' || !AllDigits(s[..|s| - 1]) then None else Some(Value(s[..|s| - 1]))
  }

  function ReadAppendLine(line: bytes): Option<AppendLine> {
    match ReadMailbox(line)
    case None => None
    case Some(ReadOff(mailbox, s)) =>
      match ReadFlagList(s)
      case None => None
      case Some(ReadOff(flags, s)) =>
        match ReadDate(s)
        case None => None
        case Some(ReadOff(date, s)) =>
          match ReadLength(s)
          case None => None
          case Some(length) => Some(AppendLine(mailbox, flags, date, length))
  }

  // ------------------------------------------------------------------ What is passed

  /** All the flags but the system flag `\Recent`, in order. */
  function WithoutRecent(flags: seq<Flag>): seq<bytes> {
    if flags == [] then []
    else (if flags[0] == RecentFlag then [] else [FlagText(flags[0])]) + WithoutRecent(flags[1..])
  }

  lemma {:induction false} FlagListIs(flags: seq<Flag>)
    ensures FlagList(flags) == WithoutRecent(flags)
  {
    if flags != [] {
      FlagListNext(flags);
      FlagListIs(flags[1..]);
    }
  }

  /** A text that a list keeps apart, on its line. */
  predicate Fits(s: bytes) {
    forall i :: 0 <= i < |s| ==> s[i] != ' ' && s[i] != ')' && s[i] != '\r' && s[i] != '\n'
  }

  /** Custom flags that fit, and not a single empty one, which looks like none at all. */
  predicate FlagsFit(flags: seq<Flag>) {
    && (forall f :: f in flags && f.CustomFlag? ==> Fits(f.text))
    && WithoutRecent(flags) != [[]]
  }

  // ------------------------------------------------------------------ Stage by stage

  lemma MailboxStage(mailbox: bytes, rest: bytes)
    ensures var r := ReadMailbox("APPEND \"" + mailbox + "\"" + rest);
            if NeedsNoEscape(mailbox) then r == Some(ReadOff(mailbox, rest)) else r.Some? ==> r.value.value != mailbox
  {
    var s := "\"" + (mailbox + "\"" + rest);
    assert "APPEND \"" + mailbox + "\"" + rest == "APPEND " + s;
    ExpectToken("APPEND ", s);
    BareReadsBackIff(mailbox, rest);
    assert s[1..] == mailbox + "\"" + rest;
  }

  lemma FlagStage(items: seq<bytes>, rest: bytes)
    ensures var r := ReadFlagList(" (" + Join(items, " ") + ")" + rest);
            if (forall i :: 0 <= i < |items| ==> Fits(items[i])) && items != [[]] then r == Some(ReadOff(items, rest))
            else r.Some? ==> r.value.value != items
  {
    hide *;
    var list := Join(items, " ");
    ListIsRead(list, rest);
    BodyIff(items);
    BodyEnds(list, rest);
    if forall i :: 0 <= i < |items| ==> Fits(items[i]) {
      FitIsPlain(items);
      JoinCloses(items);
      UpToCloseOf(list, []);
    }
  }

  lemma ListIsRead(list: bytes, rest: bytes)
    ensures var body := UpToClose(list);
            && |body| < |list + (")" + rest)|
            && ReadFlagList(" (" + list + ")" + rest) ==
               if !NoBreak(body) then None
               else Some(ReadOff(if body == [] then [] else Split(body), (list + (")" + rest))[|body| + 1..]))
  {
    hide Split, UpToClose, NoBreak;
    var s := list + (")" + rest);
    assert " (" + list + ")" + rest == " (" + s;
    ExpectToken(" (", s);
    CloseIsNotRead(list, rest);
    BodyEnds(list, rest);
  }

  /** The inside of the list, and what follows the parenthesis that closes it. */
  lemma BodyEnds(list: bytes, rest: bytes)
    ensures |UpToClose(list)| < |list + (")" + rest)|
    ensures UpToClose(list) == list ==> (list + (")" + rest))[|UpToClose(list)| + 1..] == rest
  {
    UpToCloseOf(list, []);
    ShorterBody(list);
  }

  lemma {:induction false} ShorterBody(s: bytes)
    ensures |UpToClose(s)| <= |s|
  {
    if s != [] {
      ShorterBody(s[1..]);
    }
  }

  lemma FitIsPlain(items: seq<bytes>)
    requires forall i :: 0 <= i < |items| ==> Fits(items[i])
    ensures forall i :: 0 <= i < |items| ==> Plain(items[i]) && NoBreak(items[i]) && ')' !in items[i]
  {
  }

  /** The inside of a list comes out as the items exactly if they all fit. */
  lemma BodyIff(items: seq<bytes>)
    ensures var body := UpToClose(Join(items, " "));
            NoBreak(body) && (if body == [] then [] else Split(body)) == items <==>
            (forall i :: 0 <= i < |items| ==> Fits(items[i])) && items != [[]]
  {
    hide Split, Join, UpToClose, Plain, Fits, NoBreak;
    var body := UpToClose(Join(items, " "));
    if items == [] {
      NoBody();
    } else {
      ReadsBackIff(items);
      if forall i :: 0 <= i < |items| ==> Fits(items[i]) {
        FitIsPlain(items);
        EmptyBody(items);
        BodyNoBreak(items);
      }
      if NoBreak(body) && (if body == [] then [] else Split(body)) == items {
        PiecesFit(items, body);
        EmptyBody(items);
      }
    }
  }

  lemma NoBody()
    ensures UpToClose(Join([], " ")) == [] && NoBreak([])
  {
  }

  lemma EmptyBody(items: seq<bytes>)
    requires items != [] && forall i :: 0 <= i < |items| ==> Plain(items[i])
    ensures UpToClose(Join(items, " ")) == [] <==> items == [[]]
  {
    JoinCloses(items);
    UpToCloseOf(Join(items, " "), []);
  }

  lemma BodyNoBreak(items: seq<bytes>)
    requires forall i :: 0 <= i < |items| ==> Plain(items[i]) && NoBreak(items[i])
    ensures NoBreak(UpToClose(Join(items, " ")))
  {
    JoinCloses(items);
    JoinNoBreak(items);
    UpToCloseOf(Join(items, " "), []);
  }

  lemma PiecesFit(items: seq<bytes>, body: bytes)
    requires NoBreak(body) && Split(body) == items && forall i :: 0 <= i < |items| ==> Plain(items[i])
    ensures forall i :: 0 <= i < |items| ==> Fits(items[i])
  {
    PiecesOf(body);
    forall i | 0 <= i < |items|
      ensures Fits(items[i])
    {
      assert IsPiece(items[i], body);
      forall k | 0 <= k < |items[i]|
        ensures !IsBreak(items[i][k])
      {
        assert items[i][k] in items[i];
        var j :| 0 <= j < |body| && body[j] == items[i][k];
      }
    }
  }

  lemma DateStage(date: Option<bytes>, rest: bytes)
    requires Expect(" \"", rest).None?
    ensures var r := ReadDate(DateText(date) + rest);
            if date.None? || NeedsNoEscape(date.value) then r == Some(ReadOff(date, rest))
            else r.Some? ==> r.value.value != date
  {
    match date {
      case None => assert [] + rest == rest;
      case Some(text) =>
        var s := "\"" + (text + "\"" + rest);
        assert DateText(date) + rest == " " + s;
        assert " " + s == " \"" + (text + "\"" + rest);
        ExpectToken(" \"", text + "\"" + rest);
        assert (" " + s)[1..] == s && s[1..] == text + "\"" + rest;
        BareReadsBackIff(text, rest);
    }
  }

  lemma LengthStage(n: nat)
    ensures ReadLength(" {" + Decimal(n) + "}") == Some(n)
  {
    var digits := Decimal(n);
    assert " {" + digits + "}" == " {" + (digits + "}");
    ExpectToken(" {", digits + "}");
    assert (digits + "}")[..|digits|] == digits;
    DecimalReadsBack(n);
  }

  // ------------------------------------------------------------------ The whole line

  lemma LineIs(a: AppendArgs)
    ensures var last := " {" + Decimal(|a.content|) + "}";
            AppendCommand(a) ==
            "APPEND \"" + a.mailbox + "\"" + (" (" + Join(WithoutRecent(a.flags), " ") + ")" + (DateText(a.date) + last))
  {
    hide Decimal, Join, DateText;
    FlagListIs(a.flags);
    var list, date, digits := Join(WithoutRecent(a.flags), " "), DateText(a.date), Decimal(|a.content|);
    assert "APPEND \"" + a.mailbox + "\" (" + list + ")" + date + " " + "{" + digits + "}" ==
           "APPEND \"" + a.mailbox + "\"" + (" (" + list + ")" + (date + (" {" + digits + "}")));
  }

  lemma FlagsFitIff(flags: seq<Flag>)
    ensures (forall f :: f in flags && f.CustomFlag? ==> Fits(f.text)) <==>
            forall i :: 0 <= i < |WithoutRecent(flags)| ==> Fits(WithoutRecent(flags)[i])
  {
    if flags != [] {
      FlagsFitIff(flags[1..]);
      var later := WithoutRecent(flags[1..]);
      assert flags == [flags[0]] + flags[1..];
      if flags[0] != RecentFlag {
        FlagFitsIff(flags[0]);
        assert WithoutRecent(flags)[0] == FlagText(flags[0]);
        assert forall i :: 0 <= i < |later| ==> WithoutRecent(flags)[i + 1] == later[i];
      } else {
        assert WithoutRecent(flags) == later;
      }
    }
  }

  lemma FlagFitsIff(f: Flag)
    requires f != RecentFlag
    ensures Fits(FlagText(f)) <==> (f.CustomFlag? ==> Fits(f.text))
  {
  }

  /**
   The server reads off the command line what was passed, the mailbox, all flags but `\Recent`, the
   date and the length of the content, exactly if the mailbox and the date need no escaping and the
   custom flags fit into the list.
   */
  lemma AppendLineReadsBackIff(a: AppendArgs)
    ensures ReadAppendLine(AppendCommand(a)) ==
            Some(AppendLine(a.mailbox, WithoutRecent(a.flags), a.date, |a.content|))
            <==>
            NeedsNoEscape(a.mailbox) && FlagsFit(a.flags) && (a.date.Some? ==> NeedsNoEscape(a.date.value))
  {
    hide Decimal, Join, DateText, ReadMailbox, ReadFlagList, ReadDate, ReadLength, AppendCommand, NeedsNoEscape, Fits;
    var last := " {" + Decimal(|a.content|) + "}";
    var items := WithoutRecent(a.flags);
    LineIs(a);
    MailboxStage(a.mailbox, " (" + Join(items, " ") + ")" + (DateText(a.date) + last));
    FlagStage(items, DateText(a.date) + last);
    FlagsFitIff(a.flags);
    assert Expect(" \"", last).None? by {
      assert last[1] == '{' && " \""[1] == '"';
    }
    DateStage(a.date, last);
    LengthStage(|a.content|);
  }

  /** The flags that a server finds on the line, after the parenthesis that follows the mailbox. */
  function ReadAppendFlags(line: bytes): Option<seq<bytes>> {
    match ReadMailbox(line)
    case None => None
    case Some(ReadOff(_, s)) =>
      match Expect(" (", s)
      case None => None
      case Some(s) => Some(ReadFlags(s))
  }

  /** On a line whose mailbox can be read, a server finds `\Recent`, in whatever case, exactly if some
      custom flag brings it in before the list is closed. */
  lemma RecentReadIff(a: AppendArgs)
    requires NeedsNoEscape(a.mailbox)
    ensures ReadAppendFlags(AppendCommand(a)).Some?
    ensures ReadsRecent(ReadAppendFlags(AppendCommand(a)).value) <==> RecentSlips(a.flags)
  {
    hide Decimal, Join, DateText, ReadMailbox, ReadsRecent, RecentSlips, AppendCommand, NeedsNoEscape;
    var last := DateText(a.date) + (" {" + Decimal(|a.content|) + "}");
    var list := Join(WithoutRecent(a.flags), " ");
    LineIs(a);
    MailboxStage(a.mailbox, " (" + list + ")" + last);
    assert " (" + list + ")" + last == " (" + (list + (")" + last));
    ExpectToken(" (", list + (")" + last));
    CloseIsNotRead(list, last);
    FlagListIs(a.flags);
    SlipsIff(a.flags);
  }
}
