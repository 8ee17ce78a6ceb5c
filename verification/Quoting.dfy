/**
 Arguments on command lines: `quote!`, the validators, and the LOGIN and SETMETADATA lines
 (src/client.rs, src/extensions/metadata.rs), with readers that recover the arguments.

 The source quotes and checks `str`s; working on their octets makes no difference, since the
 characters concerned are ASCII.
 */
module Quoting {
  import opened Wrappers
  import opened Text
  import opened Responses
  import opened Utils

  const QUOTE := '"'
  const BACKSLASH := '\\'

  // ------------------------------------------------------------------ quote!

  /** `str::replace` with a one-character pattern. */
  function Replace(s: bytes, c: char, with: bytes): bytes {
    if s == [] then [] else (if s[0] == c then with else [s[0]]) + Replace(s[1..], c, with)
  }

  function Quote(x: bytes): bytes {
    "\"" + Replace(Replace(x, BACKSLASH, "\\\\"), QUOTE, "\\\"") + "\""
  }

  /** One-pass escaping: a backslash before every quote and every backslash. */
  function Escape(x: bytes): bytes {
    if x == [] then []
    else (if x[0] == QUOTE || x[0] == BACKSLASH then [BACKSLASH, x[0]] else [x[0]]) + Escape(x[1..])
  }

  lemma {:induction false} ReplaceAppend(a: bytes, b: bytes, c: char, with: bytes)
    ensures Replace(a + b, c, with) == Replace(a, c, with) + Replace(b, c, with)
  {
    if a == [] {
      assert a + b == b;
    } else {
      assert (a + b)[1..] == a[1..] + b;
      ReplaceAppend(a[1..], b, c, with);
    }
  }

  /** The two replacements, one after the other, are one-pass escaping. */
  lemma {:induction false} TwoPassesAreEscape(x: bytes)
    ensures Replace(Replace(x, BACKSLASH, "\\\\"), QUOTE, "\\\"") == Escape(x)
  {
    if x != [] {
      TwoPassesAreEscape(x[1..]);
      var head := if x[0] == BACKSLASH then "\\\\" else [x[0]];
      ReplaceAppend(head, Replace(x[1..], BACKSLASH, "\\\\"), QUOTE, "\\\"");
      ReplaceShort(head);
    }
  }

  lemma ReplaceShort(s: bytes)
    requires |s| == 1 || s == "\\\\"
    ensures Replace(s, QUOTE, "\\\"") == if s == "\"" then "\\\"" else s
  {
    if s == "\\\\" {
      assert s[1..] == "\\";
      assert s[1..][1..] == [];
    } else {
      assert s[1..] == [] && s == [s[0]];
    }
  }

  // ------------------------------------------------------------------ Reading a quoted string

  /** A value and what follows it. */
  datatype ReadOff<+T> = ReadOff(value: T, rest: bytes)

  predicate IsBreak(c: char) {
    c == CR || c == LF
  }

  predicate NoBreak(s: bytes) {
    forall i :: 0 <= i < |s| ==> !IsBreak(s[i])
  }

  /** The rest of a `quoted` of section 9 of RFC 3501, up to the closing quote. */
  function ReadBody(s: bytes): (r: Option<ReadOff<bytes>>)
    ensures r.Some? ==> |r.value.rest| < |s|
    decreases |s|
  {
    if s == [] || IsBreak(s[0]) then None
    else if s[0] == QUOTE then Some(ReadOff([], s[1..]))
    else if s[0] == BACKSLASH then
      if |s| >= 2 && (s[1] == QUOTE || s[1] == BACKSLASH) then Prefix(s[1], ReadBody(s[2..])) else None
    else Prefix(s[0], ReadBody(s[1..]))
  }

  function Prefix(c: char, r: Option<ReadOff<bytes>>): Option<ReadOff<bytes>> {
    match r
    case None => None
    case Some(ReadOff(value, rest)) => Some(ReadOff([c] + value, rest))
  }

  function ReadQuoted(s: bytes): (r: Option<ReadOff<bytes>>)
    ensures r.Some? ==> |r.value.rest| < |s|
  {
    if s == [] || s[0] != QUOTE then None else ReadBody(s[1..])
  }

  /** One escaped character, and the rest of the body. */
  lemma BodyNext(c: char, t: bytes)
    ensures ReadBody((if c == QUOTE || c == BACKSLASH then [BACKSLASH, c] else [c]) + t) ==
            if IsBreak(c) then None else Prefix(c, ReadBody(t))
  {
    if c == QUOTE || c == BACKSLASH {
      assert ([BACKSLASH, c] + t)[2..] == t;
    } else {
      assert ([c] + t)[1..] == t;
    }
  }

  lemma {:induction false} EscapeReadsBack(x: bytes, rest: bytes)
    ensures NoBreak(x) ==> ReadBody(Escape(x) + "\"" + rest) == Some(ReadOff(x, rest))
    ensures !NoBreak(x) ==> ReadBody(Escape(x) + "\"" + rest) == None
  {
    if x == [] {
      assert (Escape(x) + "\"" + rest)[1..] == rest;
    } else {
      EscapeReadsBack(x[1..], rest);
      assert x == [x[0]] + x[1..];
      hide ReadBody;
      var head := if x[0] == QUOTE || x[0] == BACKSLASH then [BACKSLASH, x[0]] else [x[0]];
      assert Escape(x) + "\"" + rest == head + (Escape(x[1..]) + "\"" + rest);
      BodyNext(x[0], Escape(x[1..]) + "\"" + rest);
    }
  }

  /** A quoted argument reads back, whatever follows it, exactly if it contains no line break. */
  lemma QuotedReadsBackIff(x: bytes, rest: bytes)
    ensures ReadQuoted(Quote(x) + rest) == Some(ReadOff(x, rest)) <==> NoBreak(x)
  {
    TwoPassesAreEscape(x);
    EscapeReadsBack(x, rest);
    assert (Quote(x) + rest)[1..] == Escape(x) + "\"" + rest;
  }

  // ------------------------------------------------------------------ Unescaped in quotes

  /** Nothing that has to be escaped in quotes, and no line break. */
  predicate NeedsNoEscape(s: bytes) {
    forall i :: 0 <= i < |s| ==> s[i] != '"' && s[i] != '\\' && s[i] != '\r' && s[i] != '\n'
  }

  function Backslashes(n: nat): (s: bytes)
    ensures |s| == n && forall i :: 0 <= i < n ==> s[i] == BACKSLASH
  {
    seq(n, _ => BACKSLASH)
  }

  /** What is read of `u` never comes to `u` with backslashes in front of it. */
  lemma {:induction false} NeverAhead(u: bytes, n: nat, rest: bytes)
    requires n > 0 && ReadBody(u + "\"" + rest).Some?
    ensures ReadBody(u + "\"" + rest).value.value != Backslashes(n) + u
    decreases |u|
  {
    var s := u + "\"" + rest;
    var ahead := Backslashes(n) + u;
    assert ahead[0] == BACKSLASH;
    if |u| >= 2 && u[0] == BACKSLASH && u[1] == BACKSLASH {
      assert s[2..] == u[2..] + "\"" + rest;
      NeverAhead(u[2..], n + 1, rest);
      assert ahead[1..] == Backslashes(n + 1) + u[2..];
      assert ReadBody(s).value.value[1..] == ReadBody(s[2..]).value.value;
    }
  }

  /** Text put between quotes as it is reads back, whatever follows, exactly if it needs no escaping. */
  lemma {:induction false} BareReadsBackIff(x: bytes, rest: bytes)
    ensures NeedsNoEscape(x) ==> ReadBody(x + "\"" + rest) == Some(ReadOff(x, rest))
    ensures ReadBody(x + "\"" + rest).Some? && ReadBody(x + "\"" + rest).value.value == x ==> NeedsNoEscape(x)
  {
    var s := x + "\"" + rest;
    if x == [] {
      assert s[1..] == rest;
    } else if x[0] == BACKSLASH {
      if |x| >= 2 && x[1] == BACKSLASH && ReadBody(s).Some? {
        assert s[2..] == x[2..] + "\"" + rest;
        NeverAhead(x[2..], 1, rest);
        assert x[1..] == Backslashes(1) + x[2..];
        assert ReadBody(s).value.value[1..] == ReadBody(s[2..]).value.value;
      }
    } else if x[0] != QUOTE && !IsBreak(x[0]) {
      assert s[1..] == x[1..] + "\"" + rest;
      BareReadsBackIff(x[1..], rest);
      assert x == [x[0]] + x[1..];
      if ReadBody(s).Some? {
        assert ReadBody(s).value.value[1..] == ReadBody(s[1..]).value.value;
      }
    }
  }

  // ------------------------------------------------------------------ The validators

  function FirstSuch(bad: char -> bool, value: bytes): (c: Option<char>)
    ensures c.None? <==> forall i :: 0 <= i < |value| ==> !bad(value[i])
    ensures c.Some? ==> exists i :: 0 <= i < |value| && value[i] == c.value && bad(value[i])
                                    && forall j :: 0 <= j < i ==> !bad(value[j])
  {
    if value == [] then None
    else if bad(value[0]) then Some(value[0])
    else
      var c := FirstSuch(bad, value[1..]);
      assert forall i :: 0 < i < |value| ==> value[i] == value[1..][i - 1];
      assert c.Some? ==> exists i :: 0 <= i < |value| && value[i] == c.value && bad(value[i])
                                     && forall j :: 0 <= j < i ==> !bad(value[j]) by {
        if c.Some? {
          var i :| 0 <= i < |value[1..]| && value[1..][i] == c.value && bad(value[1..][i])
                   && forall j :: 0 <= j < i ==> !bad(value[1..][j]);
          assert value[i + 1] == c.value;
        }
      }
      c
  }

  function Unless(offending: Option<char>, synopsis: bytes, argument: bytes, value: bytes): Res<bytes> {
    match offending
    case None => Success(value)
    case Some(c) => Failure(Validate(synopsis, argument, c))
  }

  function ValidateStrNoQuote(synopsis: bytes, argument: bytes, value: bytes): (r: Res<bytes>)
    ensures r.Success? <==> NoBreak(value)
    ensures r.Success? <==> '\r' !in value && '\n' !in value
    ensures r.Success? ==> r.value == value
    ensures r.Failure? ==> exists i :: 0 <= i < |value| && r.error == Validate(synopsis, argument, value[i])
                                       && (value[i] == '\r' || value[i] == '\n')
                                       && '\r' !in value[..i] && '\n' !in value[..i]
  {
    Unless(FirstSuch(IsBreak, value), synopsis, argument, value)
  }

  function ValidateStr(synopsis: bytes, argument: bytes, value: bytes): (r: Res<bytes>)
    ensures r.Success? <==> NoBreak(value)
    ensures r.Success? ==> r.value == Quote(value)
    ensures r.Failure? ==> r == ValidateStrNoQuote(synopsis, argument, value)
  {
    var checked :- ValidateStrNoQuote(synopsis, argument, value);
    Success(Quote(checked))
  }

  /** `char::is_ascii_whitespace`. */
  predicate IsWhitespace(c: char) {
    c == ' ' || c == '\t' || c == LF || c == '\U{0C}' || c == CR
  }

  function ValidateSequenceSet(synopsis: bytes, argument: bytes, value: bytes): (r: Res<bytes>)
    ensures r.Success? <==> forall i :: 0 <= i < |value| ==> !IsWhitespace(value[i])
    ensures r.Success? <==> forall i :: 0 <= i < |value| ==>
                              value[i] != ' ' && value[i] != '\t' && value[i] != '\n' && value[i] as int != 12 && value[i] != '\r'
    ensures r.Success? ==> r.value == value && NoBreak(value)
    ensures r.Failure? ==> exists i :: 0 <= i < |value| && r.error == Validate(synopsis, argument, value[i])
                                       && forall j :: 0 <= j < i ==> !IsWhitespace(value[j])
  {
    Unless(FirstSuch(IsWhitespace, value), synopsis, argument, value)
  }

  // ------------------------------------------------------------------ LOGIN

  function LoginCommand(username: bytes, password: bytes): Res<bytes> {
    var u :- ValidateStr("LOGIN", "username", username);
    var p :- ValidateStr("LOGIN", "password", password);
    Success("LOGIN " + u + " " + p)
  }

  function Expect(token: bytes, s: bytes): (r: Option<bytes>)
    ensures r.Some? ==> |r.value| + |token| == |s|
  {
    if StartsWith(s, token) then Some(s[|token|..]) else None
  }

  function ReadLogin(line: bytes): Option<(bytes, bytes)> {
    match Expect("LOGIN ", line)
    case None => None
    case Some(s) =>
      match ReadQuoted(s)
      case None => None
      case Some(ReadOff(username, s)) =>
        match Expect(" ", s)
        case None => None
        case Some(s) =>
          match ReadQuoted(s)
          case None => None
          case Some(ReadOff(password, s)) => if s == [] then Some((username, password)) else None
  }

  lemma ExpectToken(token: bytes, rest: bytes)
    ensures Expect(token, token + rest) == Some(rest)
  {
    assert (token + rest)[|token|..] == rest;
  }

  /** An accepted LOGIN line decodes to its arguments, and it is accepted exactly if they have no line break. */
  lemma LoginReadsBack(username: bytes, password: bytes)
    ensures LoginCommand(username, password).Success? <==> NoBreak(username) && NoBreak(password)
    ensures LoginCommand(username, password).Success? ==>
              var line := LoginCommand(username, password).value;
              ReadLogin(line) == Some((username, password)) && NoBreak(line)
  {
    if LoginCommand(username, password).Success? {
      var u, p := Quote(username), Quote(password);
      assert "LOGIN " + u + " " + p == "LOGIN " + (u + (" " + (p + [])));
      ExpectToken("LOGIN ", u + (" " + (p + [])));
      QuotedReadsBackIff(username, " " + (p + []));
      ExpectToken(" ", p + []);
      QuotedReadsBackIff(password, []);
      QuoteNoBreak(username);
      QuoteNoBreak(password);
    }
  }

  lemma QuoteNoBreak(x: bytes)
    requires NoBreak(x)
    ensures NoBreak(Quote(x))
  {
    TwoPassesAreEscape(x);
    EscapeNoBreak(x);
  }

  lemma {:induction false} EscapeNoBreak(x: bytes)
    requires NoBreak(x)
    ensures NoBreak(Escape(x))
  {
    if x != [] {
      EscapeNoBreak(x[1..]);
    }
  }

  /** A refused LOGIN names the first argument with a line break. */
  lemma LoginBlames(username: bytes, password: bytes)
    requires LoginCommand(username, password).Failure?
    ensures var e := LoginCommand(username, password).error;
            && e.Validate? && e.synopsis == "LOGIN"
            && e.argument == (if NoBreak(username) then "password" else "username")
  {
  }

  // ------------------------------------------------------------------ SETMETADATA

  const SETMETADATA: bytes := "SETMETADATA"

  /** `format_as_cmd_list_item`. */
  function MetadataItem(m: Metadata, index: nat): Res<bytes> {
    var number := Decimal(index + 1);
    var entry :- ValidateStr(SETMETADATA, "entry#" + number, m.entry);
    match m.value
    case None => Success(entry + " " + "NIL")
    case Some(v) =>
      var value :- ValidateStr(SETMETADATA, "value#" + number, v);
      Success(entry + " " + value)
  }

  /** Collecting into a `Result` stops at the first failure. */
  function MetadataItems(ms: seq<Metadata>, index: nat): (r: Res<seq<bytes>>)
    ensures r.Success? ==> |r.value| == |ms|
    decreases |ms|
  {
    if ms == [] then Success([])
    else
      var item :- MetadataItem(ms[0], index);
      var items :- MetadataItems(ms[1..], index + 1);
      Success([item] + items)
  }

  function SetMetadataCommand(mailbox: bytes, annotations: seq<Metadata>): Res<bytes> {
    var items :- MetadataItems(annotations, 0);
    var mbox :- ValidateStr(SETMETADATA, "mailbox", mailbox);
    Success("SETMETADATA " + mbox + " (" + Join(items, " ") + ")")
  }

  /** An entry and its value or NIL. */
  function ReadItem(s: bytes): (r: Option<ReadOff<Metadata>>)
    ensures r.Some? ==> |r.value.rest| < |s|
  {
    match ReadQuoted(s)
    case None => None
    case Some(ReadOff(entry, s)) =>
      match Expect(" ", s)
      case None => None
      case Some(s) =>
        match Expect("NIL", s)
        case Some(s) => Some(ReadOff(Metadata(entry, None), s))
        case None =>
          match ReadQuoted(s)
          case None => None
          case Some(ReadOff(value, s)) => Some(ReadOff(Metadata(entry, Some(value)), s))
  }

  /** Items separated by single spaces, up to the closing parenthesis that ends the line. */
  function ReadItems(s: bytes): Option<seq<Metadata>>
    decreases |s|
  {
    match ReadItem(s)
    case None => None
    case Some(ReadOff(m, s)) =>
      if s == ")" then Some([m])
      else
        match Expect(" ", s)
        case None => None
        case Some(s) =>
          match ReadItems(s)
          case None => None
          case Some(ms) => Some([m] + ms)
  }

  function ReadSetMetadata(line: bytes): Option<(bytes, seq<Metadata>)> {
    match Expect("SETMETADATA ", line)
    case None => None
    case Some(s) =>
      match ReadQuoted(s)
      case None => None
      case Some(ReadOff(mailbox, s)) =>
        match Expect(" (", s)
        case None => None
        case Some(s) =>
          if s == ")" then Some((mailbox, []))
          else
            match ReadItems(s)
            case None => None
            case Some(ms) => Some((mailbox, ms))
  }

  predicate CleanItem(m: Metadata) {
    NoBreak(m.entry) && (m.value.Some? ==> NoBreak(m.value.value))
  }

  lemma QuoteStarts(x: bytes)
    ensures Quote(x) != [] && Quote(x)[0] == QUOTE
  {
  }

  lemma ItemReadsBack(m: Metadata, index: nat, rest: bytes)
    ensures MetadataItem(m, index).Success? <==> CleanItem(m)
    ensures MetadataItem(m, index).Success? ==>
              var item := MetadataItem(m, index).value;
              && ReadItem(item + rest) == Some(ReadOff(m, rest))
              && NoBreak(item) && item[0] == QUOTE
  {
    hide ReadQuoted, Quote;
    if CleanItem(m) {
      var entry := Quote(m.entry);
      var value := if m.value.Some? then Quote(m.value.value) else "NIL";
      RegroupFour(entry, " ", value, rest);
      QuoteStarts(m.entry);
      QuotedReadsBackIff(m.entry, " " + (value + rest));
      ExpectToken(" ", value + rest);
      QuoteNoBreak(m.entry);
      if m.value.Some? {
        QuotedReadsBackIff(m.value.value, rest);
        QuoteNoBreak(m.value.value);
        QuoteStarts(m.value.value);
        assert (value + rest)[0] == QUOTE && "NIL"[0] == 'N';
      } else {
        ExpectToken("NIL", rest);
      }
    }
  }

  lemma LastItem(m: Metadata, index: nat)
    requires CleanItem(m)
    ensures MetadataItem(m, index).Success? && ReadItems(MetadataItem(m, index).value + ")") == Some([m])
  {
    hide ReadItem, MetadataItem, CleanItem;
    ItemReadsBack(m, index, ")");
  }

  lemma OneMoreItem(m: Metadata, index: nat, ms: seq<Metadata>, tail: bytes)
    requires CleanItem(m) && ReadItems(tail) == Some(ms)
    ensures MetadataItem(m, index).Success?
    ensures ReadItems(MetadataItem(m, index).value + (" " + tail)) == Some([m] + ms)
  {
    hide ReadItem, MetadataItem, CleanItem;
    ItemReadsBack(m, index, " " + tail);
    ExpectToken(" ", tail);
  }

  predicate AllClean(ms: seq<Metadata>) {
    forall i :: 0 <= i < |ms| ==> CleanItem(ms[i])
  }

  lemma AllCleanNext(ms: seq<Metadata>)
    requires ms != []
    ensures AllClean(ms) <==> CleanItem(ms[0]) && AllClean(ms[1..])
    ensures ms == [ms[0]] + ms[1..]
  {
  }

  lemma {:induction false} ItemsAccepted(ms: seq<Metadata>, index: nat)
    ensures MetadataItems(ms, index).Success? <==> AllClean(ms)
    ensures AllClean(ms) ==> forall i :: 0 <= i < |ms| ==> NoBreak(MetadataItems(ms, index).value[i])
    decreases |ms|
  {
    if ms != [] {
      AllCleanNext(ms);
      ItemReadsBack(ms[0], index, []);
      ItemsAccepted(ms[1..], index + 1);
    }
  }

  lemma {:induction false} JoinNoBreak(items: seq<bytes>)
    requires forall i :: 0 <= i < |items| ==> NoBreak(items[i])
    ensures NoBreak(Join(items, " "))
  {
    if |items| > 1 {
      JoinNoBreak(items[1..]);
    }
  }

  lemma {:induction false} ItemsReadBack(ms: seq<Metadata>, index: nat)
    requires AllClean(ms) && ms != []
    ensures MetadataItems(ms, index).Success?
    ensures ReadItems(Join(MetadataItems(ms, index).value, " ") + ")") == Some(ms)
    decreases |ms|
  {
    AllCleanNext(ms);
    ItemsAccepted(ms, index);
    hide ReadItems, MetadataItem, AllClean, CleanItem;
    var m, item, later := ms[0], MetadataItem(ms[0], index).value, MetadataItems(ms[1..], index + 1).value;
    JoinCons(item, later, " ");
    if ms[1..] == [] {
      LastItem(m, index);
      assert ms == [m];
    } else {
      ItemsReadBack(ms[1..], index + 1);
      OneMoreItem(m, index, ms[1..], Join(later, " ") + ")");
      RegroupFour(item, " ", Join(later, " "), ")");
    }
  }

  lemma RegroupFour(a: bytes, b: bytes, c: bytes, d: bytes)
    ensures a + b + c + d == a + (b + (c + d))
  {
  }

  lemma ReadMailboxAndList(mailbox: bytes, list: bytes, ms: seq<Metadata>)
    requires NoBreak(mailbox)
    requires if ms == [] then list == ")" else list != ")" && ReadItems(list) == Some(ms)
    ensures ReadSetMetadata("SETMETADATA " + (Quote(mailbox) + (" (" + list))) == Some((mailbox, ms))
  {
    hide ReadItems, ReadQuoted, Quote;
    ExpectToken("SETMETADATA ", Quote(mailbox) + (" (" + list));
    QuotedReadsBackIff(mailbox, " (" + list);
    ExpectToken(" (", list);
  }

  lemma ConcatNoBreak(a: bytes, b: bytes)
    requires NoBreak(a) && NoBreak(b)
    ensures NoBreak(a + b)
  {
  }

  /** An accepted SETMETADATA line decodes to the mailbox and the annotations, values and NILs apart;
      it is accepted exactly if none of them has a line break. */
  lemma SetMetadataReadsBack(mailbox: bytes, annotations: seq<Metadata>)
    ensures SetMetadataCommand(mailbox, annotations).Success? <==> NoBreak(mailbox) && AllClean(annotations)
    ensures SetMetadataCommand(mailbox, annotations).Success? ==>
              var line := SetMetadataCommand(mailbox, annotations).value;
              ReadSetMetadata(line) == Some((mailbox, annotations)) && NoBreak(line)
  {
    ItemsAccepted(annotations, 0);
    if SetMetadataCommand(mailbox, annotations).Success? {
      var items := MetadataItems(annotations, 0).value;
      var list := Join(items, " ") + ")";
      JoinNoBreak(items);
      QuoteNoBreak(mailbox);
      hide ReadItems, ReadSetMetadata, Quote, AllClean, NoBreak;
      if annotations == [] {
        NoItemsNoText();
      } else {
        ItemsReadBack(annotations, 0);
        NotOnlyParenthesis(list, annotations);
      }
      ReadMailboxAndList(mailbox, list, annotations);
      RegroupFour("SETMETADATA ", Quote(mailbox), " (", list);
      SetMetadataNoBreak(mailbox, items);
      assert SetMetadataCommand(mailbox, annotations).value ==
             "SETMETADATA " + Quote(mailbox) + " (" + Join(items, " ") + ")";
      assert "SETMETADATA " + Quote(mailbox) + " (" + Join(items, " ") + ")" ==
             "SETMETADATA " + Quote(mailbox) + " (" + list;
    }
  }

  lemma NotOnlyParenthesis(list: bytes, ms: seq<Metadata>)
    requires ReadItems(list) == Some(ms)
    ensures list != ")"
  {
  }

  lemma SetMetadataNoBreak(mailbox: bytes, items: seq<bytes>)
    requires NoBreak(Quote(mailbox)) && NoBreak(Join(items, " "))
    ensures NoBreak("SETMETADATA " + Quote(mailbox) + " (" + Join(items, " ") + ")")
  {
    ConcatNoBreak("SETMETADATA ", Quote(mailbox));
    ConcatNoBreak("SETMETADATA " + Quote(mailbox), " (");
    ConcatNoBreak("SETMETADATA " + Quote(mailbox) + " (", Join(items, " "));
    ConcatNoBreak("SETMETADATA " + Quote(mailbox) + " (" + Join(items, " "), ")");
  }

  lemma NoItemsNoText()
    ensures MetadataItems([], 0) == Success([]) && Join([], " ") == [] && [] + ")" == ")"
  {
  }

  /** The item that is to blame, and the part of it. */
  predicate Blamed(ms: seq<Metadata>, k: nat, argument: bytes, index: nat) {
    && k < |ms| && AllClean(ms[..k]) && !CleanItem(ms[k])
    && argument == (if NoBreak(ms[k].entry) then "value#" else "entry#") + Decimal(index + k + 1)
  }

  lemma {:induction false} ItemsBlame(ms: seq<Metadata>, index: nat) returns (k: nat)
    requires MetadataItems(ms, index).Failure?
    ensures var e := MetadataItems(ms, index).error;
            e.Validate? && e.synopsis == "SETMETADATA" && Blamed(ms, k, e.argument, index)
    decreases |ms|
  {
    hide MetadataItem, CleanItem, Decimal, Blamed;
    if CleanItem(ms[0]) {
      ItemReadsBack(ms[0], index, []);
      var j := ItemsBlame(ms[1..], index + 1);
      k := j + 1;
      BlamedLater(ms, j, MetadataItems(ms, index).error.argument, index);
    } else {
      k := 0;
      ItemBlames(ms, index);
    }
  }

  lemma ItemBlames(ms: seq<Metadata>, index: nat)
    requires ms != [] && !CleanItem(ms[0])
    ensures MetadataItem(ms[0], index).Failure?
    ensures var e := MetadataItem(ms[0], index).error;
            e.Validate? && e.synopsis == "SETMETADATA" && Blamed(ms, 0, e.argument, index)
  {
    hide Decimal, Quote;
    assert ms[..0] == [];
  }

  lemma BlamedLater(ms: seq<Metadata>, j: nat, argument: bytes, index: nat)
    requires ms != [] && CleanItem(ms[0]) && Blamed(ms[1..], j, argument, index + 1)
    ensures Blamed(ms, j + 1, argument, index)
  {
    hide CleanItem, Decimal;
    var clean := ms[..j + 1];
    forall i | 0 <= i < |clean|
      ensures CleanItem(clean[i])
    {
      if i > 0 {
        assert ms[1..][..j][i - 1] == ms[i];
      }
    }
  }

  /** A refused SETMETADATA names the first entry or value with a line break, numbered from one, and
      the mailbox only after all of them. */
  lemma SetMetadataBlames(mailbox: bytes, annotations: seq<Metadata>) returns (k: nat)
    requires SetMetadataCommand(mailbox, annotations).Failure?
    ensures var e := SetMetadataCommand(mailbox, annotations).error;
            && e.Validate? && e.synopsis == "SETMETADATA"
            && if AllClean(annotations) then e.argument == "mailbox" else Blamed(annotations, k, e.argument, 0)
  {
    hide Blamed;
    k := 0;
    ItemsAccepted(annotations, 0);
    if !AllClean(annotations) {
      k := ItemsBlame(annotations, 0);
    }
  }
}
