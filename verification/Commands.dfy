/**
 The other command lines, with readers that recover what was passed, whatever it is (src/client.rs,
 src/extensions).
 */
module Commands {
  import opened Wrappers
  import opened Text
  import opened Responses
  import opened Folds
  import opened Utils
  import opened Quoting
  import opened MetadataResponses
  import opened Sessions

  // ------------------------------------------------------------------ Readers

  /** A keyword and a quoted argument, to the end of the line. */
  function ReadOneQuoted(keyword: bytes, line: bytes): Option<bytes> {
    match Expect(keyword, line)
    case None => None
    case Some(s) =>
      match ReadQuoted(s)
      case None => None
      case Some(ReadOff(argument, rest)) => if rest == [] then Some(argument) else None
  }

  /** Up to the first space. */
  function ReadWord(s: bytes): (r: ReadOff<bytes>)
    ensures r.value + r.rest == s
  {
    if s == [] || s[0] == ' ' then ReadOff([], s)
    else
      var r := ReadWord(s[1..]);
      assert [s[0]] + r.value + r.rest == [s[0]] + (r.value + r.rest);
      ReadOff([s[0]] + r.value, r.rest)
  }

  /** A sequence set and the rest of the line. */
  function ReadFetch(line: bytes): Option<(bytes, bytes)> {
    match Expect("FETCH ", line)
    case None => None
    case Some(s) =>
      var ReadOff(seqs, rest) := ReadWord(s);
      match Expect(" ", rest)
      case None => None
      case Some(query) => Some((seqs, query))
  }

  /** A quoted mailbox and the rest of the line. */
  function ReadStatus(line: bytes): Option<(bytes, bytes)> {
    match Expect("STATUS ", line)
    case None => None
    case Some(s) =>
      match ReadQuoted(s)
      case None => None
      case Some(ReadOff(mailbox, rest)) =>
        match Expect(" ", rest)
        case None => None
        case Some(items) => Some((mailbox, items))
  }

  /** A quoted reference, a pattern up to the next space, and the items of the STATUS option. */
  function ReadListStatus(line: bytes): Option<(bytes, bytes, bytes)> {
    match Expect("LIST ", line)
    case None => None
    case Some(s) =>
      match ReadQuoted(s)
      case None => None
      case Some(ReadOff(reference, s)) =>
        match Expect(" ", s)
        case None => None
        case Some(s) =>
          var ReadOff(pattern, s) := ReadWord(s);
          match Expect(" RETURN (STATUS ", s)
          case None => None
          case Some(s) =>
            if s == [] || s[|s| - 1] != ')' then None else Some((reference, pattern, s[..|s| - 1]))
  }

  function ReadDepth(s: bytes): Option<ReadOff<Depth>> {
    if StartsWith(s, "0") then Some(ReadOff(Zero, s[1..]))
    else if StartsWith(s, "1") then Some(ReadOff(One, s[1..]))
    else if StartsWith(s, "infinity") then Some(ReadOff(Infinity, s[8..]))
    else None
  }

  /** Digits up to the closing parenthesis, if there is a limit. */
  function ReadMaxSize(s: bytes): Option<ReadOff<Option<nat>>> {
    match Expect(" MAXSIZE ", s)
    case None => Some(ReadOff(None, s))
    case Some(s) =>
      var digits := ReadDigits(s);
      if digits.value == [] then None else Some(ReadOff(Some(Value(digits.value)), digits.rest))
  }

  function ReadDigits(s: bytes): (r: ReadOff<bytes>)
    ensures AllDigits(r.value)
  {
    if s == [] || !IsDigit(s[0]) then ReadOff([], s)
    else
      var r := ReadDigits(s[1..]);
      ReadOff([s[0]] + r.value, r.rest)
  }

  /** Quoted entries separated by single spaces, up to the parenthesis that ends the line. */
  function ReadEntries(s: bytes): Option<seq<bytes>>
    decreases |s|
  {
    match ReadQuoted(s)
    case None => None
    case Some(ReadOff(entry, s)) =>
      if s == ")" then Some([entry])
      else
        match Expect(" ", s)
        case None => None
        case Some(s) =>
          match ReadEntries(s)
          case None => None
          case Some(entries) => Some([entry] + entries)
  }

  datatype MetadataQuery = MetadataQuery(mailbox: bytes, entries: seq<bytes>, depth: Depth, maxSize: Option<nat>)

  function ReadGetMetadata(line: bytes): Option<MetadataQuery> {
    match Expect("GETMETADATA (DEPTH ", line)
    case None => None
    case Some(s) =>
      match ReadDepth(s)
      case None => None
      case Some(ReadOff(depth, s)) =>
        match ReadMaxSize(s)
        case None => None
        case Some(ReadOff(maxSize, s)) =>
          match Expect(") ", s)
          case None => None
          case Some(s) =>
            match ReadQuoted(s)
            case None => None
            case Some(ReadOff(mailbox, s)) =>
              match Expect(" (", s)
              case None => None
              case Some(s) =>
                if s == ")" then Some(MetadataQuery(mailbox, [], depth, maxSize))
                else
                  match ReadEntries(s)
                  case None => None
                  case Some(entries) => Some(MetadataQuery(mailbox, entries, depth, maxSize))
  }

  // ------------------------------------------------------------------ What they read

  lemma OneQuoted(keyword: bytes, argument: bytes)
    requires NoBreak(argument)
    ensures ReadOneQuoted(keyword, keyword + Quote(argument)) == Some(argument)
  {
    ExpectToken(keyword, Quote(argument));
    QuotedReadsBackIff(argument, []);
    assert Quote(argument) + [] == Quote(argument);
  }

  lemma {:induction false} WordRead(word: bytes, rest: bytes)
    requires ' ' !in word
    ensures ReadWord(word + (" " + rest)) == ReadOff(word, " " + rest)
  {
    var s := word + (" " + rest);
    if word == [] {
      assert s == " " + rest;
    } else {
      assert s[1..] == word[1..] + (" " + rest);
      WordRead(word[1..], rest);
      assert word == [word[0]] + word[1..];
    }
  }

  lemma FetchReadsBack(seqs: bytes, query: bytes)
    requires ' ' !in seqs
    ensures ReadFetch("FETCH " + seqs + " " + query) == Some((seqs, query))
  {
    assert "FETCH " + seqs + " " + query == "FETCH " + (seqs + (" " + query));
    ExpectToken("FETCH ", seqs + (" " + query));
    WordRead(seqs, query);
    ExpectToken(" ", query);
  }

  lemma StatusReadsBack(mailbox: bytes, items: bytes)
    requires NoBreak(mailbox)
    ensures ReadStatus("STATUS " + Quote(mailbox) + " " + items) == Some((mailbox, items))
  {
    hide Quote, ReadQuoted;
    assert "STATUS " + Quote(mailbox) + " " + items == "STATUS " + (Quote(mailbox) + (" " + items));
    ExpectToken("STATUS ", Quote(mailbox) + (" " + items));
    QuotedReadsBackIff(mailbox, " " + items);
    ExpectToken(" ", items);
  }

  lemma ListStatusReadsBack(reference: bytes, pattern: bytes, items: bytes)
    requires NoBreak(reference) && ' ' !in pattern
    ensures ReadListStatus("LIST " + Quote(reference) + " " + pattern + " RETURN (STATUS " + items + ")") ==
            Some((reference, pattern, items))
  {
    hide Quote, ReadQuoted, ReadWord;
    var last := items + ")";
    var rest := " " + (pattern + (" " + ("RETURN (STATUS " + last)));
    ListStatusLine(Quote(reference), pattern, items);
    ExpectToken("LIST ", Quote(reference) + rest);
    QuotedReadsBackIff(reference, rest);
    ExpectToken(" ", pattern + (" " + ("RETURN (STATUS " + last)));
    WordRead(pattern, "RETURN (STATUS " + last);
    ExpectToken(" RETURN (STATUS ", last);
    assert last[..|last| - 1] == items;
  }

  lemma ListStatusLine(reference: bytes, pattern: bytes, items: bytes)
    ensures "LIST " + reference + " " + pattern + " RETURN (STATUS " + items + ")" ==
            "LIST " + (reference + (" " + (pattern + (" " + ("RETURN (STATUS " + (items + ")"))))))
    ensures " " + ("RETURN (STATUS " + (items + ")")) == " RETURN (STATUS " + (items + ")")
  {
  }

  lemma DepthRead(depth: Depth, rest: bytes)
    ensures ReadDepth(DepthText(depth) + rest) == Some(ReadOff(depth, rest))
  {
    var text := DepthText(depth);
    assert (text + rest)[|text|..] == rest;
    assert "0"[0] == '0' && "1"[0] == '1' && "infinity"[0] == 'i';
  }

  lemma {:induction false} DigitsRead(digits: bytes, rest: bytes)
    requires AllDigits(digits) && (rest == [] || !IsDigit(rest[0]))
    ensures ReadDigits(digits + rest) == ReadOff(digits, rest)
  {
    if digits == [] {
      assert digits + rest == rest;
    } else {
      assert (digits + rest)[1..] == digits[1..] + rest;
      DigitsRead(digits[1..], rest);
      assert digits == [digits[0]] + digits[1..];
    }
  }

  function MaxSizeText(maxSize: Option<nat>): bytes {
    match maxSize
    case None => ""
    case Some(size) => " MAXSIZE " + Decimal(size)
  }

  lemma MaxSizeRead(maxSize: Option<nat>, rest: bytes)
    ensures ReadMaxSize(MaxSizeText(maxSize) + (")" + rest)) == Some(ReadOff(maxSize, ")" + rest))
  {
    match maxSize {
      case None =>
        assert [] + (")" + rest) == ")" + rest;
        assert (")" + rest)[0] == ')' && " MAXSIZE "[0] == ' ';
      case Some(size) =>
        var digits := Decimal(size);
        assert " MAXSIZE " + digits + (")" + rest) == " MAXSIZE " + (digits + (")" + rest));
        ExpectToken(" MAXSIZE ", digits + (")" + rest));
        DigitsRead(digits, ")" + rest);
        DecimalReadsBack(size);
    }
  }

  function Quoted(entries: seq<bytes>): (quoted: seq<bytes>)
    ensures |quoted| == |entries|
    ensures forall i :: 0 <= i < |entries| ==> quoted[i] == Quote(entries[i])
  {
    seq(|entries|, i requires 0 <= i < |entries| => Quote(entries[i]))
  }

  lemma {:induction false} EntriesRead(entries: seq<bytes>)
    requires entries != [] && forall i :: 0 <= i < |entries| ==> NoBreak(entries[i])
    ensures ReadEntries(Join(Quoted(entries), " ") + ")") == Some(entries)
  {
    hide ReadQuoted, Quote;
    var entry, later := entries[0], entries[1..];
    assert Quoted(entries) == [Quote(entry)] + Quoted(later);
    JoinCons(Quote(entry), Quoted(later), " ");
    assert entries == [entry] + later;
    if later == [] {
      assert Quoted(later) == [] && entries == [entry];
      assert Quoted(entries) == [Quote(entry)] + [];
      assert Join(Quoted(entries), " ") + ")" == Quote(entry) + ")";
      QuotedReadsBackIff(entry, ")");
    } else {
      var rest := Join(Quoted(later), " ") + ")";
      EntriesRead(later);
      assert Join(Quoted(entries), " ") + ")" == Quote(entry) + (" " + rest);
      QuotedReadsBackIff(entry, " " + rest);
      ExpectToken(" ", rest);
      assert (" " + rest)[0] == ' ' && ")"[0] == ')';
    }
  }

  lemma EntriesNotEmpty(entries: seq<bytes>)
    requires entries != []
    ensures Join(Quoted(entries), " ") + ")" != ")"
  {
    var later := entries[1..];
    assert Quoted(entries) == [Quote(entries[0])] + Quoted(later);
    JoinCons(Quote(entries[0]), Quoted(later), " ");
    assert |Quote(entries[0])| > 0;
  }

  lemma MetadataReadsBack(mailbox: bytes, entries: seq<bytes>, depth: Depth, maxSize: Option<nat>)
    requires NoBreak(mailbox) && forall i :: 0 <= i < |entries| ==> NoBreak(entries[i])
    ensures ReadGetMetadata("GETMETADATA (DEPTH " + DepthText(depth) + MaxSizeText(maxSize) + ") " + Quote(mailbox)
                            + " (" + Join(Quoted(entries), " ") + ")") ==
            Some(MetadataQuery(mailbox, entries, depth, maxSize))
  {
    hide ReadQuoted, Quote, ReadDepth, DepthText, ReadMaxSize, MaxSizeText, ReadEntries, Join;
    var list := Join(Quoted(entries), " ") + ")";
    var s1 := Quote(mailbox) + (" (" + list);
    var s2 := MaxSizeText(maxSize) + (")" + (" " + s1));
    var s3 := DepthText(depth) + s2;
    assert "GETMETADATA (DEPTH " + DepthText(depth) + MaxSizeText(maxSize) + ") " + Quote(mailbox)
           + " (" + Join(Quoted(entries), " ") + ")" == "GETMETADATA (DEPTH " + s3;
    ExpectToken("GETMETADATA (DEPTH ", s3);
    DepthRead(depth, s2);
    MaxSizeRead(maxSize, " " + s1);
    assert ")" + (" " + s1) == ") " + s1;
    ExpectToken(") ", s1);
    QuotedReadsBackIff(mailbox, " (" + list);
    ExpectToken(" (", list);
    if entries == [] {
      assert Join(Quoted(entries), " ") == [] by {
        NothingJoined();
      }
    } else {
      EntriesRead(entries);
      EntriesNotEmpty(entries);
    }
  }

  lemma NothingJoined()
    ensures Join(Quoted([]), " ") == []
  {
  }

  // ------------------------------------------------------------------ Every command

  /** `None` stands for no mailbox, which reads as the empty name. */
  lemma GetMetadataIs(target: Option<bytes>, entries: seq<bytes>, depth: Depth, maxSize: Option<nat>)
    requires GetMetadataCommand(target, entries, depth, maxSize).Success?
    ensures NoBreak(OrElse(target, [])) && forall i :: 0 <= i < |entries| ==> NoBreak(entries[i])
    ensures GetMetadataCommand(target, entries, depth, maxSize).value ==
            "GETMETADATA (DEPTH " + DepthText(depth) + MaxSizeText(maxSize) + ") " + Quote(OrElse(target, []))
            + " (" + Join(Quoted(entries), " ") + ")"
  {
    hide Join, DepthText, Decimal;
    EmptyQuoted();
    assert QuotedEntries(entries, 0).value == Quoted(entries);
  }

  lemma EmptyQuoted()
    ensures Quote([]) == "\"\""
  {
  }

  /** What a server reads off the command line of each operation is what was passed to it. A pattern
      is not quoted, so it must not have a space in it. For APPEND see `AppendLines`. */
  lemma CommandReadsBack(op: Op)
    requires CommandOf(op).Success?
    ensures var line := CommandOf(op).value;
            match op
            case Noop => line == "NOOP"
            case SearchFor(query) => Expect("SEARCH ", line) == Some(query)
            case FetchMessages(seqs, query) => ReadFetch(line) == Some((seqs, query))
            case SelectMailbox(mailbox) => ReadOneQuoted("SELECT ", line) == Some(mailbox)
            case StatusOfMailbox(mailbox, items) => ReadStatus(line) == Some((mailbox, items))
            case ExpungeMessages => line == "EXPUNGE"
            case AppendMessage(args) => true
            case GetMetadata(target, entries, depth, maxSize) =>
              ReadGetMetadata(line) == Some(MetadataQuery(OrElse(target, ""), entries, depth, maxSize))
            case ListWithStatus(reference, pattern, items) =>
              ' ' !in OrElse(pattern, []) ==>
                ReadListStatus(line) == Some((OrElse(reference, ""), OrElse(pattern, "\"\""), items))
            case GetQuotaRoot(mailbox) => ReadOneQuoted("GETQUOTAROOT ", line) == Some(mailbox)
  {
    hide ReadGetMetadata, ReadFetch, ReadStatus, ReadListStatus, ReadOneQuoted, GetMetadataCommand, Quote, Join, Decimal;
    match op {
      case SearchFor(query) => ExpectToken("SEARCH ", query);
      case FetchMessages(seqs, query) => FetchReadsBack(seqs, query);
      case SelectMailbox(mailbox) => OneQuoted("SELECT ", mailbox);
      case StatusOfMailbox(mailbox, items) => StatusReadsBack(mailbox, items);
      case GetMetadata(target, entries, depth, maxSize) =>
        GetMetadataIs(target, entries, depth, maxSize);
        MetadataReadsBack(OrElse(target, []), entries, depth, maxSize);
      case ListWithStatus(reference, pattern, items) =>
        if ' ' !in OrElse(pattern, []) {
          ListStatusReadsBack(OrElse(reference, ""), OrElse(pattern, "\"\""), items);
        }
      case GetQuotaRoot(mailbox) => OneQuoted("GETQUOTAROOT ", mailbox);
      case _ =>
    }
  }

  predicate HasBreak(s: bytes) {
    '\r' in s || '\n' in s
  }

  /** Which operations are refused before anything is written: exactly those with a line break in an
      argument that is checked, or with white space in a sequence set. */
  lemma CommandRefusedIff(op: Op)
    ensures CommandOf(op).Failure? <==>
            match op
            case FetchMessages(seqs, query) =>
              ' ' in seqs || '\t' in seqs || '\n' in seqs || '\U{0C}' in seqs || '\r' in seqs || HasBreak(query)
            case SelectMailbox(mailbox) => HasBreak(mailbox)
            case StatusOfMailbox(mailbox, _) => HasBreak(mailbox)
            case GetMetadata(target, entries, _, _) =>
              (target.Some? && HasBreak(target.value)) || exists e :: e in entries && HasBreak(e)
            case ListWithStatus(reference, _, _) => reference.Some? && HasBreak(reference.value)
            case GetQuotaRoot(mailbox) => HasBreak(mailbox)
            case _ => false
  {
    hide Quote, Join, Decimal, NoBreak, HasBreak;
    match op {
      case FetchMessages(seqs, query) =>
        BreaksAre(query);
        SpacesAre(seqs);
      case SelectMailbox(mailbox) => BreaksAre(mailbox);
      case StatusOfMailbox(mailbox, _) => BreaksAre(mailbox);
      case GetMetadata(target, entries, depth, maxSize) =>
        BreaksAre(OrElse(target, []));
        forall i | 0 <= i < |entries|
          ensures NoBreak(entries[i]) <==> !HasBreak(entries[i])
        {
          BreaksAre(entries[i]);
        }
        assert (exists e :: e in entries && HasBreak(e)) <==> exists i :: 0 <= i < |entries| && !NoBreak(entries[i]);
      case ListWithStatus(reference, _, _) =>
        BreaksAre(OrElse(reference, ""));
        BreaksAre("");
        NoBreakInNothing();
      case GetQuotaRoot(mailbox) => BreaksAre(mailbox);
      case _ =>
    }
  }

  lemma BreaksAre(s: bytes)
    ensures NoBreak(s) <==> !HasBreak(s)
  {
  }

  lemma NoBreakInNothing()
    ensures NoBreak("") && !HasBreak("")
  {
  }

  lemma SpacesAre(s: bytes)
    ensures (forall i :: 0 <= i < |s| ==> !IsWhitespace(s[i])) <==>
            !(' ' in s || '\t' in s || '\n' in s || '\U{0C}' in s || '\r' in s)
  {
  }

  lemma {:induction false} EntriesBlame(entries: seq<bytes>, index: nat) returns (k: nat)
    requires QuotedEntries(entries, index).Failure?
    ensures var e := QuotedEntries(entries, index).error;
            && k < |entries| && HasBreak(entries[k]) && (forall j :: 0 <= j < k ==> !HasBreak(entries[j]))
            && e.Validate? && e.synopsis == "GETMETADATA" && e.argument == "entry#" + Decimal(index + k + 1)
    decreases |entries|
  {
    hide HasBreak, NoBreak;
    BreaksAre(entries[0]);
    if NoBreak(entries[0]) {
      var j := EntriesBlame(entries[1..], index + 1);
      k := j + 1;
      assert forall i :: 0 < i < |entries| ==> entries[i] == entries[1..][i - 1];
    } else {
      k := 0;
    }
  }

  /** A refused command names the argument at fault; FETCH looks at the set first, GETMETADATA at the
      entries, numbered from one. */
  lemma CommandBlames(op: Op)
    requires CommandOf(op).Failure?
    ensures var e := CommandOf(op).error;
            && e.Validate?
            && match op
               case FetchMessages(seqs, _) =>
                 e.synopsis == "FETCH" && e.argument == (if exists c :: c in seqs && IsWhitespace(c) then "seq" else "query")
               case SelectMailbox(_) => e.synopsis == "SELECT" && e.argument == "mailbox"
               case StatusOfMailbox(_, _) => e.synopsis == "STATUS" && e.argument == "mailbox"
               case GetMetadata(_, entries, _, _) =>
                 && e.synopsis == "GETMETADATA"
                 && if forall i :: 0 <= i < |entries| ==> NoBreak(entries[i]) then e.argument == "mailbox"
                    else exists k :: 0 <= k < |entries| && HasBreak(entries[k]) && e.argument == "entry#" + Decimal(k + 1)
               case ListWithStatus(_, _, _) => e.synopsis == "LIST-STATUS" && e.argument == "reference"
               case GetQuotaRoot(_) => e.synopsis == "GETQUOTAROOT" && e.argument == "mailbox"
               case _ => true
  {
    hide Quote, Join, Decimal, NoBreak, HasBreak;
    match op {
      case GetMetadata(target, entries, depth, maxSize) =>
        if QuotedEntries(entries, 0).Failure? {
          var k := EntriesBlame(entries, 0);
        }
      case _ =>
    }
  }
}
