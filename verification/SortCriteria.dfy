/** Sort criteria as text (src/extensions/sort.rs; section 3 of RFC 5256), with a reader that recovers them. */
module SortCriteria {
  import opened Wrappers
  import opened Sequences
  import opened Text
  import opened Utils

  datatype SortCriterion = Arrival | Cc | Date | From | Reverse(of: SortCriterion) | Size | Subject | To

  /** `Display for SortCriterion`. */
  function CriterionText(c: SortCriterion): bytes {
    match c
    case Arrival => "ARRIVAL"
    case Cc => "CC"
    case Date => "DATE"
    case From => "FROM"
    case Reverse(d) => "REVERSE " + CriterionText(d)
    case Size => "SIZE"
    case Subject => "SUBJECT"
    case To => "TO"
  }

  function CriterionTexts(cs: seq<SortCriterion>): (texts: seq<bytes>)
    ensures |texts| == |cs|
  {
    if cs == [] then [] else [CriterionText(cs[0])] + CriterionTexts(cs[1..])
  }

  /** `Display for SortCriteria`. */
  function CriteriaText(cs: seq<SortCriterion>): bytes {
    if cs == [] then "" else "(" + Join(CriterionTexts(cs), " ") + ")"
  }

  // ------------------------------------------------------------------ Reading it back

  function Keyword(word: bytes): Option<SortCriterion> {
    if word == "ARRIVAL" then Some(Arrival)
    else if word == "CC" then Some(Cc)
    else if word == "DATE" then Some(Date)
    else if word == "FROM" then Some(From)
    else if word == "SIZE" then Some(Size)
    else if word == "SUBJECT" then Some(Subject)
    else if word == "TO" then Some(To)
    else None
  }

  /** REVERSE applies to the criterion that follows. */
  function ReadWords(words: seq<bytes>): Option<seq<SortCriterion>> {
    if words == [] then Some([])
    else
      match ReadWords(words[1..])
      case None => None
      case Some(later) =>
        if words[0] == "REVERSE" then
          if later == [] then None else Some([Reverse(later[0])] + later[1..])
        else
          match Keyword(words[0])
          case None => None
          case Some(c) => Some([c] + later)
  }

  function ReadCriteria(s: bytes): Option<seq<SortCriterion>> {
    if s == [] then Some([])
    else if |s| < 2 || s[0] != '(' || s[|s| - 1] != ')' then None
    else ReadWords(Utils.Split(s[1..|s| - 1]))
  }

  function WordsOf(c: SortCriterion): (words: seq<bytes>)
    ensures words != []
  {
    if c.Reverse? then ["REVERSE"] + WordsOf(c.of) else [CriterionText(c)]
  }

  function AllWords(cs: seq<SortCriterion>): seq<bytes> {
    if cs == [] then [] else WordsOf(cs[0]) + AllWords(cs[1..])
  }

  lemma KeywordReadsBack(c: SortCriterion)
    requires !c.Reverse?
    ensures ' ' !in CriterionText(c) && CriterionText(c) != "REVERSE"
    ensures Keyword(CriterionText(c)) == Some(c)
  {
  }

  lemma {:induction false} WordsReadBack(c: SortCriterion, words: seq<bytes>, later: seq<SortCriterion>)
    requires ReadWords(words) == Some(later)
    ensures ReadWords(WordsOf(c) + words) == Some([c] + later)
  {
    var all := WordsOf(c) + words;
    if c.Reverse? {
      WordsReadBack(c.of, words, later);
      assert all[1..] == WordsOf(c.of) + words;
    } else {
      KeywordReadsBack(c);
      assert all[1..] == words;
    }
  }

  lemma {:induction false} AllWordsReadBack(cs: seq<SortCriterion>)
    ensures ReadWords(AllWords(cs)) == Some(cs)
  {
    if cs != [] {
      AllWordsReadBack(cs[1..]);
      WordsReadBack(cs[0], AllWords(cs[1..]), cs[1..]);
      assert cs == [cs[0]] + cs[1..];
    }
  }

  lemma SplitReverse(of: bytes, rest: bytes)
    ensures Split("REVERSE " + of) == ["REVERSE"] + Split(of)
    ensures Split("REVERSE " + of + " " + rest) == ["REVERSE"] + Split(of + " " + rest)
  {
    hide Split;
    SplitWord("REVERSE", of);
    SplitWord("REVERSE", of + " " + rest);
    assert "REVERSE " + of == "REVERSE" + " " + of;
    assert "REVERSE " + of + " " + rest == "REVERSE" + " " + (of + " " + rest);
  }

  lemma {:induction false} SplitCriterion(c: SortCriterion, rest: bytes)
    ensures Split(CriterionText(c)) == WordsOf(c)
    ensures Split(CriterionText(c) + " " + rest) == WordsOf(c) + Split(rest)
  {
    if c.Reverse? {
      ReverseText(c);
      hide *;
      SplitCriterion(c.of, rest);
      SplitReverse(CriterionText(c.of), rest);
      Associative(["REVERSE"], WordsOf(c.of), Split(rest));
    } else {
      KeywordReadsBack(c);
      hide *;
      SplitWord(CriterionText(c), rest);
      PlainWord(c);
    }
  }

  lemma PlainWord(c: SortCriterion)
    requires !c.Reverse?
    ensures WordsOf(c) == [CriterionText(c)]
  {
  }

  lemma ReverseText(c: SortCriterion)
    requires c.Reverse?
    ensures CriterionText(c) == "REVERSE " + CriterionText(c.of)
    ensures WordsOf(c) == ["REVERSE"] + WordsOf(c.of)
  {
  }

  lemma {:induction false} SplitCriteria(cs: seq<SortCriterion>)
    requires cs != []
    ensures Split(Join(CriterionTexts(cs), " ")) == AllWords(cs)
  {
    var later := CriterionTexts(cs[1..]);
    JoinCons(CriterionText(cs[0]), later, " ");
    SplitCriterion(cs[0], Join(later, " "));
    if |cs| > 1 {
      SplitCriteria(cs[1..]);
    } else {
      assert AllWords(cs) == WordsOf(cs[0]) + [];
    }
  }

  /** Whatever is nested in `Reverse`, the list can be read off its text. */
  lemma CriteriaReadBack(cs: seq<SortCriterion>)
    ensures ReadCriteria(CriteriaText(cs)) == Some(cs)
  {
    if cs != [] {
      var text := CriteriaText(cs);
      assert text[1..|text| - 1] == Join(CriterionTexts(cs), " ");
      SplitCriteria(cs);
      AllWordsReadBack(cs);
    }
  }

  /** Different lists never print to the same text. */
  lemma PrintingIsInjective(a: seq<SortCriterion>, b: seq<SortCriterion>)
    ensures CriteriaText(a) == CriteriaText(b) <==> a == b
  {
    CriteriaReadBack(a);
    CriteriaReadBack(b);
  }
}
