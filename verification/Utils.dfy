/** `iter_join` (src/utils.rs). */
module Utils {
  import opened Text

  /** The items, with the delimiter between any two neighbours. */
  function Join(items: seq<bytes>, delim: bytes): bytes {
    if items == [] then []
    else if |items| == 1 then items[0]
    else items[0] + delim + Join(items[1..], delim)
  }

  /** Items written one by one, with a look ahead before each delimiter. */
  method IterJoin(items: seq<bytes>, delim: bytes) returns (s: bytes)
    ensures s == Join(items, delim)
  {
    s := [];
    var i := 0;
    while i < |items|
      invariant i <= |items|
      invariant s + Join(items[i..], delim) == Join(items, delim)
    {
      s := s + items[i];
      assert items[i..][1..] == items[i + 1..];
      if i + 1 < |items| {
        s := s + delim;
      }
      i := i + 1;
    }
  }

  lemma JoinCons(item: bytes, items: seq<bytes>, delim: bytes)
    ensures Join([item] + items, delim) == if items == [] then item else item + delim + Join(items, delim)
  {
    assert ([item] + items)[1..] == items;
  }

  /** The pieces between single spaces. */
  function Split(s: bytes): (pieces: seq<bytes>)
    ensures pieces != []
  {
    if s == [] then [[]]
    else
      var later := Split(s[1..]);
      if s[0] == ' ' then [[]] + later else [[s[0]] + later[0]] + later[1..]
  }

  lemma {:induction false} SplitWord(word: bytes, rest: bytes)
    requires ' ' !in word
    ensures Split(word) == [word]
    ensures Split(word + " " + rest) == [word] + Split(rest)
  {
    if word == [] {
      assert word + " " + rest == [' '] + rest;
      assert ([' '] + rest)[1..] == rest;
    } else {
      SplitWord(word[1..], rest);
      assert (word + " " + rest)[1..] == word[1..] + " " + rest;
      assert word == [word[0]] + word[1..];
    }
  }

  /** A piece of `s`, without spaces. */
  predicate IsPiece(piece: bytes, s: bytes) {
    forall c :: c in piece ==> c in s && c != ' '
  }

  lemma {:induction false} PiecesOf(s: bytes)
    ensures forall i :: 0 <= i < |Split(s)| ==> IsPiece(Split(s)[i], s)
  {
    if s != [] {
      PiecesOf(s[1..]);
      var later := Split(s[1..]);
      forall i | 0 <= i < |Split(s)|
        ensures IsPiece(Split(s)[i], s)
      {
        if s[0] != ' ' {
          assert IsPiece(later[i], s[1..]);
        } else if i > 0 {
          assert IsPiece(later[i - 1], s[1..]);
        }
      }
    }
  }

  /** Splitting what was joined gives the pieces back. */
  lemma {:induction false} SplitJoin(items: seq<bytes>)
    requires items != [] && forall i :: 0 <= i < |items| ==> ' ' !in items[i]
    ensures Split(Join(items, " ")) == items
  {
    if |items| == 1 {
      SplitWord(items[0], []);
      assert items == [items[0]];
    } else {
      SplitJoin(items[1..]);
      SplitWord(items[0], Join(items[1..], " "));
      assert items == [items[0]] + items[1..];
    }
  }

  /** That is so exactly if no item has a space in it. */
  lemma SplitJoinIff(items: seq<bytes>)
    requires items != []
    ensures Split(Join(items, " ")) == items <==> forall i :: 0 <= i < |items| ==> ' ' !in items[i]
  {
    hide Split, Join;
    PiecesOf(Join(items, " "));
    if forall i :: 0 <= i < |items| ==> ' ' !in items[i] {
      SplitJoin(items);
    }
    if Split(Join(items, " ")) == items {
      forall i | 0 <= i < |items|
        ensures ' ' !in items[i]
      {
        assert IsPiece(items[i], Join(items, " "));
      }
    }
  }

  lemma SplitNext(c: char, s: bytes)
    ensures Split([c] + s) == if c == ' ' then [[]] + Split(s) else [[c] + Split(s)[0]] + Split(s)[1..]
  {
    assert ([c] + s)[1..] == s;
  }

  lemma {:induction false} SplitTwo(a: bytes, b: bytes)
    ensures Split(a + " " + b) == Split(a) + Split(b)
  {
    hide Split;
    if a == [] {
      NoPieces();
      SplitNext(' ', b);
      assert a + " " + b == [' '] + b;
    } else {
      SplitTwo(a[1..], b);
      SplitNext(a[0], a[1..] + " " + b);
      SplitNext(a[0], a[1..]);
      assert a + " " + b == [a[0]] + (a[1..] + " " + b);
      assert a == [a[0]] + a[1..];
      PieceInFront(a[0], Split(a[1..]), Split(b));
    }
  }

  lemma NoPieces()
    ensures Split([]) == [[]]
  {
  }

  lemma PieceInFront(c: char, s: seq<bytes>, t: seq<bytes>)
    requires s != []
    ensures [[]] + (s + t) == ([[]] + s) + t
    ensures [[c] + (s + t)[0]] + (s + t)[1..] == ([[c] + s[0]] + s[1..]) + t
  {
    assert (s + t)[1..] == s[1..] + t;
  }
}
