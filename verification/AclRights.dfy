/**
 Sets of access rights as text (src/types/acls.rs; section 2.1 of RFC 4314). The conversions
 between a right and its letter are foreign; what is needed of them is that the right of a letter
 has that letter.
 */
module AclRights {
  import opened Wrappers
  import opened Text

  datatype AclRightError = InvalidRight

  predicate IsRightLetter(c: char) {
    'a' <= c <= 'z' || '0' <= c <= '9'
  }

  predicate RightLetters(s: bytes) {
    forall i :: 0 <= i < |s| ==> IsRightLetter(s[i])
  }

  function LettersOf(s: bytes): set<char> {
    set c | c in s
  }

  ghost predicate Letters<R(!new)>(of: char -> R, text: R -> char) {
    forall c :: text(of(c)) == c
  }

  /** `TryFrom<&str>`. */
  function ParseRights<R>(of: char -> R, input: bytes): Result<set<R>, AclRightError> {
    if !RightLetters(input) then Failure(InvalidRight) else Success(set c | c in input :: of(c))
  }

  /** Accepted are exactly strings of ASCII lower-case letters and digits, by their codes. */
  lemma RightsAcceptedIff<R>(of: char -> R, input: bytes)
    ensures ParseRights(of, input).Success? <==>
            forall i :: 0 <= i < |input| ==> 97 <= input[i] as int <= 122 || 48 <= input[i] as int <= 57
    ensures ParseRights(of, input).Success? ==>
              forall r :: r in ParseRights(of, input).value <==> exists i :: 0 <= i < |input| && of(input[i]) == r
  {
    if ParseRights(of, input).Success? {
      forall i | 0 <= i < |input|
        ensures of(input[i]) in ParseRights(of, input).value
      {
        assert input[i] in input;
      }
    }
  }

  // ------------------------------------------------------------------ Sorting

  predicate Ascending(s: seq<char>) {
    forall i, j :: 0 <= i < j < |s| ==> s[i] <= s[j]
  }

  predicate StrictlyAscending(s: seq<char>) {
    forall i, j :: 0 <= i < j < |s| ==> s[i] < s[j]
  }

  function Insert(c: char, s: seq<char>): seq<char> {
    if s == [] || c <= s[0] then [c] + s else [s[0]] + Insert(c, s[1..])
  }

  /** `sort_unstable`, of which any implementation gives this result. */
  function Sort(s: seq<char>): seq<char> {
    if s == [] then [] else Insert(s[0], Sort(s[1..]))
  }

  lemma {:induction false} InsertCounts(c: char, s: seq<char>)
    ensures multiset(Insert(c, s)) == multiset{c} + multiset(s)
  {
    if s != [] && c > s[0] {
      InsertCounts(c, s[1..]);
      assert s == [s[0]] + s[1..];
    }
  }

  lemma LeastInFront(least: char, s: seq<char>)
    requires Ascending(s) && forall c :: c in s ==> least <= c
    ensures Ascending([least] + s)
  {
    forall i, j | 0 <= i < j < |[least] + s|
      ensures ([least] + s)[i] <= ([least] + s)[j]
    {
      assert s[j - 1] in s;
    }
  }

  lemma {:induction false} InsertKeeps(c: char, s: seq<char>)
    requires Ascending(s)
    ensures Ascending(Insert(c, s))
  {
    if s == [] || c <= s[0] {
      LeastInFront(c, s);
    } else {
      InsertKeeps(c, s[1..]);
      InsertCounts(c, s[1..]);
      forall d | d in Insert(c, s[1..])
        ensures s[0] <= d
      {
        assert d in multiset(Insert(c, s[1..]));
        assert d == c || d in s[1..];
      }
      LeastInFront(s[0], Insert(c, s[1..]));
    }
  }

  lemma {:induction false} SortKeeps(s: seq<char>)
    ensures Ascending(Sort(s)) && multiset(Sort(s)) == multiset(s)
  {
    if s != [] {
      SortKeeps(s[1..]);
      InsertKeeps(s[0], Sort(s[1..]));
      InsertCounts(s[0], Sort(s[1..]));
      assert s == [s[0]] + s[1..];
    }
  }

  lemma WithoutFirst<A>(s: seq<A>)
    requires s != []
    ensures s[0] in multiset(s) && multiset(s[1..]) == multiset(s) - multiset{s[0]}
  {
    assert s == [s[0]] + s[1..];
  }

  lemma LeastFirst(s: seq<char>, c: char)
    requires Ascending(s) && c in multiset(s)
    ensures s != [] && s[0] <= c && Ascending(s[1..])
  {
    assert c in s;
  }

  lemma SameFirst(a: seq<char>, b: seq<char>)
    requires Ascending(a) && Ascending(b) && multiset(a) == multiset(b) && a != []
    ensures b != [] && a[0] == b[0] && Ascending(a[1..]) && Ascending(b[1..])
  {
    assert a[0] in multiset(a);
    LeastFirst(b, a[0]);
    assert b[0] in multiset(b);
    LeastFirst(a, b[0]);
  }

  /** There is only one way to sort. */
  lemma {:induction false} SortedUnique(a: seq<char>, b: seq<char>)
    requires Ascending(a) && Ascending(b) && multiset(a) == multiset(b)
    ensures a == b
  {
    if a == [] {
      assert |multiset(b)| == 0;
    } else {
      SameFirst(a, b);
      assert multiset(a[1..]) == multiset(b[1..]) by {
        WithoutFirst(a);
        WithoutFirst(b);
      }
      hide Ascending;
      SortedUnique(a[1..], b[1..]);
      assert a == [a[0]] + a[1..] && b == [b[0]] + b[1..];
    }
  }

  // ------------------------------------------------------------------ Printing

  /** An order in which a hash set may be iterated over. */
  ghost predicate IsOrder<R(!new)>(order: seq<R>, rights: set<R>) {
    && (forall i, j :: 0 <= i < j < |order| ==> order[i] != order[j])
    && (forall r :: r in order <==> r in rights)
  }

  function Texts<R>(text: R -> char, order: seq<R>): (s: bytes)
    ensures |s| == |order|
    ensures forall i :: 0 <= i < |s| ==> s[i] == text(order[i])
  {
    seq(|order|, i requires 0 <= i < |order| => text(order[i]))
  }

  /** What is printed of a set that is iterated over in this order. */
  function Printed<R>(text: R -> char, order: seq<R>): bytes {
    Sort(Texts(text, order))
  }

  /** `Display`: the rights are collected in whatever order, and sorted. */
  method Display<R(!new, ==)>(data: set<R>, text: R -> char) returns (s: bytes)
    ensures exists order :: IsOrder(order, data)
    ensures forall order :: IsOrder(order, data) ==> s == Printed(text, order)
  {
    var v: seq<char> := [];
    var left := data;
    ghost var order: seq<R> := [];
    while left != {}
      invariant left <= data && IsOrder(order, data - left)
      invariant v == Texts(text, order)
      decreases |left|
    {
      var r :| r in left;
      ghost var was := left;
      left := left - {r};
      v := v + [text(r)];
      order := order + [r];
      assert forall x :: x in order <==> x in data - left by {
        assert order[|order| - 1] == r;
        assert data - left == (data - was) + {r};
      }
    }
    assert data - left == data;
    s := Sort(v);
    forall other | IsOrder(other, data)
      ensures s == Printed(text, other)
    {
      OrderIrrelevant(text, order, other, data);
    }
  }

  lemma OrderCounts<R(!new)>(a: seq<R>, b: seq<R>, rights: set<R>)
    requires IsOrder(a, rights) && IsOrder(b, rights)
    ensures multiset(a) == multiset(b)
  {
    forall r
      ensures multiset(a)[r] == multiset(b)[r]
    {
      CountedOnce(a, r);
      CountedOnce(b, r);
      assert r in a <==> r in b;
    }
  }

  lemma {:induction false} CountedOnce<R>(a: seq<R>, r: R)
    requires forall i, j :: 0 <= i < j < |a| ==> a[i] != a[j]
    ensures multiset(a)[r] == if r in a then 1 else 0
  {
    if a != [] {
      CountedOnce(a[1..], r);
      assert a == [a[0]] + a[1..];
    }
  }

  function Without<A>(s: seq<A>, i: nat): seq<A>
    requires i < |s|
  {
    s[..i] + s[i + 1..]
  }

  lemma WithoutCounts<A>(s: seq<A>, i: nat)
    requires i < |s|
    ensures multiset(s) == multiset(Without(s, i)) + multiset{s[i]}
    ensures multiset(Without(s, i)) == multiset(s) - multiset{s[i]}
  {
    assert s == s[..i] + [s[i]] + s[i + 1..];
  }

  lemma TextsWithout<R>(text: R -> char, s: seq<R>, i: nat)
    requires i < |s|
    ensures Texts(text, Without(s, i)) == Without(Texts(text, s), i)
  {
  }

  lemma {:induction false} TextsPermute<R>(text: R -> char, a: seq<R>, b: seq<R>)
    requires multiset(a) == multiset(b)
    ensures multiset(Texts(text, a)) == multiset(Texts(text, b))
    decreases |a|
  {
    if a == [] {
      assert |multiset(b)| == 0;
    } else {
      assert a[0] in multiset(a) && a[0] in b;
      var i :| 0 <= i < |b| && b[i] == a[0];
      var a', b' := Without(a, 0), Without(b, i);
      assert multiset(a') == multiset(b') by {
        WithoutCounts(a, 0);
        WithoutCounts(b, i);
      }
      assert |a'| < |a|;
      hide Without;
      TextsWithout(text, a, 0);
      TextsWithout(text, b, i);
      TextsPermute(text, a', b');
      WithoutCounts(Texts(text, a), 0);
      WithoutCounts(Texts(text, b), i);
    }
  }

  /** The order of iteration makes no difference. */
  lemma OrderIrrelevant<R(!new)>(text: R -> char, a: seq<R>, b: seq<R>, rights: set<R>)
    requires IsOrder(a, rights) && IsOrder(b, rights)
    ensures Printed(text, a) == Printed(text, b)
  {
    OrderCounts(a, b, rights);
    TextsPermute(text, a, b);
    SortKeeps(Texts(text, a));
    SortKeeps(Texts(text, b));
    SortedUnique(Printed(text, a), Printed(text, b));
  }

  // ------------------------------------------------------------------ The canonical form

  /** Exactly the letters of the rights are printed. */
  lemma PrintedHas<R(!new)>(text: R -> char, rights: set<R>, order: seq<R>)
    requires IsOrder(order, rights)
    ensures forall c :: c in Printed(text, order) <==> exists r :: r in rights && text(r) == c
  {
    var v, s := Texts(text, order), Printed(text, order);
    SortKeeps(v);
    forall c
      ensures c in s <==> exists r :: r in rights && text(r) == c
    {
      assert c in s <==> c in multiset(s) <==> c in multiset(v) <==> c in v;
      if c in v {
        var i :| 0 <= i < |v| && v[i] == c;
        assert order[i] in rights;
      }
      if r :| r in rights && text(r) == c {
        var i :| 0 <= i < |order| && order[i] == r;
        assert v[i] == c;
      }
    }
  }

  /** If no two rights have the same letter, the letters come out once each, in order. */
  lemma PrintedStrictly<R(!new)>(text: R -> char, order: seq<R>, rights: set<R>)
    requires IsOrder(order, rights)
    requires forall r, s :: r in rights && s in rights && text(r) == text(s) ==> r == s
    ensures StrictlyAscending(Printed(text, order))
    ensures forall c :: c in Printed(text, order) <==> exists r :: r in rights && text(r) == c
  {
    var v, s := Texts(text, order), Printed(text, order);
    SortKeeps(v);
    forall i, j | 0 <= i < j < |v|
      ensures v[i] != v[j]
    {
      assert order[i] in rights && order[j] in rights;
    }
    forall i, j | 0 <= i < j < |s|
      ensures s[i] < s[j]
    {
      CountedOnce(v, s[i]);
      if s[i] == s[j] {
        TwoOccurrences(s, i, j);
      }
    }
    PrintedHas(text, rights, order);
  }

  lemma TwoOccurrences(s: seq<char>, i: nat, j: nat)
    requires i < j < |s| && s[i] == s[j]
    ensures multiset(s)[s[i]] >= 2
  {
    assert s == s[..j] + [s[j]] + s[j + 1..];
    assert s[i] in s[..j];
  }

  lemma NoLetters(s: seq<char>)
    ensures LettersOf(s) == {} <==> s == []
  {
    if s != [] {
      assert s[0] in LettersOf(s);
    }
  }

  lemma {:induction false} StrictlyUnique(a: seq<char>, b: seq<char>)
    requires StrictlyAscending(a) && StrictlyAscending(b) && LettersOf(a) == LettersOf(b)
    ensures a == b
  {
    if a == [] {
      NoLetters(b);
    } else {
      assert a[0] in LettersOf(b);
      assert b != [] && b[0] in LettersOf(a);
      assert a[0] == b[0];
      assert LettersOf(a[1..]) == LettersOf(a) - {a[0]};
      assert LettersOf(b[1..]) == LettersOf(b) - {b[0]};
      StrictlyUnique(a[1..], b[1..]);
    }
  }

  /** Parsing and printing a string of letters and digits gives its distinct characters in
      ascending order, however the set is iterated over. */
  lemma CanonicalForm<R(!new)>(of: char -> R, text: R -> char, input: bytes, order: seq<R>)
    requires Letters(of, text)
    requires RightLetters(input) && IsOrder(order, ParseRights(of, input).value)
    ensures StrictlyAscending(Printed(text, order)) && LettersOf(Printed(text, order)) == LettersOf(input)
  {
    var rights := ParseRights(of, input).value;
    forall r, s | r in rights && s in rights && text(r) == text(s)
      ensures r == s
    {
      var c :| c in input && r == of(c);
      var d :| d in input && s == of(d);
      assert text(of(c)) == c && text(of(d)) == d;
    }
    PrintedStrictly(text, order, rights);
    forall c
      ensures c in LettersOf(input) <==> c in LettersOf(Printed(text, order))
    {
      assert text(of(c)) == c;
      if c in input {
        assert of(c) in rights;
      }
      if r :| r in rights && text(r) == c {
        var d :| d in input && r == of(d);
        assert text(of(d)) == d;
      }
    }
  }

  /** Two strings print equal exactly if they have the same characters. */
  lemma PrintEqualIff<R(!new)>(of: char -> R, text: R -> char, x: bytes, y: bytes, a: seq<R>, b: seq<R>)
    requires Letters(of, text) && RightLetters(x) && RightLetters(y)
    requires IsOrder(a, ParseRights(of, x).value) && IsOrder(b, ParseRights(of, y).value)
    ensures Printed(text, a) == Printed(text, b) <==> LettersOf(x) == LettersOf(y)
  {
    CanonicalForm(of, text, x, a);
    CanonicalForm(of, text, y, b);
    if LettersOf(x) == LettersOf(y) {
      StrictlyUnique(Printed(text, a), Printed(text, b));
    }
  }

  /** Printing and parsing gives the set back exactly if every right in it is that of a letter
      or digit; a right that only shares the letter of another one is lost. */
  lemma PrintThenParseIff<R(!new)>(of: char -> R, text: R -> char, rights: set<R>, order: seq<R>)
    requires Letters(of, text) && IsOrder(order, rights)
    ensures ParseRights(of, Printed(text, order)) == Success(rights) <==>
            forall r :: r in rights ==> IsRightLetter(text(r)) && r == of(text(r))
  {
    var s := Printed(text, order);
    SortKeeps(Texts(text, order));
    PrintedHas(text, rights, order);
    if ParseRights(of, s) == Success(rights) {
      forall r | r in rights
        ensures IsRightLetter(text(r)) && r == of(text(r))
      {
        var c :| c in s && r == of(c);
        assert text(of(c)) == c;
      }
    }
    if forall r :: r in rights ==> IsRightLetter(text(r)) && r == of(text(r)) {
      forall i | 0 <= i < |s|
        ensures IsRightLetter(s[i])
      {
        assert s[i] in s;
      }
      var parsed := set c | c in s :: of(c);
      forall r
        ensures r in parsed <==> r in rights
      {
        if r in rights {
          assert text(r) in s;
        }
      }
      assert parsed == rights;
    }
  }
}
