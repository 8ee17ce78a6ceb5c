/** The type of lawful response parsers, and splitting a buffer into its responses. */
module Parsing {
  import opened Text
  import opened Responses
  import opened ParserLaws
  import SmallGrammar

  type Parser = p: bytes -> Parsed | Lawful(p)
    ghost witness (SmallGrammar.SmallGrammarIsLawful(); SmallGrammar.ParseResponse)

  function ParseResponse(p: Parser, x: bytes): (r: Parsed)
    ensures r.Complete? ==> 0 < r.length <= |x|
  {
    assert Cut(x, |x|);
    p(x)
  }

  lemma EndsAtLf(p: Parser, x: bytes)
    requires ParseResponse(p, x).Complete?
    ensures x[ParseResponse(p, x).length - 1] == LF
  {
    assert Cut(x, |x|);
  }

  /** The verdict on a prefix, as far as it is one, is the verdict on the whole. */
  lemma Extend(p: Parser, a: bytes, b: bytes)
    ensures !ParseResponse(p, a).Incomplete? ==> ParseResponse(p, a + b) == ParseResponse(p, a)
    ensures ParseResponse(p, a + b).Complete? && ParseResponse(p, a + b).length <= |a| ==> ParseResponse(p, a) == ParseResponse(p, a + b)
  {
    assert Cut(a + b, |a|);
    assert (a + b)[..|a|] == a;
  }

  /** The responses a buffer starts with, and what is left when no further one can be taken off. */
  datatype Split = Split(responses: seq<Response>, tail: bytes)

  function SplitAll(p: Parser, x: bytes): (s: Split)
    ensures |s.tail| <= |x|
    decreases |x|
  {
    if x == [] then Split([], [])
    else
      match ParseResponse(p, x)
      case Complete(n, r) =>
        var s := SplitAll(p, x[n..]);
        Split([r] + s.responses, s.tail)
      case _ => Split([], x)
  }

  /** `x` is nothing but complete responses. */
  predicate Whole(p: Parser, x: bytes) {
    SplitAll(p, x).tail == []
  }

  function ResponsesOf(p: Parser, x: bytes): seq<Response> {
    SplitAll(p, x).responses
  }

  lemma {:induction false} SplitAppend(p: Parser, a: bytes, b: bytes)
    requires Whole(p, a)
    ensures SplitAll(p, a + b) == Split(ResponsesOf(p, a) + ResponsesOf(p, b), SplitAll(p, b).tail)
    decreases |a|
  {
    if a == [] {
      assert a + b == b;
    } else {
      Extend(p, a, b);
      var n := ParseResponse(p, a).length;
      assert (a + b)[n..] == a[n..] + b;
      SplitAppend(p, a[n..], b);
    }
  }

  lemma {:induction false} SplitTail(p: Parser, x: bytes)
    ensures var tail := SplitAll(p, x).tail;
            x[|x| - |tail|..] == tail
    decreases |x|
  {
    if x != [] && ParseResponse(p, x).Complete? {
      var n := ParseResponse(p, x).length;
      SplitTail(p, x[n..]);
      assert x[n..][|x| - n - |SplitAll(p, x[n..]).tail|..] == x[|x| - |SplitAll(p, x).tail|..];
    }
  }

  /** One complete response on its own. */
  lemma SplitOne(p: Parser, x: bytes)
    requires ParseResponse(p, x).Complete? && ParseResponse(p, x).length == |x|
    ensures SplitAll(p, x) == Split([ParseResponse(p, x).response], [])
  {
    assert x[|x|..] == [];
  }

  /** Taking the first response off a buffer that is cut at `m`. */
  lemma Peel(p: Parser, x: bytes, m: nat)
    requires ParseResponse(p, x).Complete? && ParseResponse(p, x).length <= m <= |x|
    ensures var n := ParseResponse(p, x).length;
            && ParseResponse(p, x[..m]) == ParseResponse(p, x)
            && SplitAll(p, x[..m]) ==
               Split([ParseResponse(p, x).response] + ResponsesOf(p, x[n..m]), SplitAll(p, x[n..m]).tail)
  {
    var n := ParseResponse(p, x).length;
    assert x[..m] + x[m..] == x;
    Extend(p, x[..m], x[m..]);
    assert x[..m][n..] == x[n..m];
  }

  lemma SplitLast(p: Parser, a: bytes, b: bytes)
    requires Whole(p, a) && ParseResponse(p, b).Complete? && ParseResponse(p, b).length == |b|
    ensures SplitAll(p, a + b) == Split(ResponsesOf(p, a) + [ParseResponse(p, b).response], [])
  {
    SplitAppend(p, a, b);
    SplitOne(p, b);
  }
}
