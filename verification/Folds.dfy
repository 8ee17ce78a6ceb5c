/** Reading results off a list: the last value reported, and the concatenation of all reported. */
module Folds {
  import opened Wrappers

  /** Everything that the elements contribute, in order. */
  function Collect<A, T>(pick: A -> seq<T>, xs: seq<A>): seq<T> {
    if xs == [] then [] else Collect(pick, xs[..|xs| - 1]) + pick(xs[|xs| - 1])
  }

  /** The contribution of the last element that makes one. */
  function Last<A, T>(pick: A -> Option<T>, xs: seq<A>): Option<T> {
    if xs == [] then None
    else if pick(xs[|xs| - 1]).Some? then pick(xs[|xs| - 1])
    else Last(pick, xs[..|xs| - 1])
  }

  function OrElse<T>(o: Option<T>, default: T): T {
    match o
    case Some(t) => t
    case None => default
  }

  function Filter<A>(keep: A -> bool, xs: seq<A>): seq<A> {
    if xs == [] then [] else (if keep(xs[0]) then [xs[0]] else []) + Filter(keep, xs[1..])
  }

  lemma CollectSnoc<A, T>(pick: A -> seq<T>, xs: seq<A>, x: A)
    ensures Collect(pick, xs + [x]) == Collect(pick, xs) + pick(x)
  {
    assert (xs + [x])[..|xs|] == xs;
  }

  lemma LastSnoc<A, T>(pick: A -> Option<T>, xs: seq<A>, x: A)
    ensures Last(pick, xs + [x]) == if pick(x).Some? then pick(x) else Last(pick, xs)
  {
    assert (xs + [x])[..|xs|] == xs;
  }

  lemma {:induction false} CollectCons<A, T>(pick: A -> seq<T>, x: A, xs: seq<A>)
    ensures Collect(pick, [x] + xs) == pick(x) + Collect(pick, xs)
  {
    if xs == [] {
      assert [x] + xs == [] + [x];
      CollectSnoc(pick, [], x);
    } else {
      var init, last := xs[..|xs| - 1], xs[|xs| - 1];
      CollectCons(pick, x, init);
      CollectSnoc(pick, [x] + init, last);
      assert [x] + xs == ([x] + init) + [last];
    }
  }

  lemma {:induction false} LastCons<A, T>(pick: A -> Option<T>, x: A, xs: seq<A>)
    ensures Last(pick, [x] + xs) == if Last(pick, xs).Some? then Last(pick, xs) else pick(x)
  {
    if xs == [] {
      assert [x] + xs == [] + [x];
      LastSnoc(pick, [], x);
    } else {
      var init, last := xs[..|xs| - 1], xs[|xs| - 1];
      LastCons(pick, x, init);
      LastSnoc(pick, [x] + init, last);
      assert [x] + xs == ([x] + init) + [last];
    }
  }

  /** Elements that contribute nothing may as well be left out. */
  lemma {:induction false} CollectFilter<A, T>(pick: A -> seq<T>, keep: A -> bool, xs: seq<A>)
    requires forall x :: !keep(x) ==> pick(x) == []
    ensures Collect(pick, Filter(keep, xs)) == Collect(pick, xs)
  {
    if xs != [] {
      CollectFilter(pick, keep, xs[1..]);
      CollectCons(pick, xs[0], xs[1..]);
      CollectCons(pick, xs[0], Filter(keep, xs[1..]));
      assert [xs[0]] + xs[1..] == xs;
      assert [] + Filter(keep, xs[1..]) == Filter(keep, xs[1..]);
    }
  }

  lemma {:induction false} LastFilter<A, T>(pick: A -> Option<T>, keep: A -> bool, xs: seq<A>)
    requires forall x :: !keep(x) ==> pick(x) == None
    ensures Last(pick, Filter(keep, xs)) == Last(pick, xs)
  {
    if xs != [] {
      LastFilter(pick, keep, xs[1..]);
      LastCons(pick, xs[0], xs[1..]);
      LastCons(pick, xs[0], Filter(keep, xs[1..]));
      assert [xs[0]] + xs[1..] == xs;
      assert [] + Filter(keep, xs[1..]) == Filter(keep, xs[1..]);
    }
  }

  /** `v` is what the last element that makes a contribution contributes: some element contributes it
      and no later one anything, or no element contributes anything. */
  ghost predicate IsLast<A(!new), T>(pick: A -> Option<T>, xs: seq<A>, v: Option<T>) {
    match v
    case None => forall i :: 0 <= i < |xs| ==> pick(xs[i]).None?
    case Some(_) =>
      exists i :: 0 <= i < |xs| && pick(xs[i]) == v && forall j :: i < j < |xs| ==> pick(xs[j]).None?
  }

  lemma {:induction false} LastIs<A(!new), T>(pick: A -> Option<T>, xs: seq<A>)
    ensures IsLast(pick, xs, Last(pick, xs))
  {
    if xs != [] && pick(xs[|xs| - 1]).None? {
      var init := xs[..|xs| - 1];
      LastIs(pick, init);
      assert forall i :: 0 <= i < |init| ==> init[i] == xs[i];
      if Last(pick, init).Some? {
        var i :| 0 <= i < |init| && pick(init[i]) == Last(pick, init)
                 && forall j :: i < j < |init| ==> pick(init[j]).None?;
        assert pick(xs[i]) == Last(pick, xs);
      }
    } else if xs != [] {
      assert pick(xs[|xs| - 1]) == Last(pick, xs);
    }
  }
}
