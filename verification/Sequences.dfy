/** Regrouping of concatenations, which the verifier has to be told of. */
module Sequences {

  lemma Associative<A>(a: seq<A>, b: seq<A>, c: seq<A>)
    ensures a + (b + c) == (a + b) + c
  {
  }
}
