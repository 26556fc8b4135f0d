/** Definitions that proofs unfold on demand: a predicate stated as `forall t :: Is(t, x) ==> Body(t)`
    says `Body(x)`, but the verifier looks inside only where a lemma mentions `Is(x, x)`. */
module Guard {

  predicate Is<T(==)>(t: T, x: T) {
    t == x
  }
}
