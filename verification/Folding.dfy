/** Definitions that a proof sees only where it asks for them. */
module Folding {

  /** A definition stated as `forall u :: Unfold(u) ==> ...`, with Unfold as its trigger, is used
      in those proofs only that mention Unfold. */
  ghost predicate Unfold<T>(u: T) {
    true
  }
}
