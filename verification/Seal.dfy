/**
 Sealed predicates. The verifier opens a recursive definition one step at a
 time, so a predicate of the form

     SealedP(n, x) { if n == 0 then P(x) else SealedP(n - 1, x) }

 taken at the depth SEAL, of which only a lower bound is known, is carried
 through a proof as a plain fact. An inductive lemma says that it means P(x).
 */
module Seal {
  type Depth = n: nat | n >= 4 witness 4
  const SEAL: Depth
}
