/**
  What several components need: bytes, powers of two, and the associativity of concatenation, which the verifier does
  not see by itself.
 */
module Common {

  type byte = n: nat | n < 256

  /** 2 to the power `k`. */
  function Pow2(k: nat): (p: nat)
    ensures p > 0
  {
    if k == 0 then 1 else 2 * Pow2(k - 1)
  }

  /** 1 for true. */
  function One(b: bool): nat { if b then 1 else 0 }

  lemma Assoc<T>(a: seq<T>, b: seq<T>, c: seq<T>)
    ensures a + b + c == a + (b + c)
  {
  }
}
