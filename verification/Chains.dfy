/** Induction along the states of a run. */
module Chains {

  lemma {:induction false} Chain(good: int -> bool, n: int, m: int)
    requires n <= m && good(n) && forall k :: n <= k < m && good(k) ==> good(k + 1)
    ensures good(m)
    decreases m - n
  {
    if n < m {
      Chain(good, n, m - 1);
    }
  }
}
