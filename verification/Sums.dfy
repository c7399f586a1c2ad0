/** The sum of a sequence of counts. */
module Sums {

  function Sum(ns: seq<nat>): nat {
    if ns == [] then 0 else ns[0] + Sum(ns[1..])
  }

  /** Changing one count changes the sum by as much, and no count exceeds it. */
  lemma {:induction false} SumOfUpdate(ns: seq<nat>, i: nat, n: nat)
    requires i < |ns|
    ensures ns[i] <= Sum(ns) && Sum(ns[i := n]) == Sum(ns) - ns[i] + n
  {
    if i == 0 {
      assert ns[0 := n][1..] == ns[1..];
    } else {
      assert ns[i := n][1..] == ns[1..][i - 1 := n];
      SumOfUpdate(ns[1..], i - 1, n);
    }
  }

  lemma {:induction false} SumOfAppend(ns: seq<nat>, n: nat)
    ensures Sum(ns + [n]) == Sum(ns) + n
  {
    if ns == [] {
      assert [] + [n] == [n] && [n][1..] == [];
    } else {
      assert (ns + [n])[1..] == ns[1..] + [n];
      SumOfAppend(ns[1..], n);
    }
  }

  lemma {:induction false} SumMonotone(ns: seq<nat>, ms: seq<nat>)
    requires |ns| == |ms| && forall i :: 0 <= i < |ns| ==> ns[i] <= ms[i]
    ensures Sum(ns) <= Sum(ms)
  {
    if ns != [] {
      SumMonotone(ns[1..], ms[1..]);
    }
  }

  lemma {:induction false} SumZero(ns: seq<nat>)
    requires forall i :: 0 <= i < |ns| ==> ns[i] == 0
    ensures Sum(ns) == 0
  {
    if ns != [] {
      SumZero(ns[1..]);
    }
  }
}
