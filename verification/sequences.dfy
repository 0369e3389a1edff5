/** Sequence bookkeeping shared by the conservation proofs. */
module Sequences {

  /**
    Regrouping two accounts of the same items: a step hands on `c1` and keeps
    `k1` of `start + own`; the steps after it hand on `c2` and keep `k2` of
    `k1 + later`. Together they hand on `c1 + c2` and keep `k2` of everything.
  */
  lemma Regroup<T>(c1: seq<T>, c2: seq<T>, k2: seq<T>, k1: seq<T>, later: seq<T>, start: seq<T>, own: seq<T>)
    requires c2 + k2 == k1 + later
    requires c1 + k1 == start + own
    ensures (c1 + c2) + k2 == start + (own + later)
  {
    calc {
      (c1 + c2) + k2;
      c1 + (c2 + k2);
      c1 + (k1 + later);
      (c1 + k1) + later;
      (start + own) + later;
    }
  }
}
