/** Sequences: distinct elements, looking up all of them, and a fact that several proofs
    need spelled out. */
module Sequences {
  predicate Distinct<T(==)>(s: seq<T>) {
    forall i, j | 0 <= i < j < |s| :: s[i] != s[j]
  }

  /** What m has for each element, or the default. */
  function LookUp<K, V>(m: map<K, V>, s: seq<K>, default: V): (r: seq<V>)
    ensures |r| == |s|
  {
    seq(|s|, i requires 0 <= i < |s| => if s[i] in m then m[s[i]] else default)
  }

  lemma Associative<T>(a: seq<T>, b: seq<T>, c: seq<T>)
    ensures a + (b + c) == (a + b) + c
  {
  }
}
