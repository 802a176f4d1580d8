/** Two facts about sequence concatenation that the proofs of the other
    modules use. */
module Sequences {

  lemma AppendAssoc<T>(a: seq<T>, b: seq<T>, c: seq<T>)
    ensures a + b + c == a + (b + c)
  {
  }

  lemma AppendIndex<T>(a: seq<T>, b: seq<T>, k: nat)
    requires k < |b|
    ensures |a + b| == |a| + |b| && (a + b)[|a| + k] == b[k]
  {
  }
}
