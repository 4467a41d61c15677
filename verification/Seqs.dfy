/** Sequence facts that the verifier needs to be told. */
module Seqs {
  lemma Regroup<T>(r: seq<T>, s: seq<T>, t: seq<T>)
    ensures r + (s + t) == r + s + t
  {
  }
}
