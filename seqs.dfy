/** Facts about sequences that the proofs of both drivers share. */
module Seqs {

  /** Concatenation is associative; the proofs call this where Dafny
      would otherwise have to find the regrouping itself. */
  lemma Assoc<T>(a: seq<T>, b: seq<T>, c: seq<T>)
    ensures a + (b + c) == (a + b) + c
  {
  }
}
