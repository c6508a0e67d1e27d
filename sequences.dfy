/** A fact about sequences that the other modules state explicitly. */
module Sequences {
  /**
   * Concatenation is associative. Dafny knows this already; calling the lemma
   * on large terms (the unfolded pair lists, the collapsed strings) only
   * states the regrouping outright, which keeps the verifier's work small.
   */
  lemma ConcatAssociates<T>(x: seq<T>, y: seq<T>, z: seq<T>)
    ensures (x + y) + z == x + (y + z)
  {
  }
}
