/**
 * Generic facts about sequences that the loop proofs use to regroup an
 * accumulated result: Dafny does not apply them on its own when the parts
 * are large terms.
 */
module Sequences {

  /** Sequence concatenation is associative. */
  lemma AppendAssoc<T>(a: seq<T>, b: seq<T>, c: seq<T>)
    ensures a + (b + c) == (a + b) + c
  {
  }
}
