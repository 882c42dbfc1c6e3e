/** The bit-level fact behind the set model of enum flags in `AttributeValues`. */
module FlagArithmetic {
  /** `flags -= flag` for a flag that `flags` contains clears exactly
      the flag's bits. */
  lemma SubtractIsClear(flags: bv64, c: bv64)
    requires flags & c == c
    ensures flags - c == flags & !c
  {
  }
}
