// The boolean ids as signed 32-bit numbers (src/common.rs).
module Common {
  import opened Bytes
  import opened Ints
  import Identifiable

  const TRUE_ID: int := -1720552011
  const FALSE_ID: int := -1132882121

  /// The signed constants are the two's complement readings of the boolean
  /// type ids, so comparing an `i32` read from the wire against them is
  /// comparing against the ids.
  lemma {:induction false} BoolIdsAsSigned()
    ensures InRange(I32, TRUE_ID) && InRange(I32, FALSE_ID)
    ensures Pattern(TRUE_ID, 4) == Identifiable.BOOL_TRUE_ID
    ensures Pattern(FALSE_ID, 4) == Identifiable.BOOL_FALSE_ID
    ensures Interpret(Identifiable.BOOL_TRUE_ID, I32) == TRUE_ID
    ensures Interpret(Identifiable.BOOL_FALSE_ID, I32) == FALSE_ID
  {
    Pow256Widths();
    ModUnique(TRUE_ID + 0x1_0000_0000, 0x1_0000_0000, 0, Identifiable.BOOL_TRUE_ID);
    ModUnique(FALSE_ID + 0x1_0000_0000, 0x1_0000_0000, 0, Identifiable.BOOL_FALSE_ID);
  }
}
