// Checked integer conversions (src/utils.rs, src/common.rs).
module Utils {
  import opened Errors
  import opened Ints

  /// A checked conversion of n to the integer type k: it succeeds, keeping the
  /// value, exactly when n fits, and otherwise reports the value that did not fit.
  function SafeIntCast(n: int, k: IntKind): (r: Result<int>)
    ensures r.Ok? <==> InRange(k, n)
    ensures r.Ok? ==> r.value == n
    ensures r.Err? ==> r.error == IntegerCast(n)
  {
    if InRange(k, n) then Ok(n) else Err(IntegerCast(n))
  }

  /// A length is accepted for a sequence exactly when it fits the u32 count
  /// written in front of the elements; otherwise the error names the length.
  function CheckSeqLen(len: nat): (r: Result<()>)
    ensures r.Ok? <==> SafeIntCast(len, U32).Ok?
    ensures r.Err? ==> r.error == SeqTooLong(len)
  {
    if len <= U32_MAX then Ok(()) else Err(SeqTooLong(len))
  }
}
