// Rust's fixed-width integer types, their ranges and the two's complement
// bit patterns the wire format carries.
module Ints {
  import opened Bytes

  const U32_MAX: nat := 0xFFFF_FFFF
  const U64_MAX: nat := 0xFFFF_FFFF_FFFF_FFFF
  /// `usize` on the 64-bit targets the model assumes.
  const USIZE_MAX: nat := U64_MAX

  type u32 = x: int | 0 <= x <= U32_MAX
  type usize = x: int | 0 <= x <= USIZE_MAX

  datatype IntKind = I8 | I16 | I32 | I64 | U8 | U16 | U32 | U64
  {
    predicate Signed()
    {
      I8? || I16? || I32? || I64?
    }

    /// Width of the Rust type in bytes.
    function Width(): nat
    {
      match this
      case I8 | U8 => 1
      case I16 | U16 => 2
      case I32 | U32 => 4
      case I64 | U64 => 8
    }

    function Min(): int
    {
      match this
      case I8 => -0x80
      case I16 => -0x8000
      case I32 => -0x8000_0000
      case I64 => -0x8000_0000_0000_0000
      case _ => 0
    }

    function Max(): int
    {
      match this
      case I8 => 0x7F
      case I16 => 0x7FFF
      case I32 => 0x7FFF_FFFF
      case I64 => 0x7FFF_FFFF_FFFF_FFFF
      case U8 => 0xFF
      case U16 => 0xFFFF
      case U32 => 0xFFFF_FFFF
      case U64 => 0xFFFF_FFFF_FFFF_FFFF
    }

    /// The type a value travels as: 8- and 16-bit integers are widened to
    /// the 32-bit integer of the same signedness, everything else as itself.
    function Wire(): (k: IntKind)
      ensures k.Width() >= 4 && k.Signed() == Signed()
      ensures Width() >= 4 ==> k == this
    {
      match this
      case I8 | I16 => I32
      case U8 | U16 => U32
      case _ => this
    }
  }

  predicate InRange(k: IntKind, n: int)
  {
    k.Min() <= n <= k.Max()
  }

  /// The w-byte two's complement bit pattern of n, i.e. Rust's `n as` cast to a
  /// w-byte integer (Dafny's `%` is Euclidean, so the pattern is never negative).
  function Pattern(n: int, w: nat): (p: nat)
    ensures p < Pow256(w)
  {
    n % Pow256(w)
  }

  /// The value of a kind k read from the bit pattern p of its own width.
  function Interpret(p: nat, k: IntKind): int
  {
    var m := Pow256(k.Width());
    if k.Signed() && p >= m / 2 then p - m else p
  }

  lemma Pow256Widths()
    ensures Pow256(1) == 0x100 && Pow256(2) == 0x1_0000
    ensures Pow256(4) == 0x1_0000_0000 && Pow256(8) == 0x1_0000_0000_0000_0000
  {
    assert Pow256(1) == 256 * Pow256(0);
    assert Pow256(2) == 256 * Pow256(1);
    assert Pow256(3) == 256 * Pow256(2);
    assert Pow256(4) == 256 * Pow256(3);
    assert Pow256(5) == 256 * Pow256(4);
    assert Pow256(6) == 256 * Pow256(5);
    assert Pow256(7) == 256 * Pow256(6);
    assert Pow256(8) == 256 * Pow256(7);
  }

  /// The patterns of a kind are exactly its range: reading back the pattern of
  /// an in-range value gives the value, and every pattern reads as an in-range value.
  lemma InterpretPattern(k: IntKind, n: int)
    requires InRange(k, n)
    ensures Interpret(Pattern(n, k.Width()), k) == n
  {
    Pow256Widths();
    var m := Pow256(k.Width());
    if n < 0 {
      assert n % m == n + m by { ModUnique(n + m, m, 0, n + m); }
    } else {
      assert n % m == n by { ModUnique(n, m, 0, n); }
    }
  }

  lemma InterpretInRange(p: nat, k: IntKind)
    requires p < Pow256(k.Width())
    ensures InRange(k, Interpret(p, k))
  {
    Pow256Widths();
  }

  /// A value of a narrow kind is also a value of the kind it travels as.
  lemma WireWidens(k: IntKind, n: int)
    requires InRange(k, n)
    ensures InRange(k.Wire(), n)
  {
  }
}
