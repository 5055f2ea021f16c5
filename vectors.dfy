// The byte vectors of the repository's tests, worked through the model:
// the fuzz regressions (tests/fuzz_regressions.rs) and the golden encodings
// of tests/regression_tests.rs.
module Vectors {
  import opened Errors
  import opened Bytes
  import opened Ints
  import opened Utils
  import opened Values
  import opened Ser
  import opened De
  import opened RoundTrip
  import opened Decoding
  import Sized
  import opened Wrappers
  import opened Utf8

  /// A one-byte-header empty string followed by four bytes nobody reads.
  const SUCCESS1: seq<byte> := [0x00, 0x00, 0x00, 0x00, 0x00, 0x00, 0x00, 0x08]

  /// An empty string whose three padding bytes are not zero.
  const FAIL1: seq<byte> := [0x00, 0x0a, 0xff, 0xf8, 0xff, 0xfb, 0xff, 0xff, 0xff, 0xff, 0x07,
                             0x00, 0x00, 0x00, 0xfe, 0xff, 0xff, 0xff, 0xff, 0xff, 0xff]

  /// 0xFE, the long-header marker, announcing a length of zero.
  const FAIL2: seq<byte> := [0xfe] + seq(42, i => 0x00)

  /// The four bytes of n, lowest first.
  lemma LE4(n: nat)
    ensures LE(n, 4) == [n % 256, (n / 256) % 256, (n / 65536) % 256, (n / 16777216) % 256]
  {
    assert Pow256(1) == 256 && Pow256(2) == 65536 && Pow256(3) == 16777216;
  }

  /// The eight bytes of a number below 256.
  lemma LE8Small(n: nat)
    requires n < 256
    ensures LE(n, 8) == [n, 0, 0, 0, 0, 0, 0, 0]
  {
    LESplit(n, 8);
    assert LE(0, 7) == [0, 0, 0, 0, 0, 0, 0];
  }

  lemma Pow256AtLeast(i: nat)
    requires i >= 1
    ensures Pow256(i) >= 256
  {
    if i > 1 { Pow256AtLeast(i - 1); }
  }

  /// The empty string, as written.
  lemma EmptyStringEncoding()
    ensures Encode(VStr([])) == Ok([0, 0, 0, 0])
  {
    assert PaddingFor(1) == 3;
    assert Zeros(3) == [0, 0, 0];
    assert [0] + [] + [0, 0, 0] == [0, 0, 0, 0];
  }

  /// Reading the header byte 0 of a short string at the start of input.
  lemma FirstByte(input: seq<byte>)
    requires |input| >= 1
    ensures UintAt(input, 0, 1) == Ok((input[0], 1))
  {
    assert input[0..1] == [input[0]];
    assert FromLE([input[0]]) == input[0] + 256 * FromLE([]);
  }

  /// The empty string decodes from the first four bytes and re-encodes to
  /// them: the rest of the input is left over.
  lemma Success1RoundTrips()
    ensures ValueAt(SStr, SUCCESS1, false, 0, []) == Ok(Decoded(VStr([]), 4, []))
    ensures ValueAt(SStr, SUCCESS1, true, 0, []) == Ok(Decoded(VStr([]), 4, []))
    ensures Encode(VStr([])) == Ok(SUCCESS1[..4])
  {
    EmptyStringEncoding();
    assert Within(SUCCESS1, 0, [0, 0, 0, 0]);
    DecodeEncoded(VStr([]), SStr, SUCCESS1, false, 0, []);
    DecodeEncoded(VStr([]), SStr, SUCCESS1, true, 0, []);
  }

  /// As written the decoder accepts FAIL1 as the empty string, which encodes
  /// to other bytes; the test expects an error.
  lemma Fail1AsWritten()
    ensures ValueAt(SStr, FAIL1, false, 0, []) == Ok(Decoded(VStr([]), 4, []))
    ensures Encode(VStr([])).Ok? && Encode(VStr([])).value != FAIL1[..4]
  {
    FirstByte(FAIL1);
    assert StrInfoAt(FAIL1, false, 0) == Ok((StrInfo(0, 3, false), 1));
    assert ByteStringAt(FAIL1, false, true, 0) == Ok(([], 4));
    assert ValueAt(SStr, FAIL1, false, 0, []) == ShapeAt(SStr, FAIL1, false, 0, []);
    EmptyStringEncoding();
    assert FAIL1[..4][1] == 0x0a;
  }

  /// With the canonical checks the padding is refused.
  lemma Fail1Canonical()
    ensures ValueAt(SStr, FAIL1, true, 0, []) == Err(NonZeroBytesPadding)
  {
    FirstByte(FAIL1);
    assert StrInfoAt(FAIL1, true, 0) == Ok((StrInfo(0, 3, false), 1));
    assert FAIL1[1..4][0] == 0x0a;
    assert ByteStringAt(FAIL1, true, true, 0) == Err(NonZeroBytesPadding);
  }

  /// The three length bytes after FAIL2's 0xFE are zero.
  lemma Fail2Header(canonical: bool)
    ensures UintAt(FAIL2, 0, 1) == Ok((254, 1))
    ensures UintAt(FAIL2, 1, 3) == Ok((0, 4))
  {
    FirstByte(FAIL2);
    assert FAIL2[1..4] == [0, 0, 0];
    assert FromLE([0, 0, 0]) == 0 + 256 * FromLE([0, 0]);
    assert FromLE([0, 0]) == 0 + 256 * FromLE([0]);
    assert FromLE([0]) == 0 + 256 * FromLE([]);
  }

  /// As written the decoder accepts FAIL2 as the empty string too.
  lemma Fail2AsWritten()
    ensures ValueAt(SStr, FAIL2, false, 0, []) == Ok(Decoded(VStr([]), 4, []))
    ensures Encode(VStr([])).Ok? && Encode(VStr([])).value != FAIL2[..4]
  {
    Fail2Header(false);
    assert StrInfoAt(FAIL2, false, 0) == Ok((StrInfo(0, 0, true), 4));
    assert ByteStringAt(FAIL2, false, true, 0) == Ok(([], 4));
    assert ValueAt(SStr, FAIL2, false, 0, []) == ShapeAt(SStr, FAIL2, false, 0, []);
    EmptyStringEncoding();
  }

  /// With the canonical checks a long header for a short string is refused.
  lemma Fail2Canonical()
    ensures ValueAt(SStr, FAIL2, true, 0, []) == Err(BytesLenPrefix254LessThan254(0))
  {
    Fail2Header(true);
    assert StrInfoAt(FAIL2, true, 0) == Err(BytesLenPrefix254LessThan254(0));
  }

  /// `Foo { has_receiver: true, size: 57, raw_info: [56, 114, 200, 1] }`,
  /// serialized bare; `usize` travels as a long.
  const HAS_RECEIVER: Value := VBool(true)
  const SIZE: Value := VInt(U64, 57)
  const RAW_INFO: Value := VBytes([56, 114, 200, 1])
  const FOO: Value := VTuple([HAS_RECEIVER, SIZE, RAW_INFO])
  const FOO_SHAPE: Shape := STuple([SBool, SInt(U64), SBytes])
  const FOO_SERIALIZED_BARE: seq<byte> :=
    [181, 117, 114, 153, 57, 0, 0, 0, 0, 0, 0, 0, 4, 56, 114, 200, 1, 0, 0, 0]

  const TRUE_BYTES: seq<byte> := [181, 117, 114, 153]
  const SIZE_BYTES: seq<byte> := [57, 0, 0, 0, 0, 0, 0, 0]
  const RAW_INFO_BYTES: seq<byte> := [4, 56, 114, 200, 1, 0, 0, 0]

  lemma TrueEncoding()
    ensures Encode(HAS_RECEIVER) == Ok(TRUE_BYTES)
  {
    LE4(Identifiable.BOOL_TRUE_ID);
  }

  /// false travels as the pattern of its id, as in the test of a vector of bools.
  lemma FalseEncoding()
    ensures Encode(VBool(false)) == Ok([55, 151, 121, 188])
  {
    LE4(Identifiable.BOOL_FALSE_ID);
  }

  /// "bee": one length byte and three data bytes fill a word, so no padding.
  lemma BeeEncoding()
    ensures Encode(VStr([98, 101, 101])) == Ok([3, 98, 101, 101])
  {
    assert PaddingFor(4) == 0 && Zeros(0) == [];
    assert EncodeByteString([98, 101, 101]) == Ok([3] + [98, 101, 101] + []);
    assert [3] + [98, 101, 101] + [] == [3, 98, 101, 101];
  }

  lemma SizeEncoding()
    ensures Encode(SIZE) == Ok(SIZE_BYTES)
  {
    LE8Small(57);
    assert Pow256(8) == 0x1_0000_0000_0000_0000;
    assert U64.Wire().Width() == 8 && Pattern(57, 8) == 57;
    assert EncodeInt(U64, 57) == LE(57, 8);
  }

  lemma RawInfoEncoding()
    ensures Encode(RAW_INFO) == Ok(RAW_INFO_BYTES)
  {
    assert PaddingFor(5) == 3 && Zeros(3) == [0, 0, 0];
    assert EncodeByteString([56, 114, 200, 1]) == Ok([4] + [56, 114, 200, 1] + [0, 0, 0]);
    assert [4] + [56, 114, 200, 1] + [0, 0, 0] == RAW_INFO_BYTES;
  }

  /// Three fields are their encodings one after the other.
  lemma ThreeFields(a: Value, b: Value, c: Value, ea: seq<byte>, eb: seq<byte>, ec: seq<byte>)
    requires Encode(a) == Ok(ea) && Encode(b) == Ok(eb) && Encode(c) == Ok(ec)
    ensures EncodeElems(3, 0, [a, b, c]) == Ok(ea + eb + ec)
  {
    var rest := [b, c];
    LastTwoFields(b, c, eb, ec);
    EncodeElemsCons(3, 0, a, rest, ea, eb + ec);
    assert [a] + rest == [a, b, c];
    assert ea + (eb + ec) == ea + eb + ec;
  }

  lemma LastTwoFields(b: Value, c: Value, eb: seq<byte>, ec: seq<byte>)
    requires Encode(b) == Ok(eb) && Encode(c) == Ok(ec)
    ensures EncodeElems(3, 1, [b, c]) == Ok(eb + ec)
  {
    assert EncodeElems(3, 3, []) == Ok([]);
    EncodeElemsCons(3, 2, c, [], ec, []);
    assert [c] + [] == [c] && ec + [] == ec;
    EncodeElemsCons(3, 1, b, [c], eb, ec);
    assert [b] + [c] == [b, c];
  }

  /// The golden bytes of `Foo`.
  lemma FooEncoding()
    ensures Encode(FOO) == Ok(FOO_SERIALIZED_BARE)
  {
    TrueEncoding();
    SizeEncoding();
    RawInfoEncoding();
    ThreeFields(HAS_RECEIVER, SIZE, RAW_INFO, TRUE_BYTES, SIZE_BYTES, RAW_INFO_BYTES);
    assert TRUE_BYTES + SIZE_BYTES + RAW_INFO_BYTES == FOO_SERIALIZED_BARE;
    assert SafeIntCast(3, U32) == Ok(3);
  }

  /// Three fields conform to three shapes one by one; none of them is an enum.
  lemma ThreeFieldsConform(a: Value, b: Value, c: Value, sa: Shape, sb: Shape, sc: Shape)
    requires Conforms(a, sa) && Conforms(b, sb) && Conforms(c, sc)
    requires HintsOf(a) == [] && HintsOf(b) == [] && HintsOf(c) == []
    ensures ConformsFields([a, b, c], [sa, sb, sc]) && HintsOfAll([a, b, c]) == []
  {
    var ss := [sa, sb, sc];
    assert ss[1..] == [sb, sc] && ss[1..][1..] == [sc] && [sc][1..] == [];
    assert ConformsFields([], []);
    ConformsFieldsCons(c, [], [sc]);
    assert [c] + [] == [c];
    ConformsFieldsCons(b, [c], ss[1..]);
    assert [b] + [c] == [b, c];
    ConformsFieldsCons(a, [b, c], ss);
    assert [a] + [b, c] == [a, b, c];
    HintsCons(c, [], []);
    HintsCons(b, [c], []);
    HintsCons(a, [b, c], []);
  }

  lemma FooConforms()
    ensures Conforms(FOO, FOO_SHAPE) && HintsOf(FOO) == []
  {
    assert InRange(U64, 57);
    ThreeFieldsConform(HAS_RECEIVER, SIZE, RAW_INFO, SBool, SInt(U64), SBytes);
  }

  /// A value of a Rust type reads back from exactly its encoding, given
  /// exactly its hints.
  lemma DecodesFromItsEncoding(v: Value, s: Shape, bytes: seq<byte>, canonical: bool)
    requires Conforms(v, s) && Encode(v) == Ok(bytes)
    ensures ValueAt(s, bytes, canonical, 0, HintsOf(v)) == Ok(Decoded(v, |bytes|, []))
  {
    FromBytesToBytes(v, s, [], canonical);
    assert Encode(v).value + [] == bytes;
  }

  /// Reading the golden bytes of `Foo` back gives `Foo`, whichever mode.
  lemma FooDecoding(canonical: bool)
    ensures ValueAt(FOO_SHAPE, FOO_SERIALIZED_BARE, canonical, 0, []) == Ok(Decoded(FOO, 20, []))
  {
    FooEncoding();
    FooConforms();
    DecodesFromItsEncoding(FOO, FOO_SHAPE, FOO_SERIALIZED_BARE, canonical);
  }

  /// A 32-bit pattern written as four bytes, lowest first.
  lemma Int32Encoding(k: IntKind, n: int)
    requires k.Wire() == I32 || k.Wire() == U32
    ensures Encode(VInt(k, n)) == Ok(LE(n % 0x1_0000_0000, 4))
  {
    assert Pow256(4) == 0x1_0000_0000;
  }

  /// `Point3I(-35000, 846, 1029748)`: negative numbers travel as their
  /// two's-complement pattern.
  const X: Value := VInt(I32, -35000)
  const Y: Value := VInt(I32, 846)
  const Z: Value := VInt(I32, 1029748)
  const POINT_3I: Value := VTuple([X, Y, Z])
  const POINT_3I_SHAPE: Shape := STuple([SInt(I32), SInt(I32), SInt(I32)])
  const POINT_3I_SERIALIZED_BARE: seq<byte> := [72, 119, 255, 255, 78, 3, 0, 0, 116, 182, 15, 0]

  lemma CoordinateEncodings()
    ensures Encode(X) == Ok([72, 119, 255, 255])
    ensures Encode(Y) == Ok([78, 3, 0, 0])
    ensures Encode(Z) == Ok([116, 182, 15, 0])
  {
    Int32Encoding(I32, -35000);
    LE4(0x1_0000_0000 - 35000);
    Int32Encoding(I32, 846);
    LE4(846);
    Int32Encoding(I32, 1029748);
    LE4(1029748);
  }

  lemma Point3IEncoding()
    ensures Encode(POINT_3I) == Ok(POINT_3I_SERIALIZED_BARE)
  {
    CoordinateEncodings();
    ThreeFields(X, Y, Z, [72, 119, 255, 255], [78, 3, 0, 0], [116, 182, 15, 0]);
    assert [72, 119, 255, 255] + [78, 3, 0, 0] + [116, 182, 15, 0] == POINT_3I_SERIALIZED_BARE;
    assert SafeIntCast(3, U32) == Ok(3);
  }

  /// `Wrapper(-32768)`, a newtype struct around an i16: widened to 32 bits.
  const WRAPPER: Value := VNewtypeStruct(VInt(I16, -32768))
  const WRAPPER_SERIALIZED_BARE: seq<byte> := [0, 128, 255, 255]

  lemma WrapperEncoding()
    ensures Encode(WRAPPER) == Ok(WRAPPER_SERIALIZED_BARE)
  {
    Int32Encoding(I16, -32768);
    LE4(0x1_0000_0000 - 32768);
  }

  /// Both vectors read back to their values.
  lemma Point3IDecoding(canonical: bool)
    ensures ValueAt(POINT_3I_SHAPE, POINT_3I_SERIALIZED_BARE, canonical, 0, []) == Ok(Decoded(POINT_3I, 12, []))
  {
    Point3IEncoding();
    assert InRange(I32, -35000) && InRange(I32, 846) && InRange(I32, 1029748);
    ThreeFieldsConform(X, Y, Z, SInt(I32), SInt(I32), SInt(I32));
    DecodesFromItsEncoding(POINT_3I, POINT_3I_SHAPE, POINT_3I_SERIALIZED_BARE, canonical);
  }

  lemma WrapperDecoding(canonical: bool)
    ensures ValueAt(SNewtypeStruct(SInt(I16)), WRAPPER_SERIALIZED_BARE, canonical, 0, [])
      == Ok(Decoded(WRAPPER, 4, []))
  {
    WrapperEncoding();
    assert Conforms(WRAPPER, SNewtypeStruct(SInt(I16)));
    DecodesFromItsEncoding(WRAPPER, SNewtypeStruct(SInt(I16)), WRAPPER_SERIALIZED_BARE, canonical);
  }

  // The boxed vectors: `Boxed::new(&x)` puts the type id the derive gives x
  // (the struct's id, or the id of x's enum variant) in front of x.

  /// A `Boxed<T>` asks for its two fields: the id, then a T.
  function BoxedShape(s: Shape): Shape
  {
    STuple([SInt(U32), s])
  }

  /// A boxed value writes its id's four bytes, then the bytes of the value
  /// inside.
  lemma BoxedBytes(id: u32, idBytes: seq<byte>, inner: Value, innerBytes: seq<byte>)
    requires LE(id, 4) == idBytes && Encode(inner) == Ok(innerBytes)
    ensures Encode(BoxedValue(Boxed(id, inner))) == Ok(idBytes + innerBytes)
  {
    BoxedEncoding(Boxed(id, inner));
  }

  /// A boxed value of a Rust type is a value of the boxed type, and needs
  /// exactly the hints of the value inside.
  lemma BoxedConforms(b: Boxed, s: Shape)
    requires Conforms(b.inner, s)
    ensures Conforms(BoxedValue(b), BoxedShape(s)) && HintsOf(BoxedValue(b)) == HintsOf(b.inner)
  {
    var shapes := [SInt(U32), s];
    assert shapes[1..] == [s] && [s][1..] == [];
    assert ConformsFields([], []);
    ConformsFieldsCons(b.inner, [], [s]);
    assert [b.inner] + [] == [b.inner];
    ConformsFieldsCons(VInt(U32, b.id), [b.inner], shapes);
    assert [VInt(U32, b.id)] + [b.inner] == [VInt(U32, b.id), b.inner];
    HintsCons(b.inner, [], []);
    HintsCons(VInt(U32, b.id), [b.inner], []);
  }

  const FOO_ID: u32 := 0xdeadbeef
  const FOO_ID_BYTES: seq<byte> := [0xef, 0xbe, 0xad, 0xde]
  const FOO_SERIALIZED_BOXED: seq<byte> := FOO_ID_BYTES + FOO_SERIALIZED_BARE

  lemma FooIdBytes()
    ensures LE(FOO_ID, 4) == FOO_ID_BYTES
  {
    LE4(FOO_ID);
  }

  /// The boxed `Foo`, written and predicted.
  lemma FooBoxedEncoding()
    ensures Encode(BoxedValue(Boxed(FOO_ID, FOO))) == Ok(FOO_SERIALIZED_BOXED)
    ensures BoxedSizeHint(Boxed(FOO_ID, FOO)) == Ok(|FOO_SERIALIZED_BOXED|)
  {
    FooEncoding();
    FooConforms();
    FooIdBytes();
    BoxedBytes(FOO_ID, FOO_ID_BYTES, FOO, FOO_SERIALIZED_BARE);
    BoxedSizeIsEncodedLength(Boxed(FOO_ID, FOO), FOO_SHAPE);
  }

  /// The boxed `Foo`, read back without hints.
  lemma FooBoxedDecoding(canonical: bool)
    ensures ValueAt(BoxedShape(FOO_SHAPE), FOO_SERIALIZED_BOXED, canonical, 0, [])
         == Ok(Decoded(BoxedValue(Boxed(FOO_ID, FOO)), 24, []))
  {
    FooBoxedEncoding();
    FooConforms();
    BoxedConforms(Boxed(FOO_ID, FOO), FOO_SHAPE);
    DecodesFromItsEncoding(BoxedValue(Boxed(FOO_ID, FOO)), BoxedShape(FOO_SHAPE), FOO_SERIALIZED_BOXED, canonical);
  }

  const POINT_3I_ID: u32 := 0xb01dface
  const POINT_3I_ID_BYTES: seq<byte> := [0xce, 0xfa, 0x1d, 0xb0]
  const POINT_3I_SERIALIZED_BOXED: seq<byte> := POINT_3I_ID_BYTES + POINT_3I_SERIALIZED_BARE

  lemma Point3IIdBytes()
    ensures LE(POINT_3I_ID, 4) == POINT_3I_ID_BYTES
  {
    LE4(POINT_3I_ID);
  }

  lemma Point3IConforms()
    ensures Conforms(POINT_3I, POINT_3I_SHAPE) && HintsOf(POINT_3I) == []
  {
    assert InRange(I32, -35000) && InRange(I32, 846) && InRange(I32, 1029748);
    ThreeFieldsConform(X, Y, Z, SInt(I32), SInt(I32), SInt(I32));
  }

  lemma Point3IBoxedEncoding()
    ensures Encode(BoxedValue(Boxed(POINT_3I_ID, POINT_3I))) == Ok(POINT_3I_SERIALIZED_BOXED)
    ensures BoxedSizeHint(Boxed(POINT_3I_ID, POINT_3I)) == Ok(|POINT_3I_SERIALIZED_BOXED|)
  {
    Point3IEncoding();
    Point3IConforms();
    Point3IIdBytes();
    BoxedBytes(POINT_3I_ID, POINT_3I_ID_BYTES, POINT_3I, POINT_3I_SERIALIZED_BARE);
    BoxedSizeIsEncodedLength(Boxed(POINT_3I_ID, POINT_3I), POINT_3I_SHAPE);
  }

  lemma Point3IBoxedDecoding(canonical: bool)
    ensures ValueAt(BoxedShape(POINT_3I_SHAPE), POINT_3I_SERIALIZED_BOXED, canonical, 0, [])
         == Ok(Decoded(BoxedValue(Boxed(POINT_3I_ID, POINT_3I)), 16, []))
  {
    Point3IBoxedEncoding();
    Point3IConforms();
    BoxedConforms(Boxed(POINT_3I_ID, POINT_3I), POINT_3I_SHAPE);
    DecodesFromItsEncoding(BoxedValue(Boxed(POINT_3I_ID, POINT_3I)), BoxedShape(POINT_3I_SHAPE),
                           POINT_3I_SERIALIZED_BOXED, canonical);
  }

  const WRAPPER_ID: u32 := 0xca11ab1e
  const WRAPPER_SHAPE: Shape := SNewtypeStruct(SInt(I16))
  const WRAPPER_ID_BYTES: seq<byte> := [0x1e, 0xab, 0x11, 0xca]
  const WRAPPER_SERIALIZED_BOXED: seq<byte> := WRAPPER_ID_BYTES + WRAPPER_SERIALIZED_BARE

  lemma WrapperIdBytes()
    ensures LE(WRAPPER_ID, 4) == WRAPPER_ID_BYTES
  {
    LE4(WRAPPER_ID);
  }

  lemma WrapperBoxedEncoding()
    ensures Encode(BoxedValue(Boxed(WRAPPER_ID, WRAPPER))) == Ok(WRAPPER_SERIALIZED_BOXED)
    ensures BoxedSizeHint(Boxed(WRAPPER_ID, WRAPPER)) == Ok(|WRAPPER_SERIALIZED_BOXED|)
  {
    WrapperEncoding();
    assert Conforms(WRAPPER, WRAPPER_SHAPE);
    WrapperIdBytes();
    BoxedBytes(WRAPPER_ID, WRAPPER_ID_BYTES, WRAPPER, WRAPPER_SERIALIZED_BARE);
    BoxedSizeIsEncodedLength(Boxed(WRAPPER_ID, WRAPPER), WRAPPER_SHAPE);
  }

  lemma WrapperBoxedDecoding(canonical: bool)
    ensures ValueAt(BoxedShape(WRAPPER_SHAPE), WRAPPER_SERIALIZED_BOXED, canonical, 0, [])
         == Ok(Decoded(BoxedValue(Boxed(WRAPPER_ID, WRAPPER)), 8, []))
  {
    WrapperBoxedEncoding();
    assert Conforms(WRAPPER, WRAPPER_SHAPE);
    BoxedConforms(Boxed(WRAPPER_ID, WRAPPER), WRAPPER_SHAPE);
    DecodesFromItsEncoding(BoxedValue(Boxed(WRAPPER_ID, WRAPPER)), BoxedShape(WRAPPER_SHAPE),
                           WRAPPER_SERIALIZED_BOXED, canonical);
  }

  /// `Nothing`, a unit struct: no bytes bare, only its id boxed.
  const NOTHING_ID: u32 := 0xd15ea5e0
  const NOTHING_SERIALIZED_BOXED: seq<byte> := [0xe0, 0xa5, 0x5e, 0xd1]

  lemma NothingBoxedEncoding()
    ensures Encode(VUnitStruct) == Ok([])
    ensures Encode(BoxedValue(Boxed(NOTHING_ID, VUnitStruct))) == Ok(NOTHING_SERIALIZED_BOXED)
    ensures BoxedSizeHint(Boxed(NOTHING_ID, VUnitStruct)) == Ok(|NOTHING_SERIALIZED_BOXED|)
  {
    LE4(NOTHING_ID);
    BoxedBytes(NOTHING_ID, NOTHING_SERIALIZED_BOXED, VUnitStruct, []);
    assert NOTHING_SERIALIZED_BOXED + [] == NOTHING_SERIALIZED_BOXED;
  }

  lemma NothingBoxedDecoding(canonical: bool)
    ensures ValueAt(SUnitStruct, [], canonical, 0, []) == Ok(Decoded(VUnitStruct, 0, []))
    ensures ValueAt(BoxedShape(SUnitStruct), NOTHING_SERIALIZED_BOXED, canonical, 0, [])
         == Ok(Decoded(BoxedValue(Boxed(NOTHING_ID, VUnitStruct)), 4, []))
  {
    NothingBoxedEncoding();
    DecodesFromItsEncoding(VUnitStruct, SUnitStruct, [], canonical);
    BoxedConforms(Boxed(NOTHING_ID, VUnitStruct), SUnitStruct);
    DecodesFromItsEncoding(BoxedValue(Boxed(NOTHING_ID, VUnitStruct)), BoxedShape(SUnitStruct),
                           NOTHING_SERIALIZED_BOXED, canonical);
  }

  /// `enum CLike { A, B, C }`: three unit variants.
  const CLIKE_SHAPE: Shape :=
    SEnum([VariantShape("A", PUnit), VariantShape("B", PUnit), VariantShape("C", PUnit)])
  const CLIKE_A_ID: u32 := 0x5ca1ab1e
  const CLIKE_B_ID: u32 := 0xca55e77e

  /// `Cafebabe<T>`. The `f32` field of `Bar` has no shape in this model and
  /// stands as an unsupported one; no vector below reads a `Bar`.
  function CafebabeShape(t: Shape): Shape
  {
    SEnum([VariantShape("Bar", PFields([SInt(I8), STuple([SInt(U64), SInt(U32)]), BoxedShape(t),
                                        SUnsupported(DeAny)])),
           VariantShape("Baz", PFields([SInt(U64), SStr, t, SMap(SStr, SInt(I64))])),
           VariantShape("Blob", PUnit),
           VariantShape("Quux", PNewtype(CLIKE_SHAPE)),
           VariantShape("Spam", PNewtype(BoxedShape(CLIKE_SHAPE)))])
  }

  const C_LIKE_B_SERIALIZED_BOXED: seq<byte> := [0x7e, 0xe7, 0x55, 0xca]

  /// `CLike::B` boxed: a unit variant writes nothing but its id.
  lemma CLikeBBoxedEncoding()
    ensures Encode(BoxedValue(Boxed(CLIKE_B_ID, VUnitVariant("B")))) == Ok(C_LIKE_B_SERIALIZED_BOXED)
    ensures BoxedSizeHint(Boxed(CLIKE_B_ID, VUnitVariant("B"))) == Ok(4)
  {
    LE4(CLIKE_B_ID);
    BoxedBytes(CLIKE_B_ID, C_LIKE_B_SERIALIZED_BOXED, VUnitVariant("B"), []);
    assert C_LIKE_B_SERIALIZED_BOXED + [] == C_LIKE_B_SERIALIZED_BOXED;
  }

  lemma CLikeBConforms()
    ensures Conforms(VUnitVariant("B"), CLIKE_SHAPE) && HintsOf(VUnitVariant("B")) == ["B"]
  {
    assert VariantIndex(CLIKE_SHAPE.variants, "B") == 1;
  }

  /// Reading it back takes the hint ["B"].
  lemma CLikeBBoxedDecoding(canonical: bool)
    ensures ValueAt(BoxedShape(CLIKE_SHAPE), C_LIKE_B_SERIALIZED_BOXED, canonical, 0, ["B"])
         == Ok(Decoded(BoxedValue(Boxed(CLIKE_B_ID, VUnitVariant("B"))), 4, []))
  {
    CLikeBBoxedEncoding();
    CLikeBConforms();
    BoxedConforms(Boxed(CLIKE_B_ID, VUnitVariant("B")), CLIKE_SHAPE);
    DecodesFromItsEncoding(BoxedValue(Boxed(CLIKE_B_ID, VUnitVariant("B"))), BoxedShape(CLIKE_SHAPE),
                           C_LIKE_B_SERIALIZED_BOXED, canonical);
  }

  const BLOB_ID: u32 := 0x0d00d1e0
  const CAFEBABE_BLOB: Value := VUnitVariant("Blob")
  const CAFEBABE_BLOB_SERIALIZED_BOXED: seq<byte> := [0xe0, 0xd1, 0x00, 0x0d]

  lemma BlobConforms()
    ensures Conforms(CAFEBABE_BLOB, CafebabeShape(SInt(I16))) && HintsOf(CAFEBABE_BLOB) == ["Blob"]
  {
    var s := CafebabeShape(SInt(I16));
    assert s.variants[2].name == "Blob";
    assert VariantIndex(s.variants, "Blob") == 2;
  }

  /// `Cafebabe::Blob` boxed: a unit variant of a generic enum, its id alone.
  lemma CafebabeBlobBoxedEncoding()
    ensures Encode(BoxedValue(Boxed(BLOB_ID, CAFEBABE_BLOB))) == Ok(CAFEBABE_BLOB_SERIALIZED_BOXED)
    ensures BoxedSizeHint(Boxed(BLOB_ID, CAFEBABE_BLOB)) == Ok(4)
  {
    LE4(BLOB_ID);
    BoxedBytes(BLOB_ID, CAFEBABE_BLOB_SERIALIZED_BOXED, CAFEBABE_BLOB, []);
    assert CAFEBABE_BLOB_SERIALIZED_BOXED + [] == CAFEBABE_BLOB_SERIALIZED_BOXED;
  }

  /// Reading it back takes the hint ["Blob"].
  lemma CafebabeBlobBoxedDecoding(canonical: bool)
    ensures ValueAt(BoxedShape(CafebabeShape(SInt(I16))), CAFEBABE_BLOB_SERIALIZED_BOXED, canonical, 0,
                    ["Blob"])
         == Ok(Decoded(BoxedValue(Boxed(BLOB_ID, CAFEBABE_BLOB)), 4, []))
  {
    CafebabeBlobBoxedEncoding();
    BlobConforms();
    BoxedConforms(Boxed(BLOB_ID, CAFEBABE_BLOB), CafebabeShape(SInt(I16)));
    DecodesFromItsEncoding(BoxedValue(Boxed(BLOB_ID, CAFEBABE_BLOB)), BoxedShape(CafebabeShape(SInt(I16))),
                           CAFEBABE_BLOB_SERIALIZED_BOXED, canonical);
  }

  const QUUX_ID: u32 := 0x7e1eca57
  const CAFEBABE_QUUX: Value := VNewtypeVariant("Quux", VUnitVariant("C"))
  const CAFEBABE_QUUX_SERIALIZED_BOXED: seq<byte> := [0x57, 0xca, 0x1e, 0x7e]

  lemma QuuxConforms()
    ensures Conforms(CAFEBABE_QUUX, CafebabeShape(SInt(U16))) && HintsOf(CAFEBABE_QUUX) == ["Quux", "C"]
  {
    var s := CafebabeShape(SInt(U16));
    assert s.variants[3].name == "Quux";
    assert VariantIndex(s.variants, "Quux") == 3;
    assert VariantIndex(CLIKE_SHAPE.variants, "C") == 2;
    assert HintsOf(VUnitVariant("C")) == ["C"];
  }

  /// `Cafebabe::Quux(CLike::C)` boxed: the inner unit variant writes nothing,
  /// so the bytes are the id of `Quux` alone.
  lemma CafebabeQuuxBoxedEncoding()
    ensures Encode(BoxedValue(Boxed(QUUX_ID, CAFEBABE_QUUX))) == Ok(CAFEBABE_QUUX_SERIALIZED_BOXED)
    ensures BoxedSizeHint(Boxed(QUUX_ID, CAFEBABE_QUUX)) == Ok(4)
  {
    LE4(QUUX_ID);
    BoxedBytes(QUUX_ID, CAFEBABE_QUUX_SERIALIZED_BOXED, CAFEBABE_QUUX, []);
    assert CAFEBABE_QUUX_SERIALIZED_BOXED + [] == CAFEBABE_QUUX_SERIALIZED_BOXED;
  }

  /// Reading it back takes both hints, the outer variant first.
  lemma CafebabeQuuxBoxedDecoding(canonical: bool)
    ensures ValueAt(BoxedShape(CafebabeShape(SInt(U16))), CAFEBABE_QUUX_SERIALIZED_BOXED, canonical, 0,
                    ["Quux", "C"])
         == Ok(Decoded(BoxedValue(Boxed(QUUX_ID, CAFEBABE_QUUX)), 4, []))
  {
    CafebabeQuuxBoxedEncoding();
    QuuxConforms();
    BoxedConforms(Boxed(QUUX_ID, CAFEBABE_QUUX), CafebabeShape(SInt(U16)));
    DecodesFromItsEncoding(BoxedValue(Boxed(QUUX_ID, CAFEBABE_QUUX)), BoxedShape(CafebabeShape(SInt(U16))),
                           CAFEBABE_QUUX_SERIALIZED_BOXED, canonical);
  }

  const SPAM_ID: u32 := 0xf01dab1e
  const CLIKE_A_BOXED: Boxed := Boxed(CLIKE_A_ID, VUnitVariant("A"))
  const CAFEBABE_SPAM: Value := VNewtypeVariant("Spam", BoxedValue(CLIKE_A_BOXED))
  const SPAM_ID_BYTES: seq<byte> := [0x1e, 0xab, 0x1d, 0xf0]
  const CLIKE_A_ID_BYTES: seq<byte> := [0x1e, 0xab, 0xa1, 0x5c]
  const CAFEBABE_SPAM_SERIALIZED_BOXED: seq<byte> := SPAM_ID_BYTES + CLIKE_A_ID_BYTES

  /// The inner `Boxed::new(CLike::A)`: its id alone.
  lemma CLikeABoxedEncoding()
    ensures Encode(BoxedValue(CLIKE_A_BOXED)) == Ok(CLIKE_A_ID_BYTES)
    ensures Sized.Sizable(BoxedValue(CLIKE_A_BOXED)) && Sized.SizeHint(BoxedValue(CLIKE_A_BOXED)) == Ok(4)
  {
    LE4(CLIKE_A_ID);
    BoxedBytes(CLIKE_A_ID, CLIKE_A_ID_BYTES, VUnitVariant("A"), []);
    assert CLIKE_A_ID_BYTES + [] == CLIKE_A_ID_BYTES;
    CLikeAConforms();
    Sized.SizeHintIsEncodedLength(BoxedValue(CLIKE_A_BOXED), BoxedShape(CLIKE_SHAPE));
  }

  lemma CLikeAConforms()
    ensures Conforms(BoxedValue(CLIKE_A_BOXED), BoxedShape(CLIKE_SHAPE))
    ensures HintsOf(BoxedValue(CLIKE_A_BOXED)) == ["A"]
  {
    assert VariantIndex(CLIKE_SHAPE.variants, "A") == 0;
    BoxedConforms(CLIKE_A_BOXED, CLIKE_SHAPE);
  }

  lemma SpamConforms()
    ensures Conforms(CAFEBABE_SPAM, CafebabeShape(SSeq(SStr))) && HintsOf(CAFEBABE_SPAM) == ["Spam", "A"]
  {
    var s := CafebabeShape(SSeq(SStr));
    CLikeAConforms();
    assert s.variants[4].name == "Spam";
    assert VariantIndex(s.variants, "Spam") == 4;
  }

  lemma SpamIdBytes()
    ensures LE(SPAM_ID, 4) == SPAM_ID_BYTES
  {
    LE4(SPAM_ID);
  }

  /// `Cafebabe::Spam(Boxed::new(CLike::A))` boxed: two ids, the outer one first.
  lemma CafebabeSpamBoxedEncoding()
    ensures Encode(BoxedValue(Boxed(SPAM_ID, CAFEBABE_SPAM))) == Ok(CAFEBABE_SPAM_SERIALIZED_BOXED)
    ensures Sized.Sizable(CAFEBABE_SPAM) && BoxedSizeHint(Boxed(SPAM_ID, CAFEBABE_SPAM)) == Ok(8)
  {
    CLikeABoxedEncoding();
    SpamIdBytes();
    BoxedBytes(SPAM_ID, SPAM_ID_BYTES, CAFEBABE_SPAM, CLIKE_A_ID_BYTES);
  }

  /// Reading it back takes the hints ["Spam", "A"].
  lemma CafebabeSpamBoxedDecoding(canonical: bool)
    ensures ValueAt(BoxedShape(CafebabeShape(SSeq(SStr))), CAFEBABE_SPAM_SERIALIZED_BOXED, canonical, 0,
                    ["Spam", "A"])
         == Ok(Decoded(BoxedValue(Boxed(SPAM_ID, CAFEBABE_SPAM)), 8, []))
  {
    CafebabeSpamBoxedEncoding();
    SpamConforms();
    BoxedConforms(Boxed(SPAM_ID, CAFEBABE_SPAM), CafebabeShape(SSeq(SStr)));
    DecodesFromItsEncoding(BoxedValue(Boxed(SPAM_ID, CAFEBABE_SPAM)), BoxedShape(CafebabeShape(SSeq(SStr))),
                           CAFEBABE_SPAM_SERIALIZED_BOXED, canonical);
  }

  // `Cafebabe::Baz` boxed, with a `Vec<bool>` payload and a `BTreeMap<String, i64>`
  // whose entries travel in key order.

  const BAZ_ID: u32 := 0xbaaaaaad
  const BAZ_ID_BYTES: seq<byte> := [0xad, 0xaa, 0xaa, 0xba]

  const BAZ_U64: Value := VInt(U64, 0xffff_ffff_ffff_ffff)
  const BEE: Value := VStr([98, 101, 101])
  const BAZ_PAYLOAD: Value := VSeq(Some(3), [VBool(false), VBool(true), VBool(false)])

  const KONNICHIWA: seq<byte> := [227, 129, 147, 227, 130, 147, 227, 129, 171, 227, 129, 161, 227, 129, 175]
  const KEY_EMPTY: Value := VStr([])
  const KEY_OTHER: Value := VStr([79, 116, 72, 101, 82])
  const KEY_QWERTY: Value := VStr([81, 87, 69, 82, 84, 89])
  const KEY_SOMETHING: Value := VStr([115, 111, 109, 101, 116, 104, 105, 110, 103])
  const KEY_KONNICHIWA: Value := VStr(KONNICHIWA)
  const VAL_EMPTY: Value := VInt(I64, -1)
  const VAL_OTHER: Value := VInt(I64, 0x7fff_ffff_ffff_ffff)
  const VAL_QWERTY: Value := VInt(I64, -1_048_576)
  const VAL_SOMETHING: Value := VInt(I64, 0)
  const VAL_KONNICHIWA: Value := VInt(I64, 8024735636555)

  const BAZ_KEYS: seq<Value> := [KEY_EMPTY, KEY_OTHER, KEY_QWERTY, KEY_SOMETHING, KEY_KONNICHIWA]
  const BAZ_VALUES: seq<Value> := [VAL_EMPTY, VAL_OTHER, VAL_QWERTY, VAL_SOMETHING, VAL_KONNICHIWA]
  const BAZ_ENTRIES: seq<Value> :=
    [KEY_EMPTY, VAL_EMPTY, KEY_OTHER, VAL_OTHER, KEY_QWERTY, VAL_QWERTY,
     KEY_SOMETHING, VAL_SOMETHING, KEY_KONNICHIWA, VAL_KONNICHIWA]
  const BAZ_MAPPING: Value := VMap(Some(5), BAZ_ENTRIES)
  const BAZ_FIELDS: seq<Value> := [BAZ_U64, BEE, BAZ_PAYLOAD, BAZ_MAPPING]
  const CAFEBABE_BAZ: Value := VFieldsVariant("Baz", BAZ_FIELDS)

  // The golden bytes, piece by piece.
  const ONES: seq<byte> := [255, 255, 255, 255, 255, 255, 255, 255]
  const FALSE_BYTES: seq<byte> := [55, 151, 121, 188]
  const BAZ_PAYLOAD_BYTES: seq<byte> := [3, 0, 0, 0] + Concat([FALSE_BYTES, TRUE_BYTES, FALSE_BYTES])
  const KEY_OTHER_BYTES: seq<byte> := [5, 79, 116, 72, 101, 82, 0, 0]
  const VAL_OTHER_BYTES: seq<byte> := [255, 255, 255, 255, 255, 255, 255, 127]
  const KEY_QWERTY_BYTES: seq<byte> := [6, 81, 87, 69, 82, 84, 89, 0]
  const VAL_QWERTY_BYTES: seq<byte> := [0, 0, 240, 255, 255, 255, 255, 255]
  const KEY_SOMETHING_BYTES: seq<byte> := [9, 115, 111, 109, 101, 116, 104, 105, 110, 103, 0, 0]
  const VAL_SOMETHING_BYTES: seq<byte> := [0, 0, 0, 0, 0, 0, 0, 0]
  const KEY_KONNICHIWA_BYTES: seq<byte> := [15] + KONNICHIWA
  const VAL_KONNICHIWA_BYTES: seq<byte> := [75, 92, 132, 103, 76, 7, 0, 0]
  const BAZ_ENTRY_BYTES: seq<seq<byte>> :=
    [[0, 0, 0, 0], ONES, KEY_OTHER_BYTES, VAL_OTHER_BYTES, KEY_QWERTY_BYTES, VAL_QWERTY_BYTES,
     KEY_SOMETHING_BYTES, VAL_SOMETHING_BYTES, KEY_KONNICHIWA_BYTES, VAL_KONNICHIWA_BYTES]
  const BAZ_MAPPING_BYTES: seq<byte> := [5, 0, 0, 0] + Concat(BAZ_ENTRY_BYTES)
  const BAZ_FIELD_BYTES: seq<seq<byte>> := [ONES, [3, 98, 101, 101], BAZ_PAYLOAD_BYTES, BAZ_MAPPING_BYTES]
  const CAFEBABE_BAZ_SERIALIZED_BOXED: seq<byte> := BAZ_ID_BYTES + Concat(BAZ_FIELD_BYTES)

  /// Byte strings one after the other.
  function Concat(chunks: seq<seq<byte>>): (r: seq<byte>)
  {
    if chunks == [] then [] else chunks[0] + Concat(chunks[1..])
  }

  /// Elements are written as their encodings one after the other.
  lemma {:induction false} ElemsBytes(len: nat, next: nat, es: seq<Value>, e: seq<seq<byte>>)
    requires |es| == |e| && next + |es| <= len
    requires forall i :: 0 <= i < |es| ==> Encode(es[i]) == Ok(e[i])
    ensures EncodeElems(len, next, es) == Ok(Concat(e))
    decreases |es|
  {
    if es != [] {
      ElemsBytes(len, next + 1, es[1..], e[1..]);
    }
  }

  /// Entries are written as their keys and values one after the other, each
  /// key counted against the announced length.
  lemma {:induction false} EntriesBytes(len: nat, next: nat, kvs: seq<Value>, e: seq<seq<byte>>)
    requires |kvs| == |e| && |kvs| % 2 == 0 && next + |kvs| / 2 <= len
    requires forall i :: 0 <= i < |kvs| ==> Encode(kvs[i]) == Ok(e[i])
    ensures EncodeEntries(len, next, kvs) == Ok(Concat(e))
    decreases |kvs|
  {
    if kvs != [] {
      assert kvs[1..][1..] == kvs[2..] && e[1..][1..] == e[2..];
      EntriesBytes(len, next + 1, kvs[2..], e[2..]);
    }
  }

  /// A sequence of known length: the length as a u32, then the elements.
  lemma SeqBytes(n: nat, es: seq<Value>, e: seq<byte>)
    requires n == |es| <= U32_MAX && EncodeElems(n, 0, es) == Ok(e)
    ensures Encode(VSeq(Some(n), es)) == Ok(LE(n, 4) + e)
  {
    U32Field(n);
    assert EncodeInt(U32, n) == LE(n, 4);
    assert SafeIntCast(n, U32) == Ok(n);
    assert Encode(VSeq(Some(n), es)) == Prepend(EncodeInt(U32, n), EncodeElems(n, 0, es));
  }

  /// A map of known length: the number of entries as a u32, then the entries.
  lemma MapBytes(n: nat, kvs: seq<Value>, e: seq<byte>)
    requires n <= U32_MAX && EncodeEntries(n, 0, kvs) == Ok(e)
    ensures Encode(VMap(Some(n), kvs)) == Ok(LE(n, 4) + e)
  {
    U32Field(n);
    assert EncodeInt(U32, n) == LE(n, 4);
    assert SafeIntCast(n, U32) == Ok(n);
    assert Encode(VMap(Some(n), kvs)) == Prepend(EncodeInt(U32, n), EncodeEntries(n, 0, kvs));
  }

  /// A 64-bit pattern written as eight bytes, lowest first.
  lemma Int64Encoding(k: IntKind, n: int)
    requires k.Wire() == I64 || k.Wire() == U64
    ensures Encode(VInt(k, n)) == Ok(LE(n % 0x1_0000_0000_0000_0000, 8))
  {
    assert Pow256(8) == 0x1_0000_0000_0000_0000;
  }

  /// The number eight bytes stand for, lowest first, written out.
  function Word64(s: seq<byte>): int
    requires |s| == 8
  {
    var b: seq<int> := s;
    b[0] + 256 * (b[1] + 256 * (b[2] + 256 * (b[3] + 256 * (b[4] + 256 * (b[5] + 256 * (b[6] + 256 * b[7]))))))
  }

  lemma FromLE8(s: seq<byte>)
    requires |s| == 8
    ensures FromLE(s) == Word64(s)
  {
    assert s[8..] == [];
    assert FromLE(s[7..]) == s[7] + 256 * FromLE(s[8..]) by { assert s[7..][1..] == s[8..]; }
    assert FromLE(s[6..]) == s[6] + 256 * FromLE(s[7..]) by { assert s[6..][1..] == s[7..]; }
    assert FromLE(s[5..]) == s[5] + 256 * FromLE(s[6..]) by { assert s[5..][1..] == s[6..]; }
    assert FromLE(s[4..]) == s[4] + 256 * FromLE(s[5..]) by { assert s[4..][1..] == s[5..]; }
    assert FromLE(s[3..]) == s[3] + 256 * FromLE(s[4..]) by { assert s[3..][1..] == s[4..]; }
    assert FromLE(s[2..]) == s[2] + 256 * FromLE(s[3..]) by { assert s[2..][1..] == s[3..]; }
    assert FromLE(s[1..]) == s[1] + 256 * FromLE(s[2..]) by { assert s[1..][1..] == s[2..]; }
  }

  /// A 64-bit integer is written as the eight bytes that stand for its pattern.
  lemma Int64Bytes(k: IntKind, n: int, bytes: seq<byte>)
    requires k.Wire() == I64 || k.Wire() == U64
    requires |bytes| == 8 && n % 0x1_0000_0000_0000_0000 == Word64(bytes)
    ensures Encode(VInt(k, n)) == Ok(bytes)
  {
    FromLE8(bytes);
    Int64Encoding(k, n);
    LEofFromLE(bytes);
  }

  /// u64::MAX: all ones.
  lemma U64MaxEncoding()
    ensures Encode(BAZ_U64) == Ok(ONES)
  {
    Int64Bytes(U64, 0xffff_ffff_ffff_ffff, ONES);
  }

  /// -1 as an i64: all ones in two's complement.
  lemma MinusOneEncoding()
    ensures Encode(VAL_EMPTY) == Ok(ONES)
  {
    Int64Bytes(I64, -1, ONES);
  }

  /// i64::MAX: seven bytes of ones under a top byte 0x7f.
  lemma MaxI64Encoding()
    ensures Encode(VAL_OTHER) == Ok(VAL_OTHER_BYTES)
  {
    Int64Bytes(I64, 0x7fff_ffff_ffff_ffff, VAL_OTHER_BYTES);
  }

  /// -1048576, that is -(2^20), in two's complement.
  lemma NegativeI64Encoding()
    ensures Encode(VAL_QWERTY) == Ok(VAL_QWERTY_BYTES)
  {
    Int64Bytes(I64, -1_048_576, VAL_QWERTY_BYTES);
  }

  /// Zero: eight zero bytes.
  lemma ZeroI64Encoding()
    ensures Encode(VAL_SOMETHING) == Ok(VAL_SOMETHING_BYTES)
  {
    Int64Bytes(I64, 0, VAL_SOMETHING_BYTES);
  }

  /// The positive 8024735636555, which takes six of the eight bytes.
  lemma PositiveI64Encoding()
    ensures Encode(VAL_KONNICHIWA) == Ok(VAL_KONNICHIWA_BYTES)
  {
    Int64Bytes(I64, 8024735636555, VAL_KONNICHIWA_BYTES);
  }

  /// A string of up to 253 bytes: a one-byte header, the bytes, the padding.
  lemma ShortStringEncoding(data: seq<byte>, pad: nat)
    requires |data| <= 253 && pad == PaddingFor(|data| + 1)
    ensures Encode(VStr(data)) == Ok([|data| as byte] + data + Zeros(pad))
  {
  }

  lemma OtherEncoding()
    ensures Encode(KEY_OTHER) == Ok(KEY_OTHER_BYTES)
  {
    assert PaddingFor(6) == 2 && Zeros(2) == [0, 0];
    ShortStringEncoding(KEY_OTHER.utf8, 2);
    assert [5] + KEY_OTHER.utf8 + [0, 0] == KEY_OTHER_BYTES;
  }

  lemma QwertyEncoding()
    ensures Encode(KEY_QWERTY) == Ok(KEY_QWERTY_BYTES)
  {
    assert PaddingFor(7) == 1 && Zeros(1) == [0];
    ShortStringEncoding(KEY_QWERTY.utf8, 1);
    assert [6] + KEY_QWERTY.utf8 + [0] == KEY_QWERTY_BYTES;
  }

  lemma SomethingEncoding()
    ensures Encode(KEY_SOMETHING) == Ok(KEY_SOMETHING_BYTES)
  {
    assert PaddingFor(10) == 2 && Zeros(2) == [0, 0];
    ShortStringEncoding(KEY_SOMETHING.utf8, 2);
    assert [9] + KEY_SOMETHING.utf8 + [0, 0] == KEY_SOMETHING_BYTES;
  }

  /// Fifteen bytes of UTF-8 and the header fill four words: no padding.
  lemma KonnichiwaEncoding()
    ensures Encode(KEY_KONNICHIWA) == Ok(KEY_KONNICHIWA_BYTES)
  {
    assert PaddingFor(16) == 0 && Zeros(0) == [];
    ShortStringEncoding(KONNICHIWA, 0);
    assert [15] + KONNICHIWA + [] == KEY_KONNICHIWA_BYTES;
  }

  /// Each entry of the map, key or value, encodes as its piece of the golden bytes.
  lemma BazEntryEncodings()
    ensures forall i :: 0 <= i < |BAZ_ENTRIES| ==> Encode(BAZ_ENTRIES[i]) == Ok(BAZ_ENTRY_BYTES[i])
  {
    EmptyStringEncoding();
    MinusOneEncoding();
    OtherEncoding();
    MaxI64Encoding();
    QwertyEncoding();
    NegativeI64Encoding();
    SomethingEncoding();
    ZeroI64Encoding();
    KonnichiwaEncoding();
    PositiveI64Encoding();
    forall i | 0 <= i < |BAZ_ENTRIES|
      ensures Encode(BAZ_ENTRIES[i]) == Ok(BAZ_ENTRY_BYTES[i])
    {
      assert i == 0 || i == 1 || i == 2 || i == 3 || i == 4 || i == 5 || i == 6 || i == 7 || i == 8 || i == 9;
    }
  }

  /// The map: its five entries announced as a u32, then key, value, key,
  /// value in key order.
  lemma BazMappingEncoding()
    ensures Encode(BAZ_MAPPING) == Ok(BAZ_MAPPING_BYTES)
  {
    BazEntryEncodings();
    EntriesBytes(5, 0, BAZ_ENTRIES, BAZ_ENTRY_BYTES);
    MapBytes(5, BAZ_ENTRIES, Concat(BAZ_ENTRY_BYTES));
    LE4(5);
  }

  /// The `Vec<bool>`: three elements announced as a u32, then the three ids.
  lemma BazPayloadEncoding()
    ensures Encode(BAZ_PAYLOAD) == Ok(BAZ_PAYLOAD_BYTES)
  {
    FalseEncoding();
    TrueEncoding();
    var es := [VBool(false), VBool(true), VBool(false)];
    var e := [FALSE_BYTES, TRUE_BYTES, FALSE_BYTES];
    forall i | 0 <= i < 3
      ensures Encode(es[i]) == Ok(e[i])
    {
      assert i == 0 || i == 1 || i == 2;
    }
    ElemsBytes(3, 0, es, e);
    SeqBytes(3, es, Concat(e));
    LE4(3);
  }

  /// The four fields of `Cafebabe::Baz`, one after the other, with no header.
  lemma BazFieldsEncoding()
    ensures EncodeElems(4, 0, BAZ_FIELDS) == Ok(Concat(BAZ_FIELD_BYTES))
  {
    U64MaxEncoding();
    BeeEncoding();
    BazPayloadEncoding();
    BazMappingEncoding();
    forall i | 0 <= i < 4
      ensures Encode(BAZ_FIELDS[i]) == Ok(BAZ_FIELD_BYTES[i])
    {
      assert i == 0 || i == 1 || i == 2 || i == 3;
    }
    ElemsBytes(4, 0, BAZ_FIELDS, BAZ_FIELD_BYTES);
  }

  /// `Cafebabe::Baz` bare: its four fields in order, with no count in front.
  lemma CafebabeBazEncoding()
    ensures Encode(CAFEBABE_BAZ) == Ok(Concat(BAZ_FIELD_BYTES))
  {
    BazFieldsEncoding();
  }

  /// The golden bytes of `Cafebabe::Baz` boxed.
  lemma CafebabeBazBoxedEncoding()
    ensures Encode(BoxedValue(Boxed(BAZ_ID, CAFEBABE_BAZ))) == Ok(CAFEBABE_BAZ_SERIALIZED_BOXED)
  {
    CafebabeBazEncoding();
    LE4(BAZ_ID);
    BoxedBytes(BAZ_ID, BAZ_ID_BYTES, CAFEBABE_BAZ, Concat(BAZ_FIELD_BYTES));
  }

  /// The size predicted for boxed `Cafebabe::Baz` is the length of its golden
  /// bytes, a multiple of four.
  lemma CafebabeBazBoxedSize()
    ensures Sized.Sizable(CAFEBABE_BAZ)
    ensures BoxedSizeHint(Boxed(BAZ_ID, CAFEBABE_BAZ)) == Ok(|CAFEBABE_BAZ_SERIALIZED_BOXED|)
    ensures |CAFEBABE_BAZ_SERIALIZED_BOXED| % 4 == 0
  {
    CafebabeBazBoxedEncoding();
    BazConforms();
    BoxedSizeIsEncodedLength(Boxed(BAZ_ID, CAFEBABE_BAZ), CafebabeShape(SSeq(SBool)));
    EncodingIsAligned(BoxedValue(Boxed(BAZ_ID, CAFEBABE_BAZ)));
  }

  /// "こんにちは": five three-byte characters.
  lemma KonnichiwaIsValid()
    ensures ValidUtf8(KONNICHIWA)
  {
    var ha: seq<byte> := [227, 129, 175];
    var chi: seq<byte> := [227, 129, 161] + ha;
    var ni: seq<byte> := [227, 129, 171] + chi;
    var n: seq<byte> := [227, 130, 147] + ni;
    ThreeByteChar(ha, []);
    assert ha + [] == ha;
    ThreeByteChar([227, 129, 161], ha);
    ThreeByteChar([227, 129, 171], chi);
    ThreeByteChar([227, 130, 147], ni);
    ThreeByteChar([227, 129, 147], n);
    assert [227, 129, 147] + n == KONNICHIWA;
  }

  /// Entries conform when their keys are among keys that conform to the key
  /// shape and their values among values that conform to the value shape;
  /// then none of them asks for a hint.
  lemma {:induction false} EntriesConform(kvs: seq<Value>, ks: Shape, vs: Shape, keys: seq<Value>, vals: seq<Value>)
    requires |kvs| % 2 == 0
    requires forall i :: 0 <= i < |kvs| ==> kvs[i] in (if i % 2 == 0 then keys else vals)
    requires forall k :: k in keys ==> Conforms(k, ks) && HintsOf(k) == []
    requires forall v :: v in vals ==> Conforms(v, vs) && HintsOf(v) == []
    ensures ConformsEntries(kvs, ks, vs) && HintsOfAll(kvs) == []
    decreases |kvs|
  {
    if kvs != [] {
      assert kvs[0] in keys && kvs[1] in vals;
      assert kvs[1..][1..] == kvs[2..];
      EntriesConform(kvs[2..], ks, vs, keys, vals);
    }
  }

  /// Fields conform one by one to their shapes, and none asks for a hint.
  lemma {:induction false} FieldsConform(fs: seq<Value>, ss: seq<Shape>)
    requires |fs| == |ss| <= U32_MAX
    requires forall i :: 0 <= i < |fs| ==> Conforms(fs[i], ss[i]) && HintsOf(fs[i]) == []
    ensures ConformsFields(fs, ss) && HintsOfAll(fs) == []
    decreases |fs|
  {
    if fs != [] {
      FieldsConform(fs[1..], ss[1..]);
    }
  }

  /// A variant with fields conforms to an enum that has a variant of its name
  /// taking fields of those shapes, and asks for its name alone.
  lemma FieldsVariantConforms(name: string, fs: seq<Value>, s: Shape, ss: seq<Shape>)
    requires s.SEnum? && VariantIndex(s.variants, name) < |s.variants|
    requires s.variants[VariantIndex(s.variants, name)].payload == PFields(ss)
    requires |fs| == |ss| <= U32_MAX
    requires forall i :: 0 <= i < |fs| ==> Conforms(fs[i], ss[i]) && HintsOf(fs[i]) == []
    ensures Conforms(VFieldsVariant(name, fs), s) && HintsOf(VFieldsVariant(name, fs)) == [name]
  {
    FieldsConform(fs, ss);
  }

  /// A map of known length conforms when its entries do as above.
  lemma MapConforms(n: nat, kvs: seq<Value>, ks: Shape, vs: Shape, keys: seq<Value>, vals: seq<Value>)
    requires |kvs| % 2 == 0 && n == |kvs| / 2 <= U32_MAX
    requires forall i :: 0 <= i < |kvs| ==> kvs[i] in (if i % 2 == 0 then keys else vals)
    requires forall k :: k in keys ==> Conforms(k, ks) && HintsOf(k) == []
    requires forall v :: v in vals ==> Conforms(v, vs) && HintsOf(v) == []
    ensures Conforms(VMap(Some(n), kvs), SMap(ks, vs)) && HintsOf(VMap(Some(n), kvs)) == []
  {
    EntriesConform(kvs, ks, vs, keys, vals);
  }

  lemma OtherConforms()
    ensures Conforms(KEY_OTHER, SStr)
  {
    AsciiIsValid(KEY_OTHER.utf8);
  }

  lemma QwertyConforms()
    ensures Conforms(KEY_QWERTY, SStr)
  {
    AsciiIsValid(KEY_QWERTY.utf8);
  }

  lemma SomethingConforms()
    ensures Conforms(KEY_SOMETHING, SStr)
  {
    AsciiIsValid(KEY_SOMETHING.utf8);
  }

  lemma KonnichiwaConforms()
    ensures Conforms(KEY_KONNICHIWA, SStr)
  {
    KonnichiwaIsValid();
  }

  /// The first two keys, both ASCII.
  lemma FirstKeysConform()
    ensures forall k :: k in [KEY_EMPTY, KEY_OTHER] ==> Conforms(k, SStr) && HintsOf(k) == []
  {
    AsciiIsValid([]);
    OtherConforms();
  }

  /// The last three keys: two in ASCII, one in Japanese.
  lemma LastKeysConform()
    ensures forall k :: k in [KEY_QWERTY, KEY_SOMETHING, KEY_KONNICHIWA] ==> Conforms(k, SStr) && HintsOf(k) == []
  {
    QwertyConforms();
    SomethingConforms();
    KonnichiwaConforms();
  }

  /// The five keys are UTF-8 strings short enough for the wire, and name no variants.
  lemma BazKeysConform()
    ensures forall k :: k in BAZ_KEYS ==> Conforms(k, SStr) && HintsOf(k) == []
  {
    FirstKeysConform();
    LastKeysConform();
    forall k | k in BAZ_KEYS
      ensures k in [KEY_EMPTY, KEY_OTHER] || k in [KEY_QWERTY, KEY_SOMETHING, KEY_KONNICHIWA]
    {
    }
  }

  /// The five values are in range for an i64.
  lemma BazValuesConform()
    ensures forall v :: v in BAZ_VALUES ==> Conforms(v, SInt(I64)) && HintsOf(v) == []
  {
  }

  /// The map's entries alternate between its keys and its values.
  lemma BazEntriesAlternate()
    ensures forall i :: 0 <= i < |BAZ_ENTRIES| ==> BAZ_ENTRIES[i] in (if i % 2 == 0 then BAZ_KEYS else BAZ_VALUES)
  {
    forall i | 0 <= i < |BAZ_ENTRIES|
      ensures BAZ_ENTRIES[i] in (if i % 2 == 0 then BAZ_KEYS else BAZ_VALUES)
    {
      assert i == 0 || i == 1 || i == 2 || i == 3 || i == 4 || i == 5 || i == 6 || i == 7 || i == 8 || i == 9;
    }
  }

  /// The map is a `BTreeMap<String, i64>` of five entries, announced as five.
  lemma BazMappingConforms()
    ensures Conforms(BAZ_MAPPING, SMap(SStr, SInt(I64))) && HintsOf(BAZ_MAPPING) == []
  {
    BazEntriesAlternate();
    BazKeysConform();
    BazValuesConform();
    MapConforms(5, BAZ_ENTRIES, SStr, SInt(I64), BAZ_KEYS, BAZ_VALUES);
  }

  /// The `Vec<bool>` payload: three booleans, announced as three.
  lemma BazPayloadConforms()
    ensures Conforms(BAZ_PAYLOAD, SSeq(SBool)) && HintsOf(BAZ_PAYLOAD) == []
  {
    var es := [VBool(false), VBool(true), VBool(false)];
    assert ConformsAll([], SBool);
    ConformsAllCons(VBool(false), [], SBool);
    assert [VBool(false)] + [] == es[2..];
    ConformsAllCons(VBool(true), es[2..], SBool);
    assert [VBool(true)] + es[2..] == es[1..];
    ConformsAllCons(VBool(false), es[1..], SBool);
    assert [VBool(false)] + es[1..] == es;
    HintsCons(VBool(false), [], []);
    HintsCons(VBool(true), es[2..], []);
    HintsCons(VBool(false), es[1..], []);
  }

  /// In `Cafebabe<T>`, `Baz` is the second variant, with a u64, a string, a T
  /// and a map from strings to i64s.
  lemma BazVariant(t: Shape)
    ensures VariantIndex(CafebabeShape(t).variants, "Baz") == 1
    ensures CafebabeShape(t).variants[1].payload == PFields([SInt(U64), SStr, t, SMap(SStr, SInt(I64))])
  {
    var s := CafebabeShape(t);
    assert s.variants[0].name != "Baz" by { assert s.variants[0].name[2] != 'z'; }
    assert s.variants[1].name == "Baz";
  }

  const BAZ_FIELD_SHAPES: seq<Shape> := [SInt(U64), SStr, SSeq(SBool), SMap(SStr, SInt(I64))]

  /// The four fields: a u64, a string, a `Vec<bool>` and the map.
  lemma BazFieldsConform()
    ensures forall i :: 0 <= i < 4 ==> Conforms(BAZ_FIELDS[i], BAZ_FIELD_SHAPES[i]) && HintsOf(BAZ_FIELDS[i]) == []
  {
    assert InRange(U64, 0xffff_ffff_ffff_ffff);
    AsciiIsValid(BEE.utf8);
    BazPayloadConforms();
    BazMappingConforms();
    forall i | 0 <= i < 4
      ensures Conforms(BAZ_FIELDS[i], BAZ_FIELD_SHAPES[i]) && HintsOf(BAZ_FIELDS[i]) == []
    {
      if i == 0 {
      } else if i == 1 {
      } else if i == 2 {
      } else {
        assert i == 3;
      }
    }
  }

  /// `Cafebabe::Baz` with a `Vec<bool>` payload is a value of `Cafebabe<Vec<bool>>`
  /// and asks for the one hint ["Baz"].
  lemma BazConforms()
    ensures Conforms(CAFEBABE_BAZ, CafebabeShape(SSeq(SBool))) && HintsOf(CAFEBABE_BAZ) == ["Baz"]
  {
    BazFieldsConform();
    BazVariant(SSeq(SBool));
    FieldsVariantConforms("Baz", BAZ_FIELDS, CafebabeShape(SSeq(SBool)), BAZ_FIELD_SHAPES);
  }

  /// Reading the golden bytes back takes the hint ["Baz"], whichever mode.
  lemma CafebabeBazBoxedDecoding(canonical: bool)
    ensures ValueAt(BoxedShape(CafebabeShape(SSeq(SBool))), CAFEBABE_BAZ_SERIALIZED_BOXED, canonical, 0, ["Baz"])
         == Ok(Decoded(BoxedValue(Boxed(BAZ_ID, CAFEBABE_BAZ)), |CAFEBABE_BAZ_SERIALIZED_BOXED|, []))
  {
    CafebabeBazBoxedEncoding();
    BazConforms();
    BoxedConforms(Boxed(BAZ_ID, CAFEBABE_BAZ), CafebabeShape(SSeq(SBool)));
    DecodesFromItsEncoding(BoxedValue(Boxed(BAZ_ID, CAFEBABE_BAZ)), BoxedShape(CafebabeShape(SSeq(SBool))),
                           CAFEBABE_BAZ_SERIALIZED_BOXED, canonical);
  }
}
