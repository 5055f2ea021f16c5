// The size predictor (src/sized.rs): how many bytes a value's encoding will
// take, computed without serializing it, and how that compares with what the
// serializer writes.
module Sized {
  import opened Errors
  import opened Bytes
  import opened Ints
  import opened Utils
  import opened Values
  import opened Ser
  import opened RoundTrip

  const BOOL_SIZE: nat := 4
  const INT_SIZE: nat := 4
  const LONG_SIZE: nat := 8
  const DOUBLE_SIZE: nat := 8
  const INT128_SIZE: nat := 16
  /// `mem::size_of::<usize>()` on the 64-bit targets this model fixes.
  const USIZE_BYTES: nat := 8

  /// The size of an integer of kind k: an int for everything up to 32 bits,
  /// a long for 64 bits. `usize` and `isize` are `U64` and `I64` here.
  function IntSize(k: IntKind): (n: nat)
    ensures n == |EncodeInt(k, 0)|
  {
    match k
    case I8 | I16 | I32 | U8 | U16 | U32 => INT_SIZE
    case I64 | U64 => LONG_SIZE
  }

  /// `max(size_of::<usize>(), INT_SIZE)` is a long's size.
  lemma UsizeIsLong()
    ensures (if USIZE_BYTES > INT_SIZE then USIZE_BYTES else INT_SIZE) == LONG_SIZE == IntSize(U64)
  {
  }

  /// The size of a string of len bytes, as written: a long string is given
  /// its data and padding but not its four header bytes.
  function StrSizeHintAsWritten(len: nat): (r: Result<nat>)
    ensures r.Ok? <==> len <= MAX_BYTE_STRING_LEN
    ensures r.Err? ==> r.error == StringTooLong(len)
  {
    if len <= 253 then Ok((len + 1) + (4 - (len + 1) % 4) % 4)
    else if len <= MAX_BYTE_STRING_LEN then Ok(len + (4 - len % 4) % 4)
    else Err(StringTooLong(len))
  }

  /// The size of a string of len bytes as the serializer writes it: the
  /// header (one byte, or four for a long string), the data and the padding.
  function StrSizeHint(len: nat): (r: Result<nat>)
    ensures r.Ok? <==> len <= MAX_BYTE_STRING_LEN
    ensures r.Err? ==> r.error == StringTooLong(len)
    ensures r.Ok? ==> r.value % 4 == 0 && r.value > len
  {
    if len <= 253 then Ok((len + 1) + (4 - (len + 1) % 4) % 4)
    else if len <= MAX_BYTE_STRING_LEN then Ok(4 + len + (4 - len % 4) % 4)
    else Err(StringTooLong(len))
  }

  /// The predicted size of a string is the length of its encoding, and both
  /// refuse the same lengths with the same error.
  lemma StrSizeHintExact(data: seq<byte>)
    ensures StrSizeHint(|data|).Ok? == EncodeByteString(data).Ok?
    ensures StrSizeHint(|data|).Ok? ==> StrSizeHint(|data|).value == |EncodeByteString(data).value|
    ensures StrSizeHint(|data|).Err? ==> StrSizeHint(|data|).error == EncodeByteString(data).error
  {
  }

  /// As written, the predicted size of a long string falls short of its
  /// encoding by exactly the four header bytes; short strings and refused
  /// lengths are predicted right.
  lemma StrSizeHintAsWrittenShort(data: seq<byte>)
    ensures |data| <= 253 ==> StrSizeHintAsWritten(|data|) == StrSizeHint(|data|)
    ensures 254 <= |data| <= MAX_BYTE_STRING_LEN ==>
      StrSizeHintAsWritten(|data|).value + 4 == |EncodeByteString(data).value|
    ensures |data| > MAX_BYTE_STRING_LEN ==> StrSizeHintAsWritten(|data|) == StrSizeHint(|data|)
  {
    StrSizeHintExact(data);
  }

  /// A 254-byte string, the shortest long one: predicted 256 bytes, written 260.
  lemma StrSizeHintAsWrittenCounterexample()
    ensures var data := seq(254, i => 0x61);
      StrSizeHintAsWritten(|data|) == Ok(256) && |EncodeByteString(data).value| == 260
  {
    var data := seq(254, i => 0x61);
    StrSizeHintExact(data);
  }

  /// v is a value of a type that implements `MtProtoSized`: chars and
  /// options have no implementation, while `()` has one although the
  /// serializer refuses it.
  predicate Sizable(v: Value)
    ensures v.VChar? || v.VNone? || v.VSome? ==> !Sizable(v)
    ensures v.VUnit? ==> Sizable(v)
  {
    match v
    case VChar(_) => false
    case VNone => false
    case VSome(_) => false
    case VSeq(_, es) => forall i :: 0 <= i < |es| ==> Sizable(es[i])
    case VMap(_, kvs) => forall i :: 0 <= i < |kvs| ==> Sizable(kvs[i])
    case VTuple(fs) => forall i :: 0 <= i < |fs| ==> Sizable(fs[i])
    case VNewtypeStruct(x) => Sizable(x)
    case VNewtypeVariant(_, x) => Sizable(x)
    case VFieldsVariant(_, fs) => forall i :: 0 <= i < |fs| ==> Sizable(fs[i])
    case _ => true
  }

  /// `size_hint` of a value. Sequences and maps check that their length fits
  /// a u32 and add four bytes for it; tuples, structs and enum variants are
  /// the sum of their fields (the derived implementations), unit structs,
  /// unit variants and `()` have size 0. The first error is reported.
  function SizeHint(v: Value): (r: Result<nat>)
    requires Sizable(v)
    ensures r.Ok? ==> r.value % 4 == 0
    ensures r.Err? ==> r.error.SeqTooLong? || r.error.StringTooLong?
    decreases v, 1
  {
    match v
    case VBool(_) => Ok(BOOL_SIZE)
    case VInt(k, _) => Ok(IntSize(k))
    case VStr(s) => StrSizeHint(|s|)
    case VBytes(b) => StrSizeHint(|b|)
    case VSeq(_, es) => SeqSizeHint(es)
    case VMap(_, kvs) =>
      var _ :- CheckSeqLen(|kvs| / 2);
      SumSizes(4, kvs)
    case VTuple(fs) => SumSizes(0, fs)
    case VUnitStruct => Ok(0)
    case VNewtypeStruct(x) => SizeHint(x)
    case VUnitVariant(_) => Ok(0)
    case VNewtypeVariant(_, x) => SizeHint(x)
    case VFieldsVariant(_, fs) => SumSizes(0, fs)
    case VUnit => Ok(0)
  }

  /// The size of a slice or `Vec`: its length must fit a u32.
  function SeqSizeHint(es: seq<Value>): (r: Result<nat>)
    requires forall i :: 0 <= i < |es| ==> Sizable(es[i])
    ensures |es| > U32_MAX ==> r == Err(SeqTooLong(|es|))
    ensures r.Ok? ==> r.value % 4 == 0 && r.value >= 4
    ensures r.Err? ==> r.error.SeqTooLong? || r.error.StringTooLong?
    decreases es, 1
  {
    var _ :- CheckSeqLen(|es|);
    SumSizes(4, es)
  }

  /// acc plus the sizes of es, or the first error among them.
  function SumSizes(acc: nat, es: seq<Value>): (r: Result<nat>)
    requires forall i :: 0 <= i < |es| ==> Sizable(es[i])
    ensures r.Ok? ==> r.value >= acc
    ensures r.Ok? && acc % 4 == 0 ==> r.value % 4 == 0
    ensures r.Err? ==> r.error.SeqTooLong? || r.error.StringTooLong?
    decreases es, 0
  {
    if es == [] then Ok(acc)
    else
      var n :- SizeHint(es[0]);
      SumSizes(acc + n, es[1..])
  }

  /// The unit type has a size but no encoding.
  lemma UnitSizedButRefused()
    ensures SizeHint(VUnit) == Ok(0) && Encode(VUnit) == Err(SerUnsupportedType(SerUnit))
  {
  }

  /// For every value of a Rust type, the predicted size is the length of the
  /// encoding.
  lemma {:induction false} SizeHintIsEncodedLength(v: Value, s: Shape)
    requires Conforms(v, s)
    ensures Sizable(v) && Encode(v).Ok? && SizeHint(v) == Ok(|Encode(v).value|)
    decreases v, 2
  {
    ConformsSizable(v, s);
    match v
    case VStr(b) => StrSizeHintExact(b);
    case VBytes(b) => StrSizeHintExact(b);
    case VSeq(_, _) => SeqSizeExact(v, s);
    case VMap(_, _) => MapSizeExact(v, s);
    case VTuple(fs) => FieldsSizes(fs, s.fields, |fs|, 0, 0);
    case VNewtypeStruct(x) => SizeHintIsEncodedLength(x, s.inner);
    case VNewtypeVariant(name, x) => NewtypeVariantSizeExact(v, s);
    case VFieldsVariant(name, fs) => FieldsVariantSizeExact(v, s);
    case _ =>
  }

  lemma {:induction false} SeqSizeExact(v: Value, s: Shape)
    requires v.VSeq? && Conforms(v, s)
    ensures Sizable(v) && Encode(v).Ok? && SizeHint(v) == Ok(|Encode(v).value|)
    decreases v, 1
  {
    var n := v.len.value;
    ElemsSizes(v.elems, s.elem, n, 0, 4);
    assert Encode(v).value == EncodeInt(U32, n) + EncodeElems(n, 0, v.elems).value;
  }

  lemma {:induction false} MapSizeExact(v: Value, s: Shape)
    requires v.VMap? && Conforms(v, s)
    ensures Sizable(v) && Encode(v).Ok? && SizeHint(v) == Ok(|Encode(v).value|)
    decreases v, 1
  {
    var n := v.len.value;
    EntriesEven(v.kvs, s.key, s.val);
    EntriesSizes(v.kvs, s.key, s.val, n, 0, 4);
    assert Encode(v).value == EncodeInt(U32, n) + EncodeEntries(n, 0, v.kvs).value;
  }

  lemma {:induction false} NewtypeVariantSizeExact(v: Value, s: Shape)
    requires v.VNewtypeVariant? && Conforms(v, s)
    ensures Sizable(v) && Encode(v).Ok? && SizeHint(v) == Ok(|Encode(v).value|)
    decreases v, 1
  {
    SizeHintIsEncodedLength(v.payload, s.variants[VariantIndex(s.variants, v.variant)].payload.shape);
  }

  lemma {:induction false} FieldsVariantSizeExact(v: Value, s: Shape)
    requires v.VFieldsVariant? && Conforms(v, s)
    ensures Sizable(v) && Encode(v).Ok? && SizeHint(v) == Ok(|Encode(v).value|)
    decreases v, 1
  {
    var fs := v.fields;
    FieldsSizes(fs, s.variants[VariantIndex(s.variants, v.variant)].payload.fields, |fs|, 0, 0);
  }

  lemma {:induction false} ElemsSizes(es: seq<Value>, e: Shape, len: nat, next: nat, acc: nat)
    requires ConformsAll(es, e) && next + |es| <= len
    ensures (forall i :: 0 <= i < |es| ==> Sizable(es[i])) && EncodeElems(len, next, es).Ok?
    ensures SumSizes(acc, es) == Ok(acc + |EncodeElems(len, next, es).value|)
    decreases es, 0
  {
    ConformsAllSizable(es, e);
    if es != [] {
      SizeHintIsEncodedLength(es[0], e);
      ElemsSizes(es[1..], e, len, next + 1, acc + |Encode(es[0]).value|);
      assert EncodeElems(len, next, es).value == Encode(es[0]).value + EncodeElems(len, next + 1, es[1..]).value;
    }
  }

  lemma {:induction false} EntriesSizes(kvs: seq<Value>, k: Shape, s: Shape, len: nat, next: nat, acc: nat)
    requires ConformsEntries(kvs, k, s) && 2 * next + |kvs| <= 2 * len
    ensures (forall i :: 0 <= i < |kvs| ==> Sizable(kvs[i])) && EncodeEntries(len, next, kvs).Ok?
    ensures SumSizes(acc, kvs) == Ok(acc + |EncodeEntries(len, next, kvs).value|)
    decreases kvs, 1
  {
    ConformsEntriesSizable(kvs, k, s);
    if kvs != [] {
      SizeHintIsEncodedLength(kvs[0], k);
      assert kvs[1..][1..] == kvs[2..];
      ValuesSizes(kvs[1..], k, s, len, next + 1, acc + |Encode(kvs[0]).value|);
      assert EncodeEntries(len, next, kvs).value == Encode(kvs[0]).value + EncodeValues(len, next + 1, kvs[1..]).value;
    }
  }

  lemma {:induction false} ValuesSizes(vks: seq<Value>, k: Shape, s: Shape, len: nat, next: nat, acc: nat)
    requires ValueThenEntries(vks, k, s) && 2 * next + |vks| <= 2 * len + 1
    ensures (forall i :: 0 <= i < |vks| ==> Sizable(vks[i])) && EncodeValues(len, next, vks).Ok?
    ensures SumSizes(acc, vks) == Ok(acc + |EncodeValues(len, next, vks).value|)
    decreases vks, 0
  {
    SizeHintIsEncodedLength(vks[0], s);
    EntriesSizes(vks[1..], k, s, len, next, acc + |Encode(vks[0]).value|);
    assert forall i :: 1 <= i < |vks| ==> vks[i] == vks[1..][i - 1];
    assert EncodeValues(len, next, vks).value == Encode(vks[0]).value + EncodeEntries(len, next, vks[1..]).value;
  }

  lemma {:induction false} FieldsSizes(fs: seq<Value>, ss: seq<Shape>, len: nat, next: nat, acc: nat)
    requires ConformsFields(fs, ss) && next + |fs| <= len
    ensures (forall i :: 0 <= i < |fs| ==> Sizable(fs[i])) && EncodeElems(len, next, fs).Ok?
    ensures SumSizes(acc, fs) == Ok(acc + |EncodeElems(len, next, fs).value|)
    decreases fs, 0
  {
    ConformsFieldsSizable(fs, ss);
    if fs != [] {
      SizeHintIsEncodedLength(fs[0], ss[0]);
      FieldsSizes(fs[1..], ss[1..], len, next + 1, acc + |Encode(fs[0]).value|);
      assert EncodeElems(len, next, fs).value == Encode(fs[0]).value + EncodeElems(len, next + 1, fs[1..]).value;
    }
  }

  /// Every value of a Rust type is sizable.
  lemma {:induction false} ConformsSizable(v: Value, s: Shape)
    requires Conforms(v, s)
    ensures Sizable(v)
    decreases v, 1
  {
    match v
    case VSeq(_, es) => ConformsAllSizable(es, s.elem);
    case VMap(_, kvs) => ConformsEntriesSizable(kvs, s.key, s.val);
    case VTuple(fs) => ConformsFieldsSizable(fs, s.fields);
    case VNewtypeStruct(x) => ConformsSizable(x, s.inner);
    case VNewtypeVariant(name, x) =>
      ConformsSizable(x, s.variants[VariantIndex(s.variants, name)].payload.shape);
    case VFieldsVariant(name, fs) =>
      ConformsFieldsSizable(fs, s.variants[VariantIndex(s.variants, name)].payload.fields);
    case _ =>
  }

  lemma {:induction false} ConformsAllSizable(es: seq<Value>, e: Shape)
    requires ConformsAll(es, e)
    ensures forall i :: 0 <= i < |es| ==> Sizable(es[i])
    decreases es, 0
  {
    if es != [] {
      ConformsSizable(es[0], e);
      ConformsAllSizable(es[1..], e);
      assert forall i :: 1 <= i < |es| ==> es[i] == es[1..][i - 1];
    }
  }

  lemma {:induction false} ConformsEntriesSizable(kvs: seq<Value>, k: Shape, s: Shape)
    requires ConformsEntries(kvs, k, s)
    ensures forall i :: 0 <= i < |kvs| ==> Sizable(kvs[i])
    decreases kvs, 0
  {
    if kvs != [] {
      ConformsSizable(kvs[0], k);
      ConformsSizable(kvs[1], s);
      ConformsEntriesSizable(kvs[2..], k, s);
      assert forall i :: 2 <= i < |kvs| ==> kvs[i] == kvs[2..][i - 2];
    }
  }

  lemma {:induction false} ConformsFieldsSizable(fs: seq<Value>, ss: seq<Shape>)
    requires ConformsFields(fs, ss)
    ensures forall i :: 0 <= i < |fs| ==> Sizable(fs[i])
    decreases fs, 0
  {
    if fs != [] {
      ConformsSizable(fs[0], ss[0]);
      ConformsFieldsSizable(fs[1..], ss[1..]);
      assert forall i :: 1 <= i < |fs| ==> fs[i] == fs[1..][i - 1];
    }
  }

  /// The loop of the slice implementation: the length check, then four bytes
  /// for the length plus each element's size, stopping at the first error.
  method SliceSizeHint(es: seq<Value>) returns (r: Result<nat>)
    requires forall i :: 0 <= i < |es| ==> Sizable(es[i])
    ensures r == SeqSizeHint(es)
  {
    var _ :- CheckSeqLen(|es|);
    var result: nat := 4;
    var i := 0;
    assert es[0..] == es;
    while i < |es|
      invariant 0 <= i <= |es|
      invariant SumSizes(4, es) == SumSizes(result, es[i..])
    {
      assert es[i..][0] == es[i] && es[i..][1..] == es[i + 1..];
      var n :- SizeHint(es[i]);
      result := result + n;
      i := i + 1;
    }
    return Ok(result);
  }

  /// The loop of the map implementations: for each entry, the key's size and
  /// then the value's.
  method MapSizeHint(kvs: seq<Value>) returns (r: Result<nat>)
    requires |kvs| % 2 == 0 && forall i :: 0 <= i < |kvs| ==> Sizable(kvs[i])
    ensures r == SizeHint(VMap(Some(|kvs| / 2), kvs))
  {
    var _ :- CheckSeqLen(|kvs| / 2);
    var result: nat := 4;
    var i := 0;
    assert kvs[0..] == kvs;
    while i < |kvs| / 2
      invariant 0 <= i <= |kvs| / 2
      invariant SumSizes(4, kvs) == SumSizes(result, kvs[2 * i..])
    {
      var rest := kvs[2 * i..];
      assert rest[0] == kvs[2 * i] && rest[1..][0] == kvs[2 * i + 1] && rest[1..][1..] == kvs[2 * i + 2..];
      var k :- SizeHint(kvs[2 * i]);
      result := result + k;
      var v :- SizeHint(kvs[2 * i + 1]);
      result := result + v;
      i := i + 1;
    }
    assert kvs[2 * i..] == [];
    return Ok(result);
  }

  /// The loop of the tuple implementations: the sum of the components' sizes.
  method TupleSizeHint(fs: seq<Value>) returns (r: Result<nat>)
    requires forall i :: 0 <= i < |fs| ==> Sizable(fs[i])
    ensures r == SizeHint(VTuple(fs))
  {
    var result: nat := 0;
    var i := 0;
    assert fs[0..] == fs;
    while i < |fs|
      invariant 0 <= i <= |fs|
      invariant SumSizes(0, fs) == SumSizes(result, fs[i..])
    {
      assert fs[i..][0] == fs[i] && fs[i..][1..] == fs[i + 1..];
      var n :- SizeHint(fs[i]);
      result := result + n;
      i := i + 1;
    }
    return Ok(result);
  }
}
