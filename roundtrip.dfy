// Reading back what the serializer wrote: every value of a Rust type, once
// serialized, deserializes as a value of that type to itself, consuming
// exactly its own bytes and exactly its own enum variant hints, with or without
// the canonical-form checks.
module RoundTrip {
  import opened Errors
  import opened Bytes
  import opened Ints
  import opened Utils
  import opened Values
  import opened Utf8
  import opened Ser
  import opened De
  import Identifiable

  /// enc occurs in input at pos.
  predicate Within(input: seq<byte>, pos: nat, enc: seq<byte>)
  {
    pos + |enc| <= |input| && input[pos..pos + |enc|] == enc
  }

  lemma SubSlice(input: seq<byte>, pos: nat, enc: seq<byte>, a: nat, b: nat)
    requires Within(input, pos, enc) && a <= b <= |enc|
    ensures input[pos + a..pos + b] == enc[a..b]
  {
    forall i | 0 <= i < b - a
      ensures input[pos + a..pos + b][i] == enc[a..b][i]
    {
      assert input[pos + a + i] == input[pos..pos + |enc|][a + i];
    }
  }

  lemma WithinSplit(input: seq<byte>, pos: nat, a: seq<byte>, b: seq<byte>)
    requires Within(input, pos, a + b)
    ensures Within(input, pos, a) && Within(input, pos + |a|, b)
  {
    SubSlice(input, pos, a + b, 0, |a|);
    SubSlice(input, pos, a + b, |a|, |a| + |b|);
    assert (a + b)[..|a|] == a && (a + b)[|a|..] == b;
  }

  /// A w-byte pattern read back from its own little-endian bytes.
  lemma ReadBack(input: seq<byte>, pos: nat, p: nat, w: nat)
    requires p < Pow256(w) && Within(input, pos, LE(p, w))
    ensures UintAt(input, pos, w) == Ok((p, pos + w))
  {
    var bytes := input[pos..pos + w];
    assert bytes == LE(p, w);
    FromLEofLE(p, w);
    ModUnique(p, Pow256(w), 0, p);
    assert FromLE(bytes) == p;
  }

  /// Every value of a Rust type can be serialized.
  lemma {:induction false} ConformingEncodes(v: Value, s: Shape)
    requires Conforms(v, s)
    ensures Encode(v).Ok?
    decreases v
  {
    match v
    case VSeq(len, es) =>
      ElemsEncode(es, s.elem, len.value, 0);
    case VMap(len, kvs) =>
      EntriesEven(kvs, s.key, s.val);
      EntriesEncode(kvs, s.key, s.val, len.value, 0);
    case VTuple(fs) =>
      FieldsEncode(fs, s.fields, |fs|, 0);
    case VNewtypeStruct(x) =>
      ConformingEncodes(x, s.inner);
    case VNewtypeVariant(name, x) =>
      ConformingEncodes(x, s.variants[VariantIndex(s.variants, name)].payload.shape);
    case VFieldsVariant(name, fs) =>
      FieldsEncode(fs, s.variants[VariantIndex(s.variants, name)].payload.fields, |fs|, 0);
    case _ =>
  }

  lemma {:induction false} ElemsEncode(es: seq<Value>, e: Shape, len: nat, next: nat)
    requires ConformsAll(es, e) && next + |es| <= len
    ensures EncodeElems(len, next, es).Ok?
    decreases es
  {
    if es != [] {
      ConformingEncodes(es[0], e);
      ElemsEncode(es[1..], e, len, next + 1);
    }
  }

  /// Keys and values alternate, so a map's entries are an even number of values.
  lemma {:induction false} EntriesEven(kvs: seq<Value>, k: Shape, s: Shape)
    requires ConformsEntries(kvs, k, s)
    ensures |kvs| % 2 == 0
    decreases kvs
  {
    if kvs != [] {
      EntriesEven(kvs[2..], k, s);
    }
  }

  lemma {:induction false} EntriesEncode(kvs: seq<Value>, k: Shape, s: Shape, len: nat, next: nat)
    requires ConformsEntries(kvs, k, s) && 2 * next + |kvs| <= 2 * len
    ensures EncodeEntries(len, next, kvs).Ok?
    decreases kvs
  {
    if kvs != [] {
      ConformingEncodes(kvs[0], k);
      assert kvs[1..][1..] == kvs[2..];
      assert ValueThenEntries(kvs[1..], k, s);
      ValuesEncode(kvs[1..], k, s, len, next + 1);
    }
  }

  lemma {:induction false} ValuesEncode(vks: seq<Value>, k: Shape, s: Shape, len: nat, next: nat)
    requires ValueThenEntries(vks, k, s) && 2 * next + |vks| <= 2 * len + 1
    ensures EncodeValues(len, next, vks).Ok?
    decreases vks
  {
    ConformingEncodes(vks[0], s);
    EntriesEncode(vks[1..], k, s, len, next);
  }

  lemma {:induction false} FieldsEncode(fs: seq<Value>, ss: seq<Shape>, len: nat, next: nat)
    requires ConformsFields(fs, ss) && next + |fs| <= len
    ensures EncodeElems(len, next, fs).Ok?
    decreases fs
  {
    if fs != [] {
      ConformingEncodes(fs[0], ss[0]);
      FieldsEncode(fs[1..], ss[1..], len, next + 1);
    }
  }

  /// The header of an encoded string reads back as its length and padding.
  lemma StrHeaderRoundTrip(data: seq<byte>, input: seq<byte>, canonical: bool, pos: nat)
    requires |data| <= MAX_BYTE_STRING_LEN
    requires Within(input, pos, EncodeByteString(data).value)
    ensures var len := |data|;
      StrInfoAt(input, canonical, pos)
      == if len <= 253 then Ok((StrInfo(len, PaddingFor(len + 1), false), pos + 1))
         else Ok((StrInfo(len, PaddingFor(len), true), pos + 4))
  {
    var enc := EncodeByteString(data).value;
    var len := |data|;
    SubSlice(input, pos, enc, 0, 1);
    if len <= 253 {
      assert enc[0..1] == [len];
      assert UintAt(input, pos, 1) == Ok((len as nat, (pos + 1) as nat));
    } else {
      assert enc[0..1] == [254];
      assert UintAt(input, pos, 1) == Ok((254 as nat, (pos + 1) as nat));
      SubSlice(input, pos, enc, 1, 4);
      assert enc[1..4] == LE(len, 3);
      Pow256Widths();
      assert Pow256(3) == 0x100_0000;
      ReadBack(input, pos + 1, len, 3);
    }
  }

  /// A string or byte string reads back as its data, padding included.
  lemma ByteStringRoundTrip(data: seq<byte>, input: seq<byte>, canonical: bool, text: bool, pos: nat)
    requires |data| <= MAX_BYTE_STRING_LEN && (text ==> ValidUtf8(data))
    requires Within(input, pos, EncodeByteString(data).value)
    ensures ByteStringAt(input, canonical, text, pos) == Ok((data, pos + |EncodeByteString(data).value|))
  {
    var enc := EncodeByteString(data).value;
    var len := |data|;
    var h: nat := if len <= 253 then 1 else 4;
    var p := if len <= 253 then PaddingFor(len + 1) else PaddingFor(len);
    StrHeaderRoundTrip(data, input, canonical, pos);
    EncodedParts(data, h, p);
    SubSlice(input, pos, enc, h, h + len);
    SubSlice(input, pos, enc, h + len, |enc|);
    ZerosAllZero(p);
    ByteStringAtParts(input, canonical, text, pos, StrInfo(len, p, len > 253), pos + h, data, Zeros(p));
  }

  /// Where the data and the padding sit in an encoded string.
  lemma EncodedParts(data: seq<byte>, h: nat, p: nat)
    requires |data| <= MAX_BYTE_STRING_LEN
    requires h == if |data| <= 253 then 1 else 4
    requires p == if |data| <= 253 then PaddingFor(|data| + 1) else PaddingFor(|data|)
    ensures var enc := EncodeByteString(data).value;
      |enc| == h + |data| + p && enc[h..h + |data|] == data && enc[h + |data|..] == Zeros(p)
  {
    var enc := EncodeByteString(data).value;
    var head := if |data| <= 253 then [|data|] else [254] + LE(|data|, 3);
    assert enc == head + data + Zeros(p);
  }

  lemma ZerosAllZero(p: nat)
    ensures AllZero(Zeros(p))
  {
  }

  /// A string read in its three steps: header, data, padding.
  lemma ByteStringAtParts(input: seq<byte>, canonical: bool, text: bool, pos: nat,
                          info: StrInfo, p1: nat, data: seq<byte>, pad: seq<byte>)
    requires StrInfoAt(input, canonical, pos) == Ok((info, p1))
    requires |data| == info.len && Within(input, p1, data) && (text ==> ValidUtf8(data))
    requires |pad| == info.padding && Within(input, p1 + |data|, pad) && (canonical ==> AllZero(pad))
    ensures ByteStringAt(input, canonical, text, pos) == Ok((data, p1 + |data| + |pad|))
  {
    BytesAtWithin(input, p1, info.len, data);
    BytesAtWithin(input, p1 + |data|, info.padding, pad);
    ByteStringAtSteps(input, canonical, text, pos, info, p1, data, p1 + |data|, pad, p1 + |data| + |pad|);
  }

  /// The same, given what each of the three reads returns.
  lemma ByteStringAtSteps(input: seq<byte>, canonical: bool, text: bool, pos: nat,
                          info: StrInfo, p1: nat, data: seq<byte>, p2: nat, pad: seq<byte>, p3: nat)
    requires StrInfoAt(input, canonical, pos) == Ok((info, p1))
    requires BytesAt(input, p1, info.len) == Ok((data, p2)) && (text ==> ValidUtf8(data))
    requires BytesAt(input, p2, info.padding) == Ok((pad, p3)) && (canonical ==> AllZero(pad))
    ensures ByteStringAt(input, canonical, text, pos) == Ok((data, p3))
  {
  }

  /// n bytes known to sit at p are read back from p.
  lemma BytesAtWithin(input: seq<byte>, p: nat, n: nat, d: seq<byte>)
    requires n == |d| && Within(input, p, d)
    ensures BytesAt(input, p, n) == Ok((d, p + n))
  {
  }

  /// The heart of the round trip: the bytes of a value of shape s, followed by
  /// anything, read as shape s give back the value and stop right after its
  /// bytes, having used up exactly its variant hints.
  lemma {:induction false} DecodeEncoded(v: Value, s: Shape, input: seq<byte>, canonical: bool, pos: nat, more: seq<string>)
    requires Conforms(v, s) && Encode(v).Ok? && Within(input, pos, Encode(v).value)
    ensures ValueAt(s, input, canonical, pos, HintsOf(v) + more) == Ok(Decoded(v, pos + |Encode(v).value|, more))
    decreases v, 1
  {
    match v
    case VBool(_) => DecodeBool(v, s, input, canonical, pos, more);
    case VInt(_, _) => DecodeInt(v, s, input, canonical, pos, more);
    case VStr(_) => DecodeByteString(v, s, input, canonical, pos, more);
    case VBytes(_) => DecodeByteString(v, s, input, canonical, pos, more);
    case VSeq(_, _) => DecodeSeq(v, s, input, canonical, pos, more);
    case VMap(_, _) => DecodeMap(v, s, input, canonical, pos, more);
    case VTuple(_) => DecodeTuple(v, s, input, canonical, pos, more);
    case VUnitStruct => DecodeUnitStruct(v, s, input, canonical, pos, more);
    case VNewtypeStruct(_) => DecodeNewtype(v, s, input, canonical, pos, more);
    case VUnitVariant(_) => DecodeUnitVariant(v, s, input, canonical, pos, more);
    case VNewtypeVariant(_, _) => DecodeNewtypeVariant(v, s, input, canonical, pos, more);
    case VFieldsVariant(_, _) => DecodeFieldsVariant(v, s, input, canonical, pos, more);
  }

  lemma DecodeBool(v: Value, s: Shape, input: seq<byte>, canonical: bool, pos: nat, more: seq<string>)
    requires v.VBool? && Conforms(v, s) && Encode(v).Ok? && Within(input, pos, Encode(v).value)
    ensures ValueAt(s, input, canonical, pos, HintsOf(v) + more) == Ok(Decoded(v, pos + |Encode(v).value|, more))
  {
    assert HintsOf(v) + more == more;
    Pow256Widths();
    ReadBack(input, pos, Identifiable.TypeId(Identifiable.IBool(v.b)), 4);
    assert BoolAt(input, pos) == Ok((v.b, pos + 4));
  }

  lemma DecodeInt(v: Value, s: Shape, input: seq<byte>, canonical: bool, pos: nat, more: seq<string>)
    requires v.VInt? && Conforms(v, s) && Encode(v).Ok? && Within(input, pos, Encode(v).value)
    ensures ValueAt(s, input, canonical, pos, HintsOf(v) + more) == Ok(Decoded(v, pos + |Encode(v).value|, more))
  {
    assert HintsOf(v) + more == more;
    var k, n := v.kind, v.n;
    var w := k.Wire().Width();
    ReadBack(input, pos, Pattern(n, w), w);
    WireWidens(k, n);
    InterpretPattern(k.Wire(), n);
    assert IntAt(k, input, pos) == Ok((n, (pos + w) as nat));
  }

  lemma DecodeByteString(v: Value, s: Shape, input: seq<byte>, canonical: bool, pos: nat, more: seq<string>)
    requires (v.VStr? || v.VBytes?) && Conforms(v, s) && Encode(v).Ok? && Within(input, pos, Encode(v).value)
    ensures ValueAt(s, input, canonical, pos, HintsOf(v) + more) == Ok(Decoded(v, pos + |Encode(v).value|, more))
  {
    assert HintsOf(v) + more == more;
    if v.VStr? {
      ByteStringRoundTrip(v.utf8, input, canonical, true, pos);
      ByteStringShape(true, input, canonical, pos, more, v.utf8, pos + |Encode(v).value|);
    } else {
      ByteStringRoundTrip(v.bytes, input, canonical, false, pos);
      ByteStringShape(false, input, canonical, pos, more, v.bytes, pos + |Encode(v).value|);
    }
  }

  /// Reading a string or byte string shape is reading the byte string.
  lemma ByteStringShape(text: bool, input: seq<byte>, canonical: bool, pos: nat, hints: seq<string>,
                        data: seq<byte>, end: nat)
    requires ByteStringAt(input, canonical, text, pos) == Ok((data, end))
    ensures ValueAt(if text then SStr else SBytes, input, canonical, pos, hints)
         == Ok(Decoded(if text then VStr(data) else VBytes(data), end, hints))
  {
  }

  lemma DecodeUnitStruct(v: Value, s: Shape, input: seq<byte>, canonical: bool, pos: nat, more: seq<string>)
    requires v.VUnitStruct? && Conforms(v, s)
    ensures ValueAt(s, input, canonical, pos, HintsOf(v) + more) == Ok(Decoded(v, pos + |Encode(v).value|, more))
  {
    assert HintsOf(v) + more == more;
  }

  lemma {:induction false} DecodeNewtype(v: Value, s: Shape, input: seq<byte>, canonical: bool, pos: nat, more: seq<string>)
    requires v.VNewtypeStruct? && Conforms(v, s) && Encode(v).Ok? && Within(input, pos, Encode(v).value)
    ensures ValueAt(s, input, canonical, pos, HintsOf(v) + more) == Ok(Decoded(v, pos + |Encode(v).value|, more))
    decreases v, 0
  {
    DecodeEncoded(v.inner, s.inner, input, canonical, pos, more);
  }

  lemma {:induction false} DecodeTuple(v: Value, s: Shape, input: seq<byte>, canonical: bool, pos: nat, more: seq<string>)
    requires v.VTuple? && Conforms(v, s) && Encode(v).Ok? && Within(input, pos, Encode(v).value)
    ensures ValueAt(s, input, canonical, pos, HintsOf(v) + more) == Ok(Decoded(v, pos + |Encode(v).value|, more))
    decreases v, 0
  {
    var fs := v.fields;
    assert Encode(v) == EncodeElems(|fs|, 0, fs);
    FieldsDecode(fs, s.fields, |fs|, 0, input, canonical, pos, more);
    assert FieldsAt(s.fields, input, canonical, pos, HintsOfAll(fs) + more)
        == Ok(Decoded(fs, pos + |Encode(v).value|, more));
  }

  lemma {:induction false} DecodeSeq(v: Value, s: Shape, input: seq<byte>, canonical: bool, pos: nat, more: seq<string>)
    requires v.VSeq? && Conforms(v, s) && Encode(v).Ok? && Within(input, pos, Encode(v).value)
    ensures ValueAt(s, input, canonical, pos, HintsOf(v) + more) == Ok(Decoded(v, pos + |Encode(v).value|, more))
    decreases v, 0
  {
    SeqBodyDecodes(v, s, input, canonical, pos, more);
    SeqAtStep(s, input, canonical, pos, HintsOf(v) + more, v.len.value, v.elems, pos + |Encode(v).value|, more);
  }

  /// The count in front of an encoded sequence, and the elements after it, read back.
  lemma {:induction false} SeqBodyDecodes(v: Value, s: Shape, input: seq<byte>, canonical: bool, pos: nat, more: seq<string>)
    requires v.VSeq? && Conforms(v, s) && Encode(v).Ok? && Within(input, pos, Encode(v).value)
    ensures v.len.Some? && UintAt(input, pos, 4) == Ok((v.len.value, pos + 4))
    ensures ElemsAt(s.elem, v.len.value, input, canonical, pos + 4, HintsOf(v) + more)
         == Ok(Decoded(v.elems, pos + |Encode(v).value|, more))
    decreases v.elems, 3
  {
    var n := v.len.value;
    var body := EncodeElems(n, 0, v.elems).value;
    assert Encode(v).value == EncodeInt(U32, n) + body;
    WithinSplit(input, pos, EncodeInt(U32, n), body);
    CountReadBack(input, pos, n);
    assert HintsOf(v) == HintsOfAll(v.elems);
    ElemsDecode(v.elems, s.elem, n, 0, input, canonical, pos + 4, more);
  }

  lemma {:induction false} DecodeMap(v: Value, s: Shape, input: seq<byte>, canonical: bool, pos: nat, more: seq<string>)
    requires v.VMap? && Conforms(v, s) && Encode(v).Ok? && Within(input, pos, Encode(v).value)
    ensures ValueAt(s, input, canonical, pos, HintsOf(v) + more) == Ok(Decoded(v, pos + |Encode(v).value|, more))
    decreases v, 0
  {
    var n := v.len.value;
    var body := EncodeEntries(n, 0, v.kvs).value;
    assert Encode(v).value == EncodeInt(U32, n) + body;
    WithinSplit(input, pos, EncodeInt(U32, n), body);
    CountReadBack(input, pos, n);
    EntriesEven(v.kvs, s.key, s.val);
    assert HintsOf(v) == HintsOfAll(v.kvs);
    EntriesDecode(v.kvs, s, n, n, 0, input, canonical, pos + 4, more);
    assert v == VMap(Some(n), v.kvs) && |Encode(v).value| == 4 + |body|;
    MapAtStep(s, input, canonical, pos, HintsOf(v) + more, n, v.kvs, pos + |Encode(v).value|, more);
  }

  /// The u32 count in front of a sequence or map reads back.
  lemma CountReadBack(input: seq<byte>, pos: nat, n: nat)
    requires n <= U32_MAX && Within(input, pos, EncodeInt(U32, n))
    ensures UintAt(input, pos, 4) == Ok((n, pos + 4))
  {
    Pow256Widths();
    ModUnique(n, Pow256(4), 0, n);
    ReadBack(input, pos, n, 4);
  }

  lemma DecodeUnitVariant(v: Value, s: Shape, input: seq<byte>, canonical: bool, pos: nat, more: seq<string>)
    requires v.VUnitVariant? && Conforms(v, s)
    ensures ValueAt(s, input, canonical, pos, HintsOf(v) + more) == Ok(Decoded(v, pos + |Encode(v).value|, more))
  {
    var h := HintsOf(v) + more;
    assert h[0] == v.variant && h[1..] == more;
  }

  lemma {:induction false} DecodeNewtypeVariant(v: Value, s: Shape, input: seq<byte>, canonical: bool, pos: nat, more: seq<string>)
    requires v.VNewtypeVariant? && Conforms(v, s) && Encode(v).Ok? && Within(input, pos, Encode(v).value)
    ensures ValueAt(s, input, canonical, pos, HintsOf(v) + more) == Ok(Decoded(v, pos + |Encode(v).value|, more))
    decreases v, 0
  {
    var x := v.payload;
    var h := HintsOf(v) + more;
    assert h[0] == v.variant && h[1..] == HintsOf(x) + more;
    DecodeEncoded(x, s.variants[VariantIndex(s.variants, v.variant)].payload.shape, input, canonical, pos, more);
  }

  lemma {:induction false} DecodeFieldsVariant(v: Value, s: Shape, input: seq<byte>, canonical: bool, pos: nat, more: seq<string>)
    requires v.VFieldsVariant? && Conforms(v, s) && Encode(v).Ok? && Within(input, pos, Encode(v).value)
    ensures ValueAt(s, input, canonical, pos, HintsOf(v) + more) == Ok(Decoded(v, pos + |Encode(v).value|, more))
    decreases v, 0
  {
    var fs := v.fields;
    var ss := s.variants[VariantIndex(s.variants, v.variant)].payload.fields;
    var h := HintsOf(v) + more;
    assert h[0] == v.variant && h[1..] == HintsOfAll(fs) + more;
    assert Encode(v) == EncodeElems(|fs|, 0, fs);
    FieldsDecode(fs, ss, |fs|, 0, input, canonical, pos, more);
    FieldsAtFits(ss, input, canonical, pos, HintsOfAll(fs) + more);
    FieldsVariantAtStep(s, input, canonical, pos, h);
  }

  lemma {:induction false} ElemsDecode(es: seq<Value>, e: Shape, len: nat, next: nat,
                                       input: seq<byte>, canonical: bool, pos: nat, more: seq<string>)
    requires ConformsAll(es, e) && EncodeElems(len, next, es).Ok?
    requires Within(input, pos, EncodeElems(len, next, es).value)
    ensures ElemsAt(e, |es|, input, canonical, pos, HintsOfAll(es) + more)
         == Ok(Decoded(es, pos + |EncodeElems(len, next, es).value|, more))
    decreases es, 2
  {
    if es == [] {
      assert HintsOfAll(es) + more == more;
    } else {
      EncodeElemsSplit(len, next, es);
      var head := Encode(es[0]).value;
      var tail := EncodeElems(len, next + 1, es[1..]).value;
      var h := HintsOfAll(es[1..]) + more;
      WithinSplit(input, pos, head, tail);
      DecodeEncoded(es[0], e, input, canonical, pos, h);
      ElemsDecode(es[1..], e, len, next + 1, input, canonical, pos + |head|, more);
      assert pos + |head| + |tail| == pos + |EncodeElems(len, next, es).value|;
      ElemsCons(e, input, canonical, pos, es, pos + |head|, pos + |EncodeElems(len, next, es).value|, more);
    }
  }

  /// The hints of a nonempty run of values, then more: the first value's, then the rest.
  lemma HintsSplit(es: seq<Value>, more: seq<string>)
    requires es != []
    ensures HintsOfAll(es) + more == HintsOf(es[0]) + (HintsOfAll(es[1..]) + more)
  {
  }

  lemma ConsBack(es: seq<Value>)
    requires es != []
    ensures [es[0]] + es[1..] == es
  {
  }

  /// A decoded element in front of the decoded rest is one more decoded element.
  /// The encoding of a non-empty run of elements is its first element's
  /// encoding followed by the rest's.
  lemma EncodeElemsSplit(len: nat, next: nat, es: seq<Value>)
    requires es != [] && EncodeElems(len, next, es).Ok?
    ensures Encode(es[0]).Ok? && EncodeElems(len, next + 1, es[1..]).Ok?
    ensures EncodeElems(len, next, es).value == Encode(es[0]).value + EncodeElems(len, next + 1, es[1..]).value
  {
  }

  /// The same for a run of map entries that starts with a key ...
  lemma EncodeEntriesSplit(len: nat, next: nat, kvs: seq<Value>)
    requires kvs != [] && EncodeEntries(len, next, kvs).Ok?
    ensures Encode(kvs[0]).Ok? && EncodeValues(len, next + 1, kvs[1..]).Ok?
    ensures EncodeEntries(len, next, kvs).value == Encode(kvs[0]).value + EncodeValues(len, next + 1, kvs[1..]).value
  {
  }

  /// ... and for one that starts with a value.
  lemma EncodeValuesSplit(len: nat, next: nat, vks: seq<Value>)
    requires vks != [] && EncodeValues(len, next, vks).Ok?
    ensures Encode(vks[0]).Ok? && EncodeEntries(len, next, vks[1..]).Ok?
    ensures EncodeValues(len, next, vks).value == Encode(vks[0]).value + EncodeEntries(len, next, vks[1..]).value
  {
  }

  lemma ElemsCons(e: Shape, input: seq<byte>, canonical: bool, pos: nat,
                  es: seq<Value>, p: nat, end: nat, more: seq<string>)
    requires es != []
    requires ValueAt(e, input, canonical, pos, HintsOf(es[0]) + (HintsOfAll(es[1..]) + more))
          == Ok(Decoded(es[0], p, HintsOfAll(es[1..]) + more))
    requires ElemsAt(e, |es| - 1, input, canonical, p, HintsOfAll(es[1..]) + more) == Ok(Decoded(es[1..], end, more))
    ensures ElemsAt(e, |es|, input, canonical, pos, HintsOfAll(es) + more) == Ok(Decoded(es, end, more))
  {
    var h := HintsOfAll(es[1..]) + more;
    HintsSplit(es, more);
    ElemsAtStep(e, |es|, input, canonical, pos, HintsOf(es[0]) + h, es[0], p, h);
    ConsBack(es);
  }

  /// The same for a key in front of the values and keys that follow it.
  lemma EntriesCons(s: Shape, count: nat, input: seq<byte>, canonical: bool, pos: nat,
                    kvs: seq<Value>, p: nat, end: nat, more: seq<string>)
    requires s.SMap? && count > 0 && kvs != []
    requires ValueAt(s.key, input, canonical, pos, HintsOf(kvs[0]) + (HintsOfAll(kvs[1..]) + more))
          == Ok(Decoded(kvs[0], p, HintsOfAll(kvs[1..]) + more))
    requires ValuesAt(s, count, input, canonical, p, HintsOfAll(kvs[1..]) + more) == Ok(Decoded(kvs[1..], end, more))
    ensures EntriesAt(s, count, input, canonical, pos, HintsOfAll(kvs) + more) == Ok(Decoded(kvs, end, more))
  {
    var h := HintsOfAll(kvs[1..]) + more;
    HintsSplit(kvs, more);
    EntriesAtStep(s, count, input, canonical, pos, HintsOf(kvs[0]) + h, kvs[0], p, h);
    ConsBack(kvs);
  }

  /// The same for a value in front of the entries that follow it.
  lemma ValuesCons(s: Shape, count: nat, input: seq<byte>, canonical: bool, pos: nat,
                   vks: seq<Value>, p: nat, end: nat, more: seq<string>)
    requires s.SMap? && count > 0 && vks != []
    requires ValueAt(s.val, input, canonical, pos, HintsOf(vks[0]) + (HintsOfAll(vks[1..]) + more))
          == Ok(Decoded(vks[0], p, HintsOfAll(vks[1..]) + more))
    requires EntriesAt(s, count - 1, input, canonical, p, HintsOfAll(vks[1..]) + more) == Ok(Decoded(vks[1..], end, more))
    ensures ValuesAt(s, count, input, canonical, pos, HintsOfAll(vks) + more) == Ok(Decoded(vks, end, more))
  {
    var h := HintsOfAll(vks[1..]) + more;
    HintsSplit(vks, more);
    ValuesAtStep(s, count, input, canonical, pos, HintsOf(vks[0]) + h, vks[0], p, h);
    ConsBack(vks);
  }

  /// The same for a field in front of the fields that follow it.
  lemma FieldsCons(ss: seq<Shape>, input: seq<byte>, canonical: bool, pos: nat,
                   fs: seq<Value>, p: nat, end: nat, more: seq<string>)
    requires ss != [] && fs != []
    requires ValueAt(ss[0], input, canonical, pos, HintsOf(fs[0]) + (HintsOfAll(fs[1..]) + more))
          == Ok(Decoded(fs[0], p, HintsOfAll(fs[1..]) + more))
    requires FieldsFrom(ss[1..], input, canonical, p, HintsOfAll(fs[1..]) + more) == Ok(Decoded(fs[1..], end, more))
    ensures FieldsFrom(ss, input, canonical, pos, HintsOfAll(fs) + more) == Ok(Decoded(fs, end, more))
  {
    var h := HintsOfAll(fs[1..]) + more;
    HintsSplit(fs, more);
    FieldsFromStep(ss, input, canonical, pos, HintsOf(fs[0]) + h, fs[0], p, h);
    ConsBack(fs);
  }

  lemma {:induction false} EntriesDecode(kvs: seq<Value>, s: Shape, count: nat, len: nat, next: nat,
                                         input: seq<byte>, canonical: bool, pos: nat, more: seq<string>)
    requires s.SMap? && |kvs| == 2 * count && ConformsEntries(kvs, s.key, s.val)
    requires EncodeEntries(len, next, kvs).Ok? && Within(input, pos, EncodeEntries(len, next, kvs).value)
    ensures EntriesAt(s, count, input, canonical, pos, HintsOfAll(kvs) + more)
         == Ok(Decoded(kvs, pos + |EncodeEntries(len, next, kvs).value|, more))
    decreases kvs, 2
  {
    if kvs == [] {
      assert HintsOfAll(kvs) + more == more;
    } else {
      EncodeEntriesSplit(len, next, kvs);
      var key := Encode(kvs[0]).value;
      var tail := EncodeValues(len, next + 1, kvs[1..]).value;
      var h := HintsOfAll(kvs[1..]) + more;
      WithinSplit(input, pos, key, tail);
      DecodeEncoded(kvs[0], s.key, input, canonical, pos, h);
      assert kvs[1..][1..] == kvs[2..];
      assert ValueThenEntries(kvs[1..], s.key, s.val);
      ValuesDecode(kvs[1..], s, count, len, next + 1, input, canonical, pos + |key|, more);
      assert pos + |key| + |tail| == pos + |EncodeEntries(len, next, kvs).value|;
      EntriesCons(s, count, input, canonical, pos, kvs, pos + |key|, pos + |EncodeEntries(len, next, kvs).value|, more);
    }
  }

  lemma {:induction false} ValuesDecode(vks: seq<Value>, s: Shape, count: nat, len: nat, next: nat,
                                        input: seq<byte>, canonical: bool, pos: nat, more: seq<string>)
    requires s.SMap? && count > 0 && |vks| == 2 * count - 1 && ValueThenEntries(vks, s.key, s.val)
    requires EncodeValues(len, next, vks).Ok? && Within(input, pos, EncodeValues(len, next, vks).value)
    ensures ValuesAt(s, count, input, canonical, pos, HintsOfAll(vks) + more)
         == Ok(Decoded(vks, pos + |EncodeValues(len, next, vks).value|, more))
    decreases vks, 2
  {
    EncodeValuesSplit(len, next, vks);
    var val := Encode(vks[0]).value;
    var tail := EncodeEntries(len, next, vks[1..]).value;
    var h := HintsOfAll(vks[1..]) + more;
    WithinSplit(input, pos, val, tail);
    DecodeEncoded(vks[0], s.val, input, canonical, pos, h);
    EntriesDecode(vks[1..], s, count - 1, len, next, input, canonical, pos + |val|, more);
    assert pos + |val| + |tail| == pos + |EncodeValues(len, next, vks).value|;
    ValuesCons(s, count, input, canonical, pos, vks, pos + |val|, pos + |EncodeValues(len, next, vks).value|, more);
  }

  lemma {:induction false} FieldsDecode(fs: seq<Value>, ss: seq<Shape>, len: nat, next: nat,
                                        input: seq<byte>, canonical: bool, pos: nat, more: seq<string>)
    requires ConformsFields(fs, ss) && EncodeElems(len, next, fs).Ok?
    requires Within(input, pos, EncodeElems(len, next, fs).value)
    ensures FieldsFrom(ss, input, canonical, pos, HintsOfAll(fs) + more)
         == Ok(Decoded(fs, pos + |EncodeElems(len, next, fs).value|, more))
    decreases fs, 2
  {
    if fs == [] {
      assert HintsOfAll(fs) + more == more;
    } else {
      EncodeElemsSplit(len, next, fs);
      var head := Encode(fs[0]).value;
      var tail := EncodeElems(len, next + 1, fs[1..]).value;
      var h := HintsOfAll(fs[1..]) + more;
      WithinSplit(input, pos, head, tail);
      DecodeEncoded(fs[0], ss[0], input, canonical, pos, h);
      FieldsDecode(fs[1..], ss[1..], len, next + 1, input, canonical, pos + |head|, more);
      assert pos + |head| + |tail| == pos + |EncodeElems(len, next, fs).value|;
      FieldsCons(ss, input, canonical, pos, fs, pos + |head|, pos + |EncodeElems(len, next, fs).value|, more);
    }
  }

  /// `from_bytes(to_bytes(v))` gives v back, whatever bytes follow and whether
  /// or not the canonical-form checks are made, given v's variant hints.
  lemma FromBytesToBytes(v: Value, s: Shape, trailing: seq<byte>, canonical: bool)
    requires Conforms(v, s)
    ensures Encode(v).Ok?
    ensures ValueAt(s, Encode(v).value + trailing, canonical, 0, HintsOf(v))
         == Ok(Decoded(v, |Encode(v).value|, []))
  {
    ConformingEncodes(v, s);
    var enc := Encode(v).value;
    assert (enc + trailing)[0..|enc|] == enc;
    assert HintsOf(v) + [] == HintsOf(v);
    DecodeEncoded(v, s, enc + trailing, canonical, 0, []);
  }
}
