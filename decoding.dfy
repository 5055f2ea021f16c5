// What the deserializer (src/de.rs) accepts: the layout a successful read of
// each shape has found, the errors it reports otherwise, and, with the
// canonical-form checks, that the bytes it consumed are exactly the bytes the
// serializer writes for the value it returns.
module Decoding {
  import opened Errors
  import opened Bytes
  import opened Ints
  import opened Utils
  import opened Values
  import opened Utf8
  import opened Ser
  import opened De
  import Identifiable

  lemma FromLEOne(s: seq<byte>)
    requires |s| == 1
    ensures FromLE(s) == s[0]
  {
    assert s[1..] == [];
  }

  /// The string header: which first bytes are accepted, the length each
  /// announces, the padding that goes with it, and the header's own size.
  lemma StrHeaderRead(input: seq<byte>, canonical: bool, pos: nat)
    ensures pos >= |input| ==> StrInfoAt(input, canonical, pos) == Err(UnexpectedEof)
    ensures pos < |input| && input[pos] == 255 ==> StrInfoAt(input, canonical, pos) == Err(InvalidValue(255))
    ensures pos < |input| && input[pos] == 254 && pos + 4 > |input| ==>
      StrInfoAt(input, canonical, pos) == Err(UnexpectedEof)
    ensures pos + 4 <= |input| && input[pos] == 254 && canonical && FromLE(input[pos + 1..pos + 4]) < 254 ==>
      StrInfoAt(input, canonical, pos) == Err(BytesLenPrefix254LessThan254(FromLE(input[pos + 1..pos + 4])))
    ensures StrInfoAt(input, canonical, pos).Ok? ==>
      var (info, next) := StrInfoAt(input, canonical, pos).value;
      pos < |input| && input[pos] <= 254 && info.long == (input[pos] == 254)
      && next == pos + (if info.long then 4 else 1)
      && info.len == (if info.long then FromLE(input[pos + 1..pos + 4]) else input[pos])
      && info.len <= MAX_BYTE_STRING_LEN
      && info.padding == (4 - (next - pos + info.len) % 4) % 4
      && (canonical && info.long ==> info.len >= 254)
  {
    if pos < |input| {
      FromLEOne(input[pos..pos + 1]);
      assert input[pos..pos + 1][0] == input[pos];
      if pos + 4 <= |input| && input[pos] == 254 {
        Pow256Widths();
        assert Pow256(3) == 0x100_0000;
        assert |input[pos + 1..pos + 4]| == 3;
      }
    }
  }

  /// A string or byte string read: the header, exactly the announced number
  /// of data bytes, which are what is returned, and the padding, so that the
  /// whole read is a whole number of 32-bit words. Text is valid UTF-8; with
  /// the canonical-form checks the padding is zeros and a long header
  /// announces at least 254 bytes.
  lemma ByteStringRead(input: seq<byte>, canonical: bool, text: bool, pos: nat)
    requires ByteStringAt(input, canonical, text, pos).Ok?
    ensures var (data, next) := ByteStringAt(input, canonical, text, pos).value;
      var h := if input[pos] == 254 then 4 else 1;
      var p := if h == 1 then PaddingFor(|data| + 1) else PaddingFor(|data|);
      pos < |input| && input[pos] <= 254 && |data| <= MAX_BYTE_STRING_LEN
      && next == pos + h + |data| + p <= |input|
      && (next - pos) % 4 == 0
      && input[pos..pos + h] == (if h == 1 then [input[pos]] else [254] + input[pos + 1..pos + 4])
      && (h == 1 ==> input[pos] == |data|)
      && (h == 4 ==> FromLE(input[pos + 1..pos + 4]) == |data|)
      && data == input[pos + h..pos + h + |data|]
      && (text ==> ValidUtf8(data))
      && (canonical ==> AllZero(input[pos + h + |data|..next]) && (h == 4 ==> |data| >= 254))
  {
    StrHeaderRead(input, canonical, pos);
    ByteStringAtResult(input, canonical, text, pos);
    var (info, p1) := StrInfoAt(input, canonical, pos).value;
    var len := info.len;
    if input[pos] == 254 {
      assert info.padding == PaddingFor(len);
      PaddedAligned(4, len, PaddingFor(len));
      assert input[pos..pos + 4] == [254] + input[pos + 1..pos + 4];
    } else {
      assert info.padding == PaddingFor(len + 1);
      PaddedAligned(1, len, PaddingFor(len + 1));
    }
  }

  /// What a successful string read returns, in terms of its header: the
  /// data after the header and the position after the padding.
  lemma ByteStringAtResult(input: seq<byte>, canonical: bool, text: bool, pos: nat)
    requires ByteStringAt(input, canonical, text, pos).Ok?
    ensures StrInfoAt(input, canonical, pos).Ok?
    ensures var (info, p1) := StrInfoAt(input, canonical, pos).value;
      var end := p1 + info.len + info.padding;
      end <= |input|
      && ByteStringAt(input, canonical, text, pos).value == (input[p1..p1 + info.len], end)
      && (text ==> ValidUtf8(input[p1..p1 + info.len]))
      && (canonical ==> AllZero(input[p1 + info.len..end]))
  {
  }

  lemma PaddedAligned(h: nat, len: nat, p: nat)
    requires h == 1 || h == 4
    requires p == if h == 1 then PaddingFor(len + 1) else PaddingFor(len)
    ensures (h + len + p) % 4 == 0
  {
  }

  /// With the canonical-form checks, the bytes of a string read are exactly
  /// the serializer's encoding of the data returned.
  lemma CanonicalByteString(input: seq<byte>, text: bool, pos: nat)
    requires ByteStringAt(input, true, text, pos).Ok?
    ensures var (data, next) := ByteStringAt(input, true, text, pos).value;
      EncodeByteString(data) == Ok(input[pos..next])
  {
    ByteStringRead(input, true, text, pos);
    var (data, next) := ByteStringAt(input, true, text, pos).value;
    var h := if input[pos] == 254 then 4 else 1;
    var padding := input[pos + h + |data|..next];
    assert padding == Zeros(|padding|);
    SliceConcat3(input, pos, pos + h, pos + h + |data|, next);
    if h == 4 {
      LEofFromLE(input[pos + 1..pos + 4]);
      assert input[pos..pos + h] == [254] + LE(|data|, 3);
    }
  }

  lemma SliceConcat(s: seq<byte>, a: nat, b: nat, c: nat)
    requires a <= b <= c <= |s|
    ensures s[a..c] == s[a..b] + s[b..c]
  {
  }

  lemma SliceConcat3(s: seq<byte>, a: nat, b: nat, c: nat, d: nat)
    requires a <= b <= c <= d <= |s|
    ensures s[a..d] == s[a..b] + s[b..c] + s[c..d]
  {
    SliceConcat(s, a, b, d);
    SliceConcat(s, b, c, d);
  }

  /// A bool is accepted exactly when the next word is one of the two type
  /// ids, and is true exactly for the id of true; any other word is reported
  /// as the signed number it reads as.
  lemma BoolRead(input: seq<byte>, pos: nat)
    ensures pos + 4 > |input| ==> BoolAt(input, pos) == Err(UnexpectedEof)
    ensures pos + 4 <= |input| ==>
      var word := FromLE(input[pos..pos + 4]);
      (BoolAt(input, pos).Ok? <==> word == Identifiable.BOOL_TRUE_ID || word == Identifiable.BOOL_FALSE_ID)
      && (BoolAt(input, pos).Ok? ==>
            BoolAt(input, pos).value == (word == Identifiable.BOOL_TRUE_ID, pos + 4)
            && input[pos..pos + 4] == EncodeBool(BoolAt(input, pos).value.0))
      && (BoolAt(input, pos).Err? ==> BoolAt(input, pos).error == InvalidValue(Interpret(word, I32)))
  {
    if pos + 4 <= |input| {
      LEofFromLE(input[pos..pos + 4]);
    }
  }

  /// An integer read is the number the word reads as, in the range of the
  /// kind asked for, and the word is that number's own encoding; a narrow
  /// kind refuses a word whose number does not fit instead of truncating it.
  lemma IntRead(k: IntKind, input: seq<byte>, pos: nat)
    ensures var w := k.Wire().Width();
      (pos + w > |input| ==> IntAt(k, input, pos) == Err(UnexpectedEof))
      && (pos + w <= |input| ==>
            var n := Interpret(FromLE(input[pos..pos + w]), k.Wire());
            (IntAt(k, input, pos).Ok? <==> InRange(k, n))
            && (IntAt(k, input, pos).Ok? ==>
                  IntAt(k, input, pos).value == (n, pos + w) && input[pos..pos + w] == EncodeInt(k, n))
            && (IntAt(k, input, pos).Err? ==> IntAt(k, input, pos).error == IntegerCast(n)))
  {
    var w := k.Wire().Width();
    if pos + w <= |input| {
      var bytes := input[pos..pos + w];
      var p := FromLE(bytes);
      assert k.Wire().Width() == w;
      InterpretInRange(p, k.Wire());
      PatternOfInterpret(p, k.Wire());
      LEofFromLE(bytes);
    }
  }

  /// The pattern of the number a pattern reads as is that pattern.
  lemma PatternOfInterpret(p: nat, k: IntKind)
    requires p < Pow256(k.Width())
    ensures Pattern(Interpret(p, k), k.Width()) == p
  {
    var m := Pow256(k.Width());
    if k.Signed() && p >= m / 2 {
      ModBelow(p, m);
    } else {
      ModUnique(p, m, 0, p);
    }
  }

  lemma ModBelow(p: nat, m: nat)
    requires p < m
    ensures (p - m) % m == p
  {
    var q, r := (p - m) / m, (p - m) % m;
    assert m * (q + 1) == p - r;
    if q + 1 < 0 {
      MulAtLeast(m, -(q + 1));
    }
  }
  /// v, read as shape s from input[pos..next], is a value of that shape
  /// whose encoding is exactly those bytes, and the hints it used up are
  /// exactly its own.
  predicate Reencodes(v: Value, s: Shape, input: seq<byte>, pos: nat, next: nat, hints: seq<string>, rest: seq<string>)
  {
    pos <= next <= |input| && Conforms(v, s) && Encode(v) == Ok(input[pos..next]) && hints == HintsOf(v) + rest
  }

  /// Decoding is the inverse of encoding on the canonical side as well: with
  /// the canonical-form checks, every successful read returns a value of the
  /// shape asked for, the bytes it consumed are that value's encoding, and the
  /// hints it consumed are that value's hints. So no two inputs read as the
  /// same value, and re-encoding what was read gives back the bytes read.
  lemma {:induction false} CanonicalReencodes(s: Shape, input: seq<byte>, pos: nat, hints: seq<string>)
    requires ValueAt(s, input, true, pos, hints).Ok? && pos <= |input|
    ensures var d := ValueAt(s, input, true, pos, hints).value;
      Reencodes(d.value, s, input, pos, d.pos, hints, d.hints)
    decreases s, 3
  {
    match s
    case SBool => BoolReencodes(input, pos, hints);
    case SInt(k) => IntReencodes(k, input, pos, hints);
    case SStr => ByteStringReencodes(s, input, pos, hints);
    case SBytes => ByteStringReencodes(s, input, pos, hints);
    case SSeq(_) => SeqReencodes(s, input, pos, hints);
    case SMap(_, _) => MapReencodes(s, input, pos, hints);
    case STuple(_) => TupleReencodes(s, input, pos, hints);
    case SUnitStruct => assert input[pos..pos] == [];
    case SNewtypeStruct(_) => NewtypeReencodes(s, input, pos, hints);
    case SEnum(_) => EnumReencodes(s, input, pos, hints);
  }

  lemma BoolReencodes(input: seq<byte>, pos: nat, hints: seq<string>)
    requires ValueAt(SBool, input, true, pos, hints).Ok? && pos <= |input|
    ensures var d := ValueAt(SBool, input, true, pos, hints).value;
      Reencodes(d.value, SBool, input, pos, d.pos, hints, d.hints)
  {
    BoolRead(input, pos);
    assert hints == [] + hints;
  }

  lemma IntReencodes(k: IntKind, input: seq<byte>, pos: nat, hints: seq<string>)
    requires ValueAt(SInt(k), input, true, pos, hints).Ok? && pos <= |input|
    ensures var d := ValueAt(SInt(k), input, true, pos, hints).value;
      Reencodes(d.value, SInt(k), input, pos, d.pos, hints, d.hints)
  {
    IntRead(k, input, pos);
    assert hints == [] + hints;
  }

  lemma ByteStringReencodes(s: Shape, input: seq<byte>, pos: nat, hints: seq<string>)
    requires (s == SStr || s == SBytes) && ValueAt(s, input, true, pos, hints).Ok? && pos <= |input|
    ensures var d := ValueAt(s, input, true, pos, hints).value;
      Reencodes(d.value, s, input, pos, d.pos, hints, d.hints)
  {
    ByteStringRead(input, true, s == SStr, pos);
    CanonicalByteString(input, s == SStr, pos);
    assert hints == [] + hints;
  }

  lemma {:induction false} NewtypeReencodes(s: Shape, input: seq<byte>, pos: nat, hints: seq<string>)
    requires s.SNewtypeStruct? && ValueAt(s, input, true, pos, hints).Ok? && pos <= |input|
    ensures var d := ValueAt(s, input, true, pos, hints).value;
      Reencodes(d.value, s, input, pos, d.pos, hints, d.hints)
    decreases s, 2
  {
    CanonicalReencodes(s.inner, input, pos, hints);
  }

  /// The u32 count in front of a sequence or map is the encoding of itself.
  lemma CountReencodes(input: seq<byte>, pos: nat)
    requires pos + 4 <= |input|
    ensures var n := FromLE(input[pos..pos + 4]);
      n <= U32_MAX && EncodeInt(U32, n) == input[pos..pos + 4]
  {
    var bytes := input[pos..pos + 4];
    Pow256Widths();
    ModUnique(FromLE(bytes), Pow256(4), 0, FromLE(bytes));
    LEofFromLE(bytes);
  }

  lemma {:induction false} SeqReencodes(s: Shape, input: seq<byte>, pos: nat, hints: seq<string>)
    requires s.SSeq? && ValueAt(s, input, true, pos, hints).Ok? && pos <= |input|
    ensures var d := ValueAt(s, input, true, pos, hints).value;
      Reencodes(d.value, s, input, pos, d.pos, hints, d.hints)
    decreases s, 2
  {
    CountReencodes(input, pos);
    var n := FromLE(input[pos..pos + 4]);
    assert UintAt(input, pos, 4) == Ok((n, (pos + 4) as nat));
    var es := ElemsAt(s.elem, n, input, true, pos + 4, hints).value;
    ElemsReencode(s.elem, n, n, 0, input, pos + 4, hints);
    SliceConcat(input, pos, pos + 4, es.pos);
    assert Encode(VSeq(Some(n), es.value)) == Ok(EncodeInt(U32, n) + input[pos + 4..es.pos]);
  }

  lemma {:induction false} MapReencodes(s: Shape, input: seq<byte>, pos: nat, hints: seq<string>)
    requires s.SMap? && ValueAt(s, input, true, pos, hints).Ok? && pos <= |input|
    ensures var d := ValueAt(s, input, true, pos, hints).value;
      Reencodes(d.value, s, input, pos, d.pos, hints, d.hints)
    decreases s, 2
  {
    CountReencodes(input, pos);
    var n := FromLE(input[pos..pos + 4]);
    assert UintAt(input, pos, 4) == Ok((n, (pos + 4) as nat));
    var kvs := EntriesAt(s, n, input, true, pos + 4, hints).value;
    EntriesReencode(s, n, n, 0, input, pos + 4, hints);
    assert |kvs.value| / 2 == n;
    SliceConcat(input, pos, pos + 4, kvs.pos);
    assert Encode(VMap(Some(n), kvs.value)) == Ok(EncodeInt(U32, n) + input[pos + 4..kvs.pos]);
  }

  lemma {:induction false} TupleReencodes(s: Shape, input: seq<byte>, pos: nat, hints: seq<string>)
    requires s.STuple? && ValueAt(s, input, true, pos, hints).Ok? && pos <= |input|
    ensures var d := ValueAt(s, input, true, pos, hints).value;
      Reencodes(d.value, s, input, pos, d.pos, hints, d.hints)
    decreases s, 2
  {
    var fs := s.fields;
    var fields := FieldsAt(fs, input, true, pos, hints);
    assert ShapeAt(s, input, true, pos, hints).Ok?;
    assert fields.Ok?;
    assert |fs| <= U32_MAX;
    FieldsReencode(fs, |fs|, 0, input, pos, hints);
  }

  lemma {:induction false} EnumReencodes(s: Shape, input: seq<byte>, pos: nat, hints: seq<string>)
    requires s.SEnum? && ValueAt(s, input, true, pos, hints).Ok? && pos <= |input|
    ensures var d := ValueAt(s, input, true, pos, hints).value;
      Reencodes(d.value, s, input, pos, d.pos, hints, d.hints)
    decreases s, 2
  {
    var i := VariantIndex(s.variants, hints[0]);
    match s.variants[i].payload
    case PUnit =>
      assert hints == [hints[0]] + hints[1..];
      assert input[pos..pos] == [];
    case PNewtype(x) => NewtypeVariantReencodes(s, input, pos, hints);
    case PFields(fs) => FieldsVariantReencodes(s, input, pos, hints);
  }

  lemma {:induction false} NewtypeVariantReencodes(s: Shape, input: seq<byte>, pos: nat, hints: seq<string>)
    requires s.SEnum? && ValueAt(s, input, true, pos, hints).Ok? && pos <= |input|
    requires hints != [] && VariantIndex(s.variants, hints[0]) < |s.variants|
    requires s.variants[VariantIndex(s.variants, hints[0])].payload.PNewtype?
    ensures var d := ValueAt(s, input, true, pos, hints).value;
      Reencodes(d.value, s, input, pos, d.pos, hints, d.hints)
    decreases s, 1
  {
    var x := s.variants[VariantIndex(s.variants, hints[0])].payload.shape;
    assert hints == [hints[0]] + hints[1..];
    CanonicalReencodes(x, input, pos, hints[1..]);
  }

  lemma {:induction false} FieldsVariantReencodes(s: Shape, input: seq<byte>, pos: nat, hints: seq<string>)
    requires s.SEnum? && ValueAt(s, input, true, pos, hints).Ok? && pos <= |input|
    requires hints != [] && VariantIndex(s.variants, hints[0]) < |s.variants|
    requires s.variants[VariantIndex(s.variants, hints[0])].payload.PFields?
    ensures var d := ValueAt(s, input, true, pos, hints).value;
      Reencodes(d.value, s, input, pos, d.pos, hints, d.hints)
    decreases s, 1
  {
    var name := hints[0];
    var fs := s.variants[VariantIndex(s.variants, name)].payload.fields;
    FieldsVariantAtStep(s, input, true, pos, hints);
    FieldsAtFrom(fs, input, true, pos, hints[1..]);
    FieldsReencode(fs, |fs|, 0, input, pos, hints[1..]);
    var d := FieldsFrom(fs, input, true, pos, hints[1..]).value;
    assert hints == [name] + hints[1..];
    FieldsVariantReencodesFrom(s, name, d.value, input, pos, d.pos, hints[1..], d.hints);
  }

  /// Fields that re-encode as the bytes read, behind a variant name of s,
  /// make a fields variant that re-encodes as them too.
  lemma FieldsVariantReencodesFrom(s: Shape, name: string, vs: seq<Value>, input: seq<byte>, pos: nat, next: nat,
                                   hints: seq<string>, rest: seq<string>)
    requires s.SEnum? && VariantIndex(s.variants, name) < |s.variants|
    requires s.variants[VariantIndex(s.variants, name)].payload.PFields?
    requires pos <= next <= |input| && hints == HintsOfAll(vs) + rest
    requires var fs := s.variants[VariantIndex(s.variants, name)].payload.fields;
      |fs| <= U32_MAX && ConformsFields(vs, fs) && EncodeElems(|fs|, 0, vs) == Ok(input[pos..next])
    ensures Reencodes(VFieldsVariant(name, vs), s, input, pos, next, [name] + hints, rest)
  {
  }

  lemma {:induction false} ElemsReencode(e: Shape, count: nat, len: nat, next: nat,
                                         input: seq<byte>, pos: nat, hints: seq<string>)
    requires ElemsAt(e, count, input, true, pos, hints).Ok? && next + count <= len && pos <= |input|
    ensures var d := ElemsAt(e, count, input, true, pos, hints).value;
      |d.value| == count && ConformsAll(d.value, e) && pos <= d.pos <= |input|
      && EncodeElems(len, next, d.value) == Ok(input[pos..d.pos]) && hints == HintsOfAll(d.value) + d.hints
    decreases e, 4, count
  {
    if count == 0 {
      assert input[pos..pos] == [];
    } else {
      var head := ValueAt(e, input, true, pos, hints).value;
      CanonicalReencodes(e, input, pos, hints);
      var restR := ElemsAt(e, count - 1, input, true, head.pos, head.hints);
      ElemsAtStep(e, count, input, true, pos, hints, head.value, head.pos, head.hints);
      var rest := restR.value;
      ElemsReencode(e, count - 1, len, next + 1, input, head.pos, head.hints);
      EncodeElemsCons(len, next, head.value, rest.value, input[pos..head.pos], input[head.pos..rest.pos]);
      SliceConcat(input, pos, head.pos, rest.pos);
      HintsCons(head.value, rest.value, rest.hints);
      ConformsAllCons(head.value, rest.value, e);
    }
  }

  lemma {:induction false} EntriesReencode(s: Shape, count: nat, len: nat, next: nat,
                                           input: seq<byte>, pos: nat, hints: seq<string>)
    requires s.SMap? && EntriesAt(s, count, input, true, pos, hints).Ok? && next + count <= len && pos <= |input|
    ensures var d := EntriesAt(s, count, input, true, pos, hints).value;
      |d.value| == 2 * count && ConformsEntries(d.value, s.key, s.val) && pos <= d.pos <= |input|
      && EncodeEntries(len, next, d.value) == Ok(input[pos..d.pos]) && hints == HintsOfAll(d.value) + d.hints
    decreases s, 1, count, 1
  {
    if count == 0 {
      assert input[pos..pos] == [];
    } else {
      var key := ValueAt(s.key, input, true, pos, hints).value;
      CanonicalReencodes(s.key, input, pos, hints);
      var restR := ValuesAt(s, count, input, true, key.pos, key.hints);
      EntriesAtStep(s, count, input, true, pos, hints, key.value, key.pos, key.hints);
      var rest := restR.value;
      ValuesReencode(s, count, len, next + 1, input, key.pos, key.hints);
      EncodeEntriesCons(len, next, key.value, rest.value, input[pos..key.pos], input[key.pos..rest.pos]);
      SliceConcat(input, pos, key.pos, rest.pos);
      HintsCons(key.value, rest.value, rest.hints);
      ConformsEntriesCons(key.value, rest.value, s.key, s.val);
    }
  }

  lemma {:induction false} ValuesReencode(s: Shape, count: nat, len: nat, next: nat,
                                          input: seq<byte>, pos: nat, hints: seq<string>)
    requires s.SMap? && count > 0 && ValuesAt(s, count, input, true, pos, hints).Ok?
    requires next + count <= len + 1 && pos <= |input|
    ensures var d := ValuesAt(s, count, input, true, pos, hints).value;
      |d.value| == 2 * count - 1 && ValueThenEntries(d.value, s.key, s.val) && pos <= d.pos <= |input|
      && EncodeValues(len, next, d.value) == Ok(input[pos..d.pos]) && hints == HintsOfAll(d.value) + d.hints
    decreases s, 1, count, 0
  {
    var val := ValueAt(s.val, input, true, pos, hints).value;
    CanonicalReencodes(s.val, input, pos, hints);
    var restR := EntriesAt(s, count - 1, input, true, val.pos, val.hints);
    ValuesAtStep(s, count, input, true, pos, hints, val.value, val.pos, val.hints);
    var rest := restR.value;
    EntriesReencode(s, count - 1, len, next, input, val.pos, val.hints);
    EncodeValuesCons(len, next, val.value, rest.value, input[pos..val.pos], input[val.pos..rest.pos]);
    SliceConcat(input, pos, val.pos, rest.pos);
    HintsCons(val.value, rest.value, rest.hints);
    assert ([val.value] + rest.value)[1..] == rest.value;
  }

  lemma {:induction false} FieldsReencode(fs: seq<Shape>, len: nat, next: nat,
                                          input: seq<byte>, pos: nat, hints: seq<string>)
    requires FieldsFrom(fs, input, true, pos, hints).Ok? && next + |fs| <= len <= U32_MAX && pos <= |input|
    ensures var d := FieldsFrom(fs, input, true, pos, hints).value;
      ConformsFields(d.value, fs) && pos <= d.pos <= |input|
      && EncodeElems(len, next, d.value) == Ok(input[pos..d.pos]) && hints == HintsOfAll(d.value) + d.hints
    decreases fs, 0
  {
    if fs == [] {
      assert input[pos..pos] == [];
    } else {
      var head := ValueAt(fs[0], input, true, pos, hints).value;
      CanonicalReencodes(fs[0], input, pos, hints);
      var restR := FieldsFrom(fs[1..], input, true, head.pos, head.hints);
      FieldsFromStep(fs, input, true, pos, hints, head.value, head.pos, head.hints);
      var rest := restR.value;
      FieldsReencode(fs[1..], len, next + 1, input, head.pos, head.hints);
      FieldsReencodeCons(fs, len, next, input, pos, hints, head.value, head.pos, head.hints, rest.value, rest.pos, rest.hints);
    }
  }

  /// A field that re-encodes as its bytes, followed by fields that do, make
  /// fields that do.
  lemma FieldsReencodeCons(fs: seq<Shape>, len: nat, next: nat, input: seq<byte>, pos: nat, hints: seq<string>,
                           v: Value, p: nat, h: seq<string>, vs: seq<Value>, end: nat, rest: seq<string>)
    requires fs != [] && next < len && |fs| <= U32_MAX && Reencodes(v, fs[0], input, pos, p, hints, h)
    requires FieldsFrom(fs, input, true, pos, hints) == Ok(Decoded([v] + vs, end, rest))
    requires ConformsFields(vs, fs[1..]) && p <= end <= |input|
    requires EncodeElems(len, next + 1, vs) == Ok(input[p..end]) && h == HintsOfAll(vs) + rest
    ensures var d := FieldsFrom(fs, input, true, pos, hints).value;
      ConformsFields(d.value, fs) && pos <= d.pos <= |input|
      && EncodeElems(len, next, d.value) == Ok(input[pos..d.pos]) && hints == HintsOfAll(d.value) + d.hints
  {
    EncodeElemsCons(len, next, v, vs, input[pos..p], input[p..end]);
    SliceConcat(input, pos, p, end);
    HintsCons(v, vs, rest);
    ConformsFieldsCons(v, vs, fs);
  }

  // Putting an encoding, a conformance or a hint list back together from
  // its first value and the rest.

  lemma EncodeElemsCons(len: nat, next: nat, v: Value, vs: seq<Value>, a: seq<byte>, b: seq<byte>)
    requires next < len && Encode(v) == Ok(a) && EncodeElems(len, next + 1, vs) == Ok(b)
    ensures EncodeElems(len, next, [v] + vs) == Ok(a + b)
  {
    assert ([v] + vs)[0] == v && ([v] + vs)[1..] == vs;
  }

  lemma EncodeEntriesCons(len: nat, next: nat, v: Value, vs: seq<Value>, a: seq<byte>, b: seq<byte>)
    requires next < len && Encode(v) == Ok(a) && EncodeValues(len, next + 1, vs) == Ok(b)
    ensures EncodeEntries(len, next, [v] + vs) == Ok(a + b)
  {
    assert ([v] + vs)[0] == v && ([v] + vs)[1..] == vs;
  }

  lemma EncodeValuesCons(len: nat, next: nat, v: Value, vs: seq<Value>, a: seq<byte>, b: seq<byte>)
    requires Encode(v) == Ok(a) && EncodeEntries(len, next, vs) == Ok(b)
    ensures EncodeValues(len, next, [v] + vs) == Ok(a + b)
  {
    assert ([v] + vs)[0] == v && ([v] + vs)[1..] == vs;
  }

  lemma HintsCons(v: Value, vs: seq<Value>, more: seq<string>)
    ensures HintsOfAll([v] + vs) + more == HintsOf(v) + (HintsOfAll(vs) + more)
  {
    assert ([v] + vs)[0] == v && ([v] + vs)[1..] == vs;
  }

  lemma ConformsAllCons(v: Value, vs: seq<Value>, e: Shape)
    requires Conforms(v, e) && ConformsAll(vs, e)
    ensures ConformsAll([v] + vs, e)
  {
    assert ([v] + vs)[0] == v && ([v] + vs)[1..] == vs;
  }

  lemma ConformsEntriesCons(v: Value, vs: seq<Value>, k: Shape, s: Shape)
    requires Conforms(v, k) && ValueThenEntries(vs, k, s)
    ensures ConformsEntries([v] + vs, k, s)
  {
    var kvs := [v] + vs;
    assert kvs[0] == v && kvs[1] == vs[0] && kvs[2..] == vs[1..];
  }

  lemma ConformsFieldsCons(v: Value, vs: seq<Value>, fs: seq<Shape>)
    requires fs != [] && |fs| <= U32_MAX && Conforms(v, fs[0]) && ConformsFields(vs, fs[1..])
    ensures ConformsFields([v] + vs, fs)
  {
    assert ([v] + vs)[0] == v && ([v] + vs)[1..] == vs;
  }
}
