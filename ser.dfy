// The serializer (src/ser.rs): the byte layout of every value as functions,
// and the serializer object that appends it to its writer step by step.
module Ser {
  import opened Errors
  import opened Bytes
  import opened Ints
  import opened Utils
  import opened Values
  import Identifiable

  /// A bool travels as the 32-bit pattern of its type id.
  function EncodeBool(b: bool): (r: seq<byte>)
    ensures |r| == 4
  {
    LE(Identifiable.TypeId(Identifiable.IBool(b)), 4)
  }

  /// An integer of kind k travels as its pattern at the width of the kind it
  /// is widened to: 4 bytes for 8-, 16- and 32-bit integers, 8 for 64-bit ones.
  function EncodeInt(k: IntKind, n: int): (r: seq<byte>)
    ensures |r| == k.Wire().Width()
    ensures |r| == 4 || |r| == 8
  {
    var w := k.Wire().Width();
    LE(Pattern(n, w), w)
  }

  /// A u32 is written as its four bytes, lowest first.
  lemma U32Field(n: u32)
    ensures Encode(VInt(U32, n)) == Ok(LE(n, 4))
  {
    assert Pow256(4) == 0x1_0000_0000;
  }

  /// A u64 is written as its eight bytes, lowest first.
  lemma U64Field(n: usize)
    ensures Encode(VInt(U64, n)) == Ok(LE(n, 8))
  {
    assert Pow256(8) == 0x1_0000_0000_0000_0000;
  }

  /// Padding that brings a string of n bytes (header included) to a multiple of four.
  function PaddingFor(n: nat): (p: nat)
    ensures p < 4 && (n + p) % 4 == 0
  {
    (4 - n % 4) % 4
  }

  /// The layout shared by strings and byte strings.
  function EncodeByteString(data: seq<byte>): (r: Result<seq<byte>>)
    ensures r.Ok? <==> |data| <= MAX_BYTE_STRING_LEN
    ensures r.Err? ==> r.error == StringTooLong(|data|)
    ensures r.Ok? ==> |r.value| % 4 == 0
  {
    var len := |data|;
    if len <= 253 then
      Ok([len] + data + Zeros(PaddingFor(len + 1)))
    else if len <= MAX_BYTE_STRING_LEN then
      var r := [254] + LE(len, 3) + data + Zeros(PaddingFor(len));
      assert |r| == 4 + (len + PaddingFor(len));
      Ok(r)
    else
      Err(StringTooLong(len))
  }

  /// The two layouts: a short string is one length byte, the data and fewer
  /// than four zero bytes; a long one is byte 254, three little-endian length
  /// bytes, the data and fewer than four zero bytes.
  lemma ByteStringLayout(data: seq<byte>)
    requires |data| <= MAX_BYTE_STRING_LEN
    ensures var r := EncodeByteString(data).value;
      var h := if |data| <= 253 then 1 else 4;
      h + |data| <= |r| < h + |data| + 4
      && (|data| <= 253 ==> r[0] == |data|)
      && (|data| > 253 ==> r[0] == 254 && FromLE(r[1..4]) == |data|)
      && r[h..h + |data|] == data && AllZero(r[h + |data|..])
  {
    var r := EncodeByteString(data).value;
    var len := |data|;
    if len > 253 {
      assert r[1..4] == LE(len, 3);
      FromLEofLE(len, 3);
      Pow256Widths();
      assert Pow256(3) == 0x100_0000;
      assert r[4 + len..] == Zeros(PaddingFor(len));
    } else {
      assert r[1 + len..] == Zeros(PaddingFor(len + 1));
    }
  }

  /// p followed by what r produced, or r's error.
  function Prepend(p: seq<byte>, r: Result<seq<byte>>): (q: Result<seq<byte>>)
    ensures q.Ok? == r.Ok? && (r.Err? ==> q == r)
  {
    if r.Ok? then Ok(p + r.value) else r
  }

  lemma PrependEmpty(r: Result<seq<byte>>)
    ensures Prepend([], r) == r
  {
    if r.Ok? {
      assert [] + r.value == r.value;
    }
  }

  lemma PrependPrepend(p: seq<byte>, q: seq<byte>, r: Result<seq<byte>>)
    ensures Prepend(p, Prepend(q, r)) == Prepend(p + q, r)
  {
    if r.Ok? {
      assert p + (q + r.value) == (p + q) + r.value;
    }
  }

  /// The errors the serializer raises. None of them comes from a reader, so
  /// a failed encoding is always a refusal of the value itself.
  predicate SerRefusal(e: Error)
  {
    e.SerUnsupportedType? || e.StringTooLong? || e.IntegerCast? || e.ExcessElements?
    || e == SeqsWithUnknownLengthUnsupported || e == MapsWithUnknownLengthUnsupported
  }

  /// The bytes the serializer writes for v; char, the options and () are
  /// refused, and every failure is one of the serializer's own refusals.
  function Encode(v: Value): (r: Result<seq<byte>>)
    ensures r.Err? ==> SerRefusal(r.error)
    ensures v.VChar? || v.VNone? || v.VSome? || v.VUnit? ==> r.Err? && r.error.SerUnsupportedType?
    decreases v
  {
    match v
    case VBool(b) => Ok(EncodeBool(b))
    case VInt(k, n) => Ok(EncodeInt(k, n))
    case VStr(s) => EncodeByteString(s)
    case VBytes(b) => EncodeByteString(b)
    case VSeq(len, es) =>
      if len.None? then Err(SeqsWithUnknownLengthUnsupported)
      else
        var n :- SafeIntCast(len.value, U32);
        Prepend(EncodeInt(U32, n), EncodeElems(n, 0, es))
    case VMap(len, kvs) =>
      if len.None? then Err(MapsWithUnknownLengthUnsupported)
      else
        var n :- SafeIntCast(len.value, U32);
        Prepend(EncodeInt(U32, n), EncodeEntries(n, 0, kvs))
    case VTuple(fs) =>
      var n :- SafeIntCast(|fs|, U32);
      EncodeElems(n, 0, fs)
    case VUnitStruct => Ok([])
    case VNewtypeStruct(x) => Encode(x)
    case VUnitVariant(_) => Ok([])
    case VNewtypeVariant(_, x) => Encode(x)
    case VFieldsVariant(_, fs) =>
      var n :- SafeIntCast(|fs|, U32);
      EncodeElems(n, 0, fs)
    case VChar(_) => Err(SerUnsupportedType(SerChar))
    case VNone => Err(SerUnsupportedType(SerNone))
    case VSome(_) => Err(SerUnsupportedType(SerSome))
    case VUnit => Err(SerUnsupportedType(SerUnit))
  }

  /// Elements handed to a fixed-length compound that announced len elements
  /// and has taken next of them: one past the announced count is refused.
  function EncodeElems(len: nat, next: nat, es: seq<Value>): (r: Result<seq<byte>>)
    ensures r.Err? ==> SerRefusal(r.error)
    ensures r.Ok? && next <= len ==> next + |es| <= len
    decreases es
  {
    if es == [] then Ok([])
    else if next < len then
      var head :- Encode(es[0]);
      Prepend(head, EncodeElems(len, next + 1, es[1..]))
    else Err(ExcessElements(len))
  }

  /// Keys and values handed to a map compound, starting with a key: only
  /// keys are counted, and a key past the announced count is refused.
  function EncodeEntries(len: nat, next: nat, kvs: seq<Value>): (r: Result<seq<byte>>)
    ensures r.Err? ==> SerRefusal(r.error)
    ensures r.Ok? && next <= len ==> next + (|kvs| + 1) / 2 <= len
    decreases kvs
  {
    if kvs == [] then Ok([])
    else if next < len then
      var key :- Encode(kvs[0]);
      Prepend(key, EncodeValues(len, next + 1, kvs[1..]))
    else Err(ExcessElements(len))
  }

  /// The same, starting with a value, which is never refused.
  function EncodeValues(len: nat, next: nat, vks: seq<Value>): (r: Result<seq<byte>>)
    ensures r.Err? ==> SerRefusal(r.error)
    ensures r.Ok? && next <= len ==> next + |vks| / 2 <= len
    decreases vks
  {
    if vks == [] then Ok([])
    else
      var val :- Encode(vks[0]);
      Prepend(val, EncodeEntries(len, next, vks[1..]))
  }

  /// Every successful encoding is a whole number of 32-bit words.
  lemma {:induction false} EncodingIsAligned(v: Value)
    requires Encode(v).Ok?
    ensures |Encode(v).value| % 4 == 0
    decreases v
  {
    match v
    case VSeq(len, es) =>
      var body := EncodeElems(len.value, 0, es).value;
      assert Encode(v).value == EncodeInt(U32, len.value) + body;
      ElemsAligned(len.value, 0, es);
      AlignedConcat(EncodeInt(U32, len.value), body);
    case VMap(len, kvs) =>
      var body := EncodeEntries(len.value, 0, kvs).value;
      assert Encode(v).value == EncodeInt(U32, len.value) + body;
      EntriesAligned(len.value, 0, kvs);
      AlignedConcat(EncodeInt(U32, len.value), body);
    case VTuple(fs) =>
      ElemsAligned(|fs|, 0, fs);
    case VNewtypeStruct(x) =>
      EncodingIsAligned(x);
    case VNewtypeVariant(_, x) =>
      EncodingIsAligned(x);
    case VFieldsVariant(_, fs) =>
      ElemsAligned(|fs|, 0, fs);
    case _ =>
  }

  lemma {:induction false} ElemsAligned(len: nat, next: nat, es: seq<Value>)
    requires EncodeElems(len, next, es).Ok?
    ensures |EncodeElems(len, next, es).value| % 4 == 0
    decreases es
  {
    if es != [] {
      var head, tail := Encode(es[0]).value, EncodeElems(len, next + 1, es[1..]).value;
      assert EncodeElems(len, next, es).value == head + tail;
      EncodingIsAligned(es[0]);
      ElemsAligned(len, next + 1, es[1..]);
      AlignedConcat(head, tail);
    }
  }

  lemma {:induction false} EntriesAligned(len: nat, next: nat, kvs: seq<Value>)
    requires EncodeEntries(len, next, kvs).Ok?
    ensures |EncodeEntries(len, next, kvs).value| % 4 == 0
    decreases kvs
  {
    if kvs != [] {
      var key, tail := Encode(kvs[0]).value, EncodeValues(len, next + 1, kvs[1..]).value;
      assert EncodeEntries(len, next, kvs).value == key + tail;
      EncodingIsAligned(kvs[0]);
      ValuesAligned(len, next + 1, kvs[1..]);
      AlignedConcat(key, tail);
    }
  }

  lemma {:induction false} ValuesAligned(len: nat, next: nat, vks: seq<Value>)
    requires EncodeValues(len, next, vks).Ok?
    ensures |EncodeValues(len, next, vks).value| % 4 == 0
    decreases vks
  {
    if vks != [] {
      var val, tail := Encode(vks[0]).value, EncodeEntries(len, next, vks[1..]).value;
      assert EncodeValues(len, next, vks).value == val + tail;
      EncodingIsAligned(vks[0]);
      EntriesAligned(len, next, vks[1..]);
      AlignedConcat(val, tail);
    }
  }

  lemma AlignedConcat(a: seq<byte>, b: seq<byte>)
    requires |a| % 4 == 0 && |b| % 4 == 0
    ensures |a + b| % 4 == 0
  {
  }

  /// The rest of a map's entries, starting with a key or with a value.
  function EncodeFrom(len: nat, next: nat, kvs: seq<Value>, key: bool): Result<seq<byte>>
  {
    if key then EncodeEntries(len, next, kvs) else EncodeValues(len, next, kvs)
  }

  /// One key or value of a map's entries written out.
  lemma EncodeFromStep(len: nat, next: nat, kvs: seq<Value>, key: bool)
    requires kvs != []
    ensures EncodeFrom(len, next, kvs, key) ==
      if key && next >= len then Err(ExcessElements(len))
      else if Encode(kvs[0]).Err? then Err(Encode(kvs[0]).error)
      else Prepend(Encode(kvs[0]).value, EncodeFrom(len, if key then next + 1 else next, kvs[1..], !key))
  {
  }

  /// What a serializer call did to the writer, given the bytes it is expected to
  /// write: on success exactly those bytes were appended; on failure the
  /// same error is reported and the writer has at most grown.
  ghost predicate Wrote(r: Result<()>, before: seq<byte>, after: seq<byte>, expected: Result<seq<byte>>)
  {
    r.Ok? == expected.Ok?
    && (expected.Ok? ==> after == before + expected.value)
    && (expected.Err? ==> r.error == expected.error && before <= after)
  }

  class Serializer {
    /// The in-memory writer: everything serialized so far.
    var writer: seq<byte>

    constructor ()
      ensures writer == []
    {
      writer := [];
    }

    method SerializeBool(b: bool)
      modifies this
      ensures writer == old(writer) + EncodeBool(b)
    {
      writer := writer + LE(Identifiable.TypeId(Identifiable.IBool(b)), 4);
    }

    /// 8- and 16-bit integers are cast to their 32-bit counterpart and written
    /// as that; the cast keeps the value.
    method SerializeInt(k: IntKind, n: int)
      modifies this
      ensures writer == old(writer) + EncodeInt(k, n)
      decreases if k.Width() < 4 then 1 else 0
    {
      if k.Width() < 4 {
        SerializeInt(k.Wire(), n);
      } else {
        writer := writer + LE(Pattern(n, k.Width()), k.Width());
      }
    }

    /// The body shared by `serialize_str` and `serialize_bytes`.
    method WriteByteString(data: seq<byte>) returns (r: Result<()>)
      modifies this
      ensures Wrote(r, old(writer), writer, EncodeByteString(data))
    {
      var len := |data|;
      var rem: nat;
      if len <= 253 {
        writer := writer + [len];
        rem := (len + 1) % 4;
      } else if len <= 0xFF_FFFF {
        writer := writer + [254] + LE(len, 3);
        rem := len % 4;
      } else {
        return Err(StringTooLong(len));
      }
      writer := writer + data;
      var padding := (4 - rem) % 4;
      writer := writer + Zeros(padding);
      return Ok(());
    }

    method SerializeStr(s: seq<byte>) returns (r: Result<()>)
      modifies this
      ensures Wrote(r, old(writer), writer, Encode(VStr(s)))
    {
      r := WriteByteString(s);
    }

    method SerializeBytes(b: seq<byte>) returns (r: Result<()>)
      modifies this
      ensures Wrote(r, old(writer), writer, Encode(VBytes(b)))
    {
      r := WriteByteString(b);
    }

    /// A sequence writes its length as a u32 first; an unknown or too large
    /// length is refused before anything is written.
    method SerializeSeq(len: Option<nat>) returns (r: Result<SerializeFixedLengthSeq>)
      modifies this
      ensures r.Err? ==> writer == old(writer)
      ensures r.Err? ==> r.error == (if len.None? then SeqsWithUnknownLengthUnsupported else IntegerCast(len.value))
      ensures r.Ok? <==> len.Some? && len.value <= U32_MAX
      ensures r.Ok? ==> (fresh(r.value) && r.value.ser == this && r.value.len == len.value
        && r.value.nextIndex == 0 && writer == old(writer) + EncodeInt(U32, len.value))
    {
      if len.None? {
        return Err(SeqsWithUnknownLengthUnsupported);
      }
      var n :- SafeIntCast(len.value, U32);
      SerializeInt(U32, n);
      var compound := new SerializeFixedLengthSeq(this, n);
      return Ok(compound);
    }

    /// Tuples, tuple structs, structs and their variant forms announce their
    /// length only to the counter; nothing is written.
    method SerializeTuple(len: nat) returns (r: Result<SerializeFixedLengthSeq>)
      ensures r.Ok? <==> len <= U32_MAX
      ensures r.Err? ==> r.error == IntegerCast(len)
      ensures r.Ok? ==> fresh(r.value) && r.value.ser == this && r.value.len == len && r.value.nextIndex == 0
    {
      var n :- SafeIntCast(len, U32);
      var compound := new SerializeFixedLengthSeq(this, n);
      return Ok(compound);
    }

    method SerializeMap(len: Option<nat>) returns (r: Result<SerializeMap>)
      modifies this
      ensures r.Err? ==> writer == old(writer)
      ensures r.Err? ==> r.error == (if len.None? then MapsWithUnknownLengthUnsupported else IntegerCast(len.value))
      ensures r.Ok? <==> len.Some? && len.value <= U32_MAX
      ensures r.Ok? ==> (fresh(r.value) && r.value.ser == this && r.value.len == len.value
        && r.value.nextIndex == 0 && writer == old(writer) + EncodeInt(U32, len.value))
    {
      if len.None? {
        return Err(MapsWithUnknownLengthUnsupported);
      }
      var n :- SafeIntCast(len.value, U32);
      SerializeInt(U32, n);
      var compound := new SerializeMap(this, n);
      return Ok(compound);
    }

    /// Drives this serializer with v, as v's `Serialize` implementation does.
    method Serialize(v: Value) returns (r: Result<()>)
      modifies this
      ensures Wrote(r, old(writer), writer, Encode(v))
      decreases v, 0
    {
      match v {
        case VBool(b) =>
          SerializeBool(b);
          return Ok(());
        case VInt(k, n) =>
          SerializeInt(k, n);
          return Ok(());
        case VStr(s) =>
          r := SerializeStr(s);
        case VBytes(b) =>
          r := SerializeBytes(b);
        case VSeq(len, es) =>
          r := SerializeSeqOf(len, es);
        case VMap(len, kvs) =>
          r := SerializeMapOf(len, kvs);
        case VTuple(fs) =>
          r := SerializeFields(fs);
        case VUnitStruct =>
          return Ok(());
        case VNewtypeStruct(x) =>
          r := Serialize(x);
        case VUnitVariant(_) =>
          return Ok(());
        case VNewtypeVariant(_, x) =>
          r := Serialize(x);
        case VFieldsVariant(_, fs) =>
          r := SerializeFields(fs);
        case VChar(_) =>
          return Err(SerUnsupportedType(SerChar));
        case VNone =>
          return Err(SerUnsupportedType(SerNone));
        case VSome(_) =>
          return Err(SerUnsupportedType(SerSome));
        case VUnit =>
          return Err(SerUnsupportedType(SerUnit));
      }
    }

    /// A sequence: `serialize_seq` with its length, the elements, `end`.
    method SerializeSeqOf(len: Option<nat>, es: seq<Value>) returns (r: Result<()>)
      modifies this
      ensures Wrote(r, old(writer), writer, Encode(VSeq(len, es)))
      decreases es, 3
    {
      var compound :- SerializeSeq(len);
      r := SerializeElements(compound, es);
      if r.Ok? {
        r := compound.End();
      }
    }

    /// A map: `serialize_map` with its length, keys and values in turn, `end`.
    method SerializeMapOf(len: Option<nat>, kvs: seq<Value>) returns (r: Result<()>)
      modifies this
      ensures Wrote(r, old(writer), writer, Encode(VMap(len, kvs)))
      decreases kvs, 3
    {
      var compound :- SerializeMap(len);
      r := SerializeEntries(compound, kvs);
      if r.Ok? {
        r := compound.End();
      }
    }

    /// A tuple, tuple struct, struct or fields variant: `serialize_tuple` with
    /// the number of fields, the fields, `end`.
    method SerializeFields(fs: seq<Value>) returns (r: Result<()>)
      modifies this
      ensures Wrote(r, old(writer), writer, Encode(VTuple(fs)))
      decreases fs, 3
    {
      var compound :- SerializeTuple(|fs|);
      r := SerializeElements(compound, fs);
      if r.Ok? {
        r := compound.End();
      }
    }

    /// Hands es to the compound one by one, stopping at the first error.
    method SerializeElements(compound: SerializeFixedLengthSeq, es: seq<Value>) returns (r: Result<()>)
      requires compound.ser == this
      modifies this, compound
      ensures Wrote(r, old(writer), writer, EncodeElems(compound.len, old(compound.nextIndex), es))
      decreases es, 2
    {
      ghost var w0 := writer;
      ghost var start := compound.nextIndex;
      var i := 0;
      assert writer[|w0|..] == [];
      assert es[0..] == es;
      PrependEmpty(EncodeElems(compound.len, start, es));
      while i < |es|
        invariant 0 <= i <= |es|
        invariant compound.ser == this && compound.nextIndex == start + i
        invariant w0 <= writer
        invariant EncodeElems(compound.len, start, es) ==
          Prepend(writer[|w0|..], EncodeElems(compound.len, start + i, es[i..]))
      {
        assert es[i..][0] == es[i] && es[i..][1..] == es[i + 1..];
        ghost var before := writer;
        var step := compound.SerializeElement(es[i]);
        if step.Err? {
          return step;
        }
        assert writer[|w0|..] == before[|w0|..] + writer[|before|..];
        PrependPrepend(before[|w0|..], writer[|before|..], EncodeElems(compound.len, start + i + 1, es[i + 1..]));
        i := i + 1;
      }
      return Ok(());
    }

    /// Hands keys and values to the map compound in turn, stopping at the first error.
    method SerializeEntries(compound: SerializeMap, kvs: seq<Value>) returns (r: Result<()>)
      requires compound.ser == this
      modifies this, compound
      ensures Wrote(r, old(writer), writer, EncodeEntries(compound.len, old(compound.nextIndex), kvs))
      decreases kvs, 2
    {
      ghost var w0 := writer;
      ghost var start := compound.nextIndex;
      var i := 0;
      assert writer[|w0|..] == [];
      assert kvs[0..] == kvs;
      PrependEmpty(EncodeEntries(compound.len, start, kvs));
      while i < |kvs|
        invariant 0 <= i <= |kvs|
        invariant compound.ser == this
        invariant w0 <= writer
        invariant EncodeEntries(compound.len, start, kvs) ==
          Prepend(writer[|w0|..], EncodeFrom(compound.len, compound.nextIndex, kvs[i..], i % 2 == 0))
      {
        ghost var before := writer;
        ghost var done := writer[|w0|..];
        var step := SerializeEntry(compound, kvs, i);
        if step.Err? {
          return step;
        }
        assert writer[|w0|..] == done + writer[|before|..];
        PrependPrepend(done, writer[|before|..], EncodeFrom(compound.len, compound.nextIndex, kvs[i + 1..], i % 2 != 0));
        i := i + 1;
      }
      assert kvs[i..] == [];
      assert writer[|w0|..] + [] == writer[|w0|..];
      return Ok(());
    }

    /// One turn of that loop: kvs[i] handed to the compound as a key when i is
    /// even and as a value when i is odd. What it wrote is the front of what
    /// the entries from i on encode to; on an error, that encoding fails with it.
    method SerializeEntry(compound: SerializeMap, kvs: seq<Value>, i: nat) returns (r: Result<()>)
      requires compound.ser == this && i < |kvs|
      modifies this, compound
      ensures old(writer) <= writer
      ensures EncodeFrom(compound.len, old(compound.nextIndex), kvs[i..], i % 2 == 0)
           == if r.Err? then Err(r.error)
              else Prepend(writer[|old(writer)|..], EncodeFrom(compound.len, compound.nextIndex, kvs[i + 1..], i % 2 != 0))
      decreases kvs, 1
    {
      var key := i % 2 == 0;
      EncodeFromStep(compound.len, compound.nextIndex, kvs[i..], key);
      assert kvs[i..][0] == kvs[i] && kvs[i..][1..] == kvs[i + 1..];
      if key {
        r := compound.SerializeKey(kvs[i]);
      } else {
        r := compound.SerializeValue(kvs[i]);
      }
    }
  }

  /// The compound for sequences, tuples and structs: it counts the elements it
  /// is handed against the announced length.
  class SerializeFixedLengthSeq {
    const ser: Serializer
    const len: nat
    var nextIndex: nat

    constructor (ser: Serializer, len: nat)
      ensures this.ser == ser && this.len == len && nextIndex == 0
    {
      this.ser := ser;
      this.len := len;
      nextIndex := 0;
    }

    /// The counter never passes the announced length.
    ghost predicate Valid()
      reads this
    {
      nextIndex <= len
    }

    /// Refuses an element beyond the announced length, writing nothing;
    /// otherwise counts it and serializes it.
    method SerializeElement(v: Value) returns (r: Result<()>)
      modifies this, ser
      ensures nextIndex == if old(nextIndex) < len then old(nextIndex) + 1 else old(nextIndex)
      ensures old(Valid()) ==> Valid()
      ensures old(nextIndex) < len ==> Wrote(r, old(ser.writer), ser.writer, Encode(v))
      ensures old(nextIndex) >= len ==> r == Err(ExcessElements(len)) && ser.writer == old(ser.writer)
      decreases v, 1
    {
      if nextIndex < len {
        nextIndex := nextIndex + 1;
      } else {
        return Err(ExcessElements(len));
      }
      r := ser.Serialize(v);
    }

    /// Finishing checks nothing: fewer elements than announced pass. The
    /// source repeats this `end` in each of the six counter traits.
    method End() returns (r: Result<()>)
      ensures r == Ok(())
    {
      return Ok(());
    }
  }

  /// The compound for maps: keys are counted against the announced length,
  /// values are not.
  class SerializeMap {
    const ser: Serializer
    const len: nat
    var nextIndex: nat

    constructor (ser: Serializer, len: nat)
      ensures this.ser == ser && this.len == len && nextIndex == 0
    {
      this.ser := ser;
      this.len := len;
      nextIndex := 0;
    }

    ghost predicate Valid()
      reads this
    {
      nextIndex <= len
    }

    method SerializeKey(k: Value) returns (r: Result<()>)
      modifies this, ser
      ensures nextIndex == if old(nextIndex) < len then old(nextIndex) + 1 else old(nextIndex)
      ensures old(Valid()) ==> Valid()
      ensures old(nextIndex) < len ==> Wrote(r, old(ser.writer), ser.writer, Encode(k))
      ensures old(nextIndex) >= len ==> r == Err(ExcessElements(len)) && ser.writer == old(ser.writer)
      decreases k, 1
    {
      if nextIndex < len {
        nextIndex := nextIndex + 1;
      } else {
        return Err(ExcessElements(len));
      }
      r := ser.Serialize(k);
    }

    method SerializeValue(v: Value) returns (r: Result<()>)
      modifies ser
      ensures Wrote(r, old(ser.writer), ser.writer, Encode(v))
      decreases v, 1
    {
      r := ser.Serialize(v);
    }

    /// The same as the sequence counter's: the source repeats that `end`.
    method End() returns (r: Result<()>)
      ensures r == Ok(())
    {
      return Ok(());
    }
  }

  /// Serializes v into a fresh in-memory writer and returns what it holds.
  method ToBytes(v: Value) returns (r: Result<seq<byte>>)
    ensures r == Encode(v)
  {
    var ser := new Serializer();
    var done := ser.Serialize(v);
    if done.Err? {
      return Err(done.error);
    }
    var expected := Encode(v);
    assert expected.Ok? && ser.writer == [] + expected.value;
    assert [] + expected.value == expected.value;
    return Ok(ser.writer);
  }
}
