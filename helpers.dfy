// The unsized byte buffer of src/helpers.rs: bytes written without a length
// prefix, padded with zeros to a multiple of 16 and sent as a tuple of u64s.
// A reader must know the length in advance, from a seed.
module Helpers {
  import opened Errors
  import opened Bytes
  import opened Ints
  import opened Utils
  import opened Values
  import opened Ser
  import opened De

  /// `size_hint_from_unsized_byte_seq_len`: the smallest multiple of 16 that
  /// holds len bytes. It never fails.
  function UnsizedSizeHint(len: nat): (r: Result<nat>)
    ensures r.Ok? && r.value % 16 == 0
    ensures len <= r.value < len + 16
  {
    Ok(len + (16 - len % 16) % 16)
  }

  /// The padded length is a whole number of u64s.
  lemma PaddedIsChunks(len: nat)
    ensures var p := UnsizedSizeHint(len).value; p == 8 * (p / 8)
  {
    var p := UnsizedSizeHint(len).value;
    var q := p / 16;
    assert p == 16 * q;
    assert p / 8 == 2 * q;
  }

  /// b followed by zeros up to the padded length.
  function Padded(b: seq<byte>): (p: seq<byte>)
    ensures |p| == UnsizedSizeHint(|b|).value
    ensures p[..|b|] == b && AllZero(p[|b|..])
  {
    var p := b + Zeros(UnsizedSizeHint(|b|).value - |b|);
    assert p[..|b|] == b && p[|b|..] == Zeros(UnsizedSizeHint(|b|).value - |b|);
    p
  }

  /// What serializing an `UnsizedByteBuf` writes: the padded bytes, and no
  /// length. The tuple of u64s has to announce a count that fits a u32. The
  /// size hint of the buffer is the length written.
  function UnsizedBytes(b: seq<byte>): (r: Result<seq<byte>>)
    ensures r.Ok? <==> UnsizedSizeHint(|b|).value / 8 <= U32_MAX
    ensures r.Ok? ==> r.value == Padded(b)
    ensures r.Ok? ==> UnsizedSizeHint(|b|) == Ok(|r.value|)
    ensures r.Err? ==> r.error == IntegerCast(UnsizedSizeHint(|b|).value / 8)
  {
    var count := UnsizedSizeHint(|b|).value / 8;
    if count <= U32_MAX then Ok(Padded(b)) else Err(IntegerCast(count))
  }

  /// Padding a buffer that is already padded changes nothing (the tests pad
  /// their buffers before wrapping them).
  lemma PaddedIdempotent(b: seq<byte>)
    ensures Padded(Padded(b)) == Padded(b)
  {
    var p := Padded(b);
    assert UnsizedSizeHint(|p|).value == |p|;
    assert Zeros(0) == [] && p + [] == p;
  }

  /// The u64 a chunk is read as: eight bytes when there are eight, otherwise
  /// what remains, zero-extended (nothing left reads as 0).
  function ChunkValue(rest: seq<byte>): (n: nat)
    ensures n < Pow256(8)
  {
    if |rest| >= 8 then FromLE(rest[..8])
    else
      Pow256Grows(|rest|, 8);
      FromLE(rest)
  }

  /// Chunk k of the padded buffer is the u64 read from what is left of the
  /// buffer after k chunks.
  lemma ChunkOfPadded(b: seq<byte>, k: nat)
    requires 8 * k < UnsizedSizeHint(|b|).value
    ensures 8 * k + 8 <= |Padded(b)|
    ensures LE(ChunkValue(Unread(b, 8 * k)), 8) == Padded(b)[8 * k..8 * k + 8]
  {
    var padded := UnsizedSizeHint(|b|).value;
    var q := padded / 16;
    assert padded == 16 * q;
    assert k < 2 * q;
    var at := 8 * k;
    var p := Padded(b);
    var rest := Unread(b, at);
    if |rest| >= 8 {
      LEofFromLE(rest[..8]);
      assert rest[..8] == p[at..at + 8];
    } else {
      LEWiden(rest, 8);
      assert rest + Zeros(8 - |rest|) == p[at..at + 8];
    }
  }

  /// What is left of b to read after at bytes.
  function Unread(b: seq<byte>, at: nat): seq<byte>
  {
    if at <= |b| then b[at..] else []
  }

  /// One turn of the serializing loop: the u64 it writes is the chunk of the
  /// padded buffer at the current offset, and what is left to read moves on
  /// by eight bytes.
  lemma ChunkStep(b: seq<byte>, k: nat, value: nat, rest: seq<byte>)
    requires 8 * k < UnsizedSizeHint(|b|).value
    requires var u := Unread(b, 8 * k);
             value == ChunkValue(u) && rest == if |u| >= 8 then u[8..] else []
    ensures 8 * k + 8 <= |Padded(b)| && value < Pow256(8)
    ensures Encode(VInt(U64, value)) == Ok(Padded(b)[8 * k..8 * k + 8])
    ensures rest == Unread(b, 8 * k + 8)
  {
    ChunkOfPadded(b, k);
    var at := 8 * k;
    var u := Unread(b, at);
    Pow256Widths();
    U64Field(value);
    if |u| >= 8 {
      assert u[8..] == b[at + 8..];
    }
  }

  /// One turn of that loop: read the next u64 from what is left of the
  /// buffer and hand it to the tuple, which writes the next chunk of the
  /// padded buffer.
  method SerializeChunk(compound: SerializeFixedLengthSeq, inner: seq<byte>, innerRef: seq<byte>)
    returns (rest: seq<byte>)
    requires compound.nextIndex < compound.len && 8 * compound.nextIndex < UnsizedSizeHint(|inner|).value
    requires innerRef == Unread(inner, 8 * compound.nextIndex)
    modifies compound, compound.ser
    ensures compound.nextIndex == old(compound.nextIndex) + 1
    ensures 8 * compound.nextIndex <= |Padded(inner)|
    ensures compound.ser.writer
         == old(compound.ser.writer) + Padded(inner)[8 * old(compound.nextIndex)..8 * compound.nextIndex]
    ensures rest == Unread(inner, 8 * compound.nextIndex)
  {
    var u64Value;
    u64Value, rest := ReadChunk(innerRef);
    ChunkStep(inner, compound.nextIndex, u64Value, rest);
    var _ := compound.SerializeElement(VInt(U64, u64Value));
  }

  lemma AppendChunk(w0: seq<byte>, out: seq<byte>, at: nat, before: seq<byte>, after: seq<byte>)
    requires at + 8 <= |out| && before == w0 + out[..at] && after == before + out[at..at + 8]
    ensures after == w0 + out[..at + 8]
  {
    assert out[..at] + out[at..at + 8] == out[..at + 8];
  }

  /// The read of one u64 from the rest of the buffer: `read_u64` when eight
  /// bytes are left, otherwise `read_uint` of the bytes that are left, which
  /// empties the buffer; an empty buffer gives 0.
  method ReadChunk(innerRef: seq<byte>) returns (value: nat, rest: seq<byte>)
    ensures value == ChunkValue(innerRef)
    ensures rest == if |innerRef| >= 8 then innerRef[8..] else []
  {
    if innerRef != [] {
      if |innerRef| >= 8 {
        value := FromLE(innerRef[..8]);
        rest := innerRef[8..];
      } else {
        value := FromLE(innerRef);
        rest := [];
      }
    } else {
      value := 0;
      rest := [];
    }
  }

  /// `UnsizedByteBuf::serialize`: announce a tuple of padded_len / 8 u64s,
  /// then read the buffer eight bytes at a time, the last partial chunk
  /// zero-extended and the padding as zeros, and write each u64.
  method SerializeUnsized(ser: Serializer, inner: seq<byte>) returns (r: Result<()>)
    modifies ser
    ensures Wrote(r, old(ser.writer), ser.writer, UnsizedBytes(inner))
  {
    var innerLen := |inner|;
    var paddedLen := innerLen + (16 - innerLen % 16) % 16;
    var u64PaddedLen := paddedLen / 8;
    var innerRef := inner;
    var serializeTuple :- ser.SerializeTuple(u64PaddedLen);
    ghost var w0 := ser.writer;
    ghost var out := Padded(inner);
    assert paddedLen == UnsizedSizeHint(innerLen).value;
    PaddedIsChunks(innerLen);
    var serializedLen := 0;
    while serializedLen < paddedLen
      invariant serializeTuple.ser == ser && serializeTuple.len == u64PaddedLen
      invariant serializedLen == 8 * serializeTuple.nextIndex && serializeTuple.nextIndex <= u64PaddedLen
      invariant innerRef == Unread(inner, serializedLen)
      invariant ser.writer == w0 + out[..serializedLen]
      decreases paddedLen - serializedLen
    {
      ghost var before := ser.writer;
      innerRef := SerializeChunk(serializeTuple, inner, innerRef);
      AppendChunk(w0, out, serializedLen, before, ser.writer);
      serializedLen := serializedLen + 8;
    }
    assert out[..serializedLen] == out;
    r := serializeTuple.End();
  }

  /// What reading an unsized buffer of inner_len bytes yields at pos: the
  /// padded length's worth of input, taken as it stands.
  function UnsizedAt(innerLen: nat, input: seq<byte>, pos: nat, hints: seq<string>): (r: Result<Decoded<seq<byte>>>)
    ensures var n := UnsizedSizeHint(innerLen).value;
            (r.Ok? <==> pos + n <= |input|)
            && (r.Ok? ==> r.value == Decoded(input[pos..pos + n], pos + n, hints))
            && (r.Err? ==> r.error == UnexpectedEof)
  {
    var n := UnsizedSizeHint(innerLen).value;
    if pos + n <= |input| then Ok(Decoded(input[pos..pos + n], pos + n, hints)) else Err(UnexpectedEof)
  }

  /// A u64 element is the next eight bytes, read little-endian.
  lemma U64At(input: seq<byte>, canonical: bool, pos: nat, hints: seq<string>)
    ensures ValueAt(SInt(U64), input, canonical, pos, hints)
              == if pos + 8 <= |input| then Ok(Decoded(VInt(U64, FromLE(input[pos..pos + 8])), pos + 8, hints))
                 else Err(UnexpectedEof)
  {
    if pos + 8 <= |input| {
      var n := FromLE(input[pos..pos + 8]);
      Pow256Widths();
      assert Interpret(n, U64) == n;
    }
  }

  /// One turn of the visitor loop: the accessor's next u64, or None once
  /// the announced count is reached.
  method NextChunk(access: SeqAccess) returns (r: Result<Option<nat>>)
    modifies access, access.de
    ensures r.Ok? ==> access.de.hints == old(access.de.hints)
    ensures old(access.nextIndex) >= access.len ==>
              r == Ok(None) && access.nextIndex == old(access.nextIndex) && access.de.pos == old(access.de.pos)
    ensures old(access.nextIndex) < access.len ==>
              var p := old(access.de.pos);
              access.nextIndex == old(access.nextIndex) + 1
              && (r.Ok? <==> p + 8 <= |access.de.input|)
              && (r.Err? ==> r.error == UnexpectedEof)
              && (r.Ok? ==> r.value == Some(FromLE(access.de.input[p..p + 8])) && access.de.pos == p + 8)
  {
    U64At(access.de.input, access.de.canonical, access.de.pos, access.de.hints);
    var next := access.NextElement(SInt(U64));
    if next.Err? {
      return Err(next.error);
    }
    if next.value.None? {
      return Ok(None);
    }
    var value := next.value.value;
    return Ok(Some(if value.VInt? && value.n >= 0 then value.n else 0));
  }

  /// `UnsizedByteBufSeed::deserialize`: ask for a tuple of padded_len / 8
  /// u64s and write each one little-endian into the buffer until the
  /// accessor reports the end. The padded length is computed in u32, so the
  /// seed's length must leave room for the padding.
  method DeserializeUnsized(de: Deserializer, innerLen: u32) returns (r: Result<seq<byte>>)
    requires innerLen + (16 - innerLen % 16) % 16 <= U32_MAX
    requires de.pos <= |de.input|
    modifies de
    ensures Gave(r, de.pos, de.hints, UnsizedAt(innerLen, de.input, old(de.pos), old(de.hints)))
  {
    var paddedBytesLen := innerLen + (16 - innerLen % 16) % 16;
    var paddedLen := paddedBytesLen / 8;
    // Both casts of the count (to usize, then to u32 for the accessor)
    // succeed: it is at most U32_MAX / 8.
    var n := paddedLen;
    var access := new SeqAccess(de, n);
    ghost var p0 := de.pos;
    assert paddedBytesLen == 8 * n;
    var inner: seq<byte> := [];
    while true
      invariant access.de == de && access.len == n && access.nextIndex <= n
      invariant de.pos == p0 + 8 * access.nextIndex <= |de.input|
      invariant de.hints == old(de.hints)
      invariant inner == de.input[p0..de.pos]
      decreases n - access.nextIndex
    {
      ghost var before := de.pos;
      var next := NextChunk(access);
      if next.Err? {
        return Err(next.error);
      }
      if next.value.None? {
        break;
      }
      AppendRead(de.input, p0, before, inner, next.value.value);
      inner := inner + LE(next.value.value, 8);
    }
    return Ok(inner);
  }

  /// Writing back the u64 just read extends the buffer by the bytes read.
  lemma AppendRead(input: seq<byte>, p0: nat, at: nat, inner: seq<byte>, m: nat)
    requires p0 <= at && at + 8 <= |input| && inner == input[p0..at] && m == FromLE(input[at..at + 8])
    ensures inner + LE(m, 8) == input[p0..at + 8]
  {
    LEofFromLE(input[at..at + 8]);
    assert input[p0..at] + input[at..at + 8] == input[p0..at + 8];
  }

  /// Serializing a buffer and reading it back with a seed of its length gives
  /// the buffer padded with zeros to a multiple of 16, and consumes exactly
  /// what was written.
  lemma UnsizedRoundTrip(b: seq<byte>, trailing: seq<byte>, hints: seq<string>)
    requires UnsizedBytes(b).Ok?
    ensures UnsizedAt(|b|, UnsizedBytes(b).value + trailing, 0, hints)
              == Ok(Decoded(Padded(b), |Padded(b)|, hints))
  {
    var p := UnsizedBytes(b).value;
    assert (p + trailing)[0..|p|] == p;
  }

  /// `MESSAGE`'s encrypted data: 19 bytes padded to 32.
  const ENCRYPTED_DATA: seq<byte> := seq(19, i requires 0 <= i < 19 => i)

  lemma EncryptedDataPadding()
    ensures UnsizedBytes(ENCRYPTED_DATA) == Ok(ENCRYPTED_DATA + Zeros(13))
    ensures UnsizedBytes(Padded(ENCRYPTED_DATA)) == UnsizedBytes(ENCRYPTED_DATA)
  {
    assert UnsizedSizeHint(19).value == 32;
    PaddedIdempotent(ENCRYPTED_DATA);
  }
}
