// The wrappers that put a value behind its type id, its predicted size, or
// both (src/wrappers.rs), and the older pair of src/boxed.rs. Each wrapper is
// a plain struct: it is serialized as its fields in order, with no header.
module Wrappers {
  import opened Errors
  import opened Bytes
  import opened Ints
  import opened Utils
  import opened Values
  import opened Ser
  import opened Sized

  /// `Boxed<T>`: the type id of the inner value, then the value.
  datatype Boxed = Boxed(id: u32, inner: Value)

  /// `WithSize<T>`: the predicted size of the inner value as a u32, then the value.
  datatype WithSize = WithSize(size: u32, inner: Value)

  /// `BoxedWithSize<T>`: type id, u32 size, then the value.
  datatype BoxedWithSize = BoxedWithSize(id: u32, size: u32, inner: Value)

  /// `BoxedWithLength<T>` of src/boxed.rs: type id, then a `usize` size, then
  /// the value.
  datatype BoxedWithLength = BoxedWithLength(id: u32, size: usize, inner: Value)

  // Construction. The `Identifiable` implementation of the inner type is
  // code the wrappers call but do not define: it is the parameter typeId.

  /// `Boxed::new`: the id is the one the inner value reports.
  function NewBoxed(inner: Value, typeId: Value -> u32): (b: Boxed)
    ensures b.id == typeId(inner) && b.inner == inner
  {
    Boxed(typeId(inner), inner)
  }

  /// `WithSize::new`: the size hint of the inner value must succeed and fit a u32.
  function NewWithSize(inner: Value): (r: Result<WithSize>)
    requires Sizable(inner)
    ensures r.Ok? <==> SizeHint(inner).Ok? && SizeHint(inner).value <= U32_MAX
    ensures r.Ok? ==> r.value.inner == inner && r.value.size == SizeHint(inner).value
    ensures SizeHint(inner).Err? ==> r == Err(SizeHint(inner).error)
    ensures SizeHint(inner).Ok? && SizeHint(inner).value > U32_MAX ==>
              r == Err(IntegerCast(SizeHint(inner).value))
  {
    var n :- SizeHint(inner);
    var size :- SafeIntCast(n, U32);
    Ok(WithSize(size, inner))
  }

  /// `BoxedWithSize::new`: the id of the inner value and its size as a u32.
  function NewBoxedWithSize(inner: Value, typeId: Value -> u32): (r: Result<BoxedWithSize>)
    requires Sizable(inner)
    ensures r.Ok? <==> SizeHint(inner).Ok? && SizeHint(inner).value <= U32_MAX
    ensures r.Ok? ==> r.value.inner == inner && r.value.id == typeId(inner)
                      && r.value.size == SizeHint(inner).value
    ensures SizeHint(inner).Err? ==> r == Err(SizeHint(inner).error)
    ensures SizeHint(inner).Ok? && SizeHint(inner).value > U32_MAX ==>
              r == Err(IntegerCast(SizeHint(inner).value))
  {
    var n :- SizeHint(inner);
    var size :- SafeIntCast(n, U32);
    Ok(BoxedWithSize(typeId(inner), size, inner))
  }

  /// `BoxedWithLength::new`: the size is stored as a `usize` without a
  /// checked cast; it fails only when the size hint does.
  function NewBoxedWithLength(inner: Value, typeId: Value -> u32): (r: Result<BoxedWithLength>)
    requires Sizable(inner)
    requires SizeHint(inner).Ok? ==> SizeHint(inner).value <= USIZE_MAX
    ensures r.Ok? <==> SizeHint(inner).Ok?
    ensures r.Ok? ==> r.value.inner == inner && r.value.id == typeId(inner)
                      && r.value.size == SizeHint(inner).value
    ensures r.Err? ==> r == Err(SizeHint(inner).error)
  {
    var n :- SizeHint(inner);
    Ok(BoxedWithLength(typeId(inner), n, inner))
  }

  // `inner_mut`: the one field a caller may change through a wrapper.

  function BoxedSetInner(b: Boxed, x: Value): (c: Boxed)
    ensures c.inner == x && c.id == b.id
  {
    b.(inner := x)
  }

  function WithSizeSetInner(w: WithSize, x: Value): (c: WithSize)
    ensures c.inner == x && c.size == w.size
  {
    w.(inner := x)
  }

  function BoxedWithSizeSetInner(w: BoxedWithSize, x: Value): (c: BoxedWithSize)
    ensures c.inner == x && c.id == w.id && c.size == w.size
  {
    w.(inner := x)
  }

  /// The same accessor as BoxedWithSizeSetInner, for the second copy of the
  /// wrapper in src/boxed.rs.
  function BoxedWithLengthSetInner(w: BoxedWithLength, x: Value): (c: BoxedWithLength)
    ensures c.inner == x && c.id == w.id && c.size == w.size
  {
    w.(inner := x)
  }

  // What the wrappers hand to the serializer: a struct of their fields.

  function BoxedValue(b: Boxed): Value
  {
    VTuple([VInt(U32, b.id), b.inner])
  }

  function WithSizeValue(w: WithSize): Value
  {
    VTuple([VInt(U32, w.size), w.inner])
  }

  function BoxedWithSizeValue(w: BoxedWithSize): Value
  {
    VTuple([VInt(U32, w.id), VInt(U32, w.size), w.inner])
  }

  function BoxedWithLengthValue(w: BoxedWithLength): Value
  {
    VTuple([VInt(U32, w.id), VInt(U64, w.size), w.inner])
  }

  // `size_hint` of each wrapper: the sizes of its header fields plus the
  // size of the inner value, whose error is passed on.

  function BoxedSizeHint(b: Boxed): (r: Result<nat>)
    requires Sizable(b.inner)
    ensures r.Ok? <==> SizeHint(b.inner).Ok?
    ensures r.Ok? ==> r.value == INT_SIZE + SizeHint(b.inner).value
    ensures r.Err? ==> r == SizeHint(b.inner)
  {
    var n :- SizeHint(b.inner);
    Ok(INT_SIZE + n)
  }

  /// The same sum as BoxedSizeHint: src/wrappers.rs repeats it with the
  /// size field in place of the id.
  function WithSizeSizeHint(w: WithSize): (r: Result<nat>)
    requires Sizable(w.inner)
    ensures r.Ok? <==> SizeHint(w.inner).Ok?
    ensures r.Ok? ==> r.value == INT_SIZE + SizeHint(w.inner).value
    ensures r.Err? ==> r == SizeHint(w.inner)
  {
    var n :- SizeHint(w.inner);
    Ok(INT_SIZE + n)
  }

  function BoxedWithSizeSizeHint(w: BoxedWithSize): (r: Result<nat>)
    requires Sizable(w.inner)
    ensures r.Ok? <==> SizeHint(w.inner).Ok?
    ensures r.Ok? ==> r.value == INT_SIZE + INT_SIZE + SizeHint(w.inner).value
    ensures r.Err? ==> r == SizeHint(w.inner)
  {
    var n :- SizeHint(w.inner);
    Ok(INT_SIZE + INT_SIZE + n)
  }

  /// The size field is a `usize`, which takes eight bytes.
  function BoxedWithLengthSizeHint(w: BoxedWithLength): (r: Result<nat>)
    requires Sizable(w.inner)
    ensures r.Ok? <==> SizeHint(w.inner).Ok?
    ensures r.Ok? ==> r.value == INT_SIZE + LONG_SIZE + SizeHint(w.inner).value
    ensures r.Err? ==> r == SizeHint(w.inner)
  {
    var n :- SizeHint(w.inner);
    Ok(INT_SIZE + USIZE_BYTES + n)
  }

  // Encodings.

  /// A field with an encoding in front of the rest of a struct.
  lemma FieldThenRest(len: nat, next: nat, v: Value, vs: seq<Value>, a: seq<byte>)
    requires next < len && Encode(v) == Ok(a)
    ensures EncodeElems(len, next, [v] + vs) == Prepend(a, EncodeElems(len, next + 1, vs))
  {
    assert ([v] + vs)[0] == v && ([v] + vs)[1..] == vs;
  }

  /// The last field of a struct is written as it is, or its error is passed on.
  lemma LastField(len: nat, x: Value)
    requires len > 0
    ensures EncodeElems(len, len - 1, [x]) == Encode(x)
  {
    assert [x][1..] == [];
    assert EncodeElems(len, len, []) == Ok([]);
    if Encode(x).Ok? {
      assert Encode(x).value + [] == Encode(x).value;
    }
  }

  /// A `Boxed` value is written as its id, four bytes lowest first, followed
  /// by the encoding of the inner value; an error of the inner value is the
  /// error of the whole.
  lemma BoxedEncoding(b: Boxed)
    ensures Encode(BoxedValue(b)) == Prepend(LE(b.id, 4), Encode(b.inner))
  {
    U32Field(b.id);
    LastField(2, b.inner);
    FieldThenRest(2, 0, VInt(U32, b.id), [b.inner], LE(b.id, 4));
    assert [VInt(U32, b.id)] + [b.inner] == [VInt(U32, b.id), b.inner];
    assert SafeIntCast(2, U32) == Ok(2);
  }

  lemma WithSizeEncoding(w: WithSize)
    ensures Encode(WithSizeValue(w)) == Prepend(LE(w.size, 4), Encode(w.inner))
  {
    U32Field(w.size);
    LastField(2, w.inner);
    FieldThenRest(2, 0, VInt(U32, w.size), [w.inner], LE(w.size, 4));
    assert [VInt(U32, w.size)] + [w.inner] == [VInt(U32, w.size), w.inner];
    assert SafeIntCast(2, U32) == Ok(2);
  }

  /// Two header fields in front of the inner value.
  lemma TwoHeaders(h1: Value, h2: Value, x: Value, e1: seq<byte>, e2: seq<byte>)
    requires Encode(h1) == Ok(e1) && Encode(h2) == Ok(e2)
    ensures EncodeElems(3, 0, [h1, h2, x]) == Prepend(e1 + e2, Encode(x))
  {
    LastField(3, x);
    FieldThenRest(3, 1, h2, [x], e2);
    assert [h2] + [x] == [h2, x];
    FieldThenRest(3, 0, h1, [h2, x], e1);
    assert [h1] + [h2, x] == [h1, h2, x];
    PrependPrepend(e1, e2, Encode(x));
  }

  lemma BoxedWithSizeEncoding(w: BoxedWithSize)
    ensures Encode(BoxedWithSizeValue(w)) == Prepend(LE(w.id, 4) + LE(w.size, 4), Encode(w.inner))
  {
    U32Field(w.id);
    U32Field(w.size);
    TwoHeaders(VInt(U32, w.id), VInt(U32, w.size), w.inner, LE(w.id, 4), LE(w.size, 4));
    assert SafeIntCast(3, U32) == Ok(3);
  }

  lemma BoxedWithLengthEncoding(w: BoxedWithLength)
    ensures Encode(BoxedWithLengthValue(w)) == Prepend(LE(w.id, 4) + LE(w.size, 8), Encode(w.inner))
  {
    U32Field(w.id);
    U64Field(w.size);
    TwoHeaders(VInt(U32, w.id), VInt(U64, w.size), w.inner, LE(w.id, 4), LE(w.size, 8));
    assert SafeIntCast(3, U32) == Ok(3);
  }

  // Sizes against encodings: for an inner value of a Rust type, each
  // wrapper's size hint is the length of what the wrapper writes.

  lemma BoxedSizeIsEncodedLength(b: Boxed, s: Shape)
    requires Conforms(b.inner, s)
    ensures Sizable(b.inner) && Encode(BoxedValue(b)).Ok?
    ensures BoxedSizeHint(b) == Ok(|Encode(BoxedValue(b)).value|)
  {
    SizeHintIsEncodedLength(b.inner, s);
    BoxedEncoding(b);
  }

  lemma WithSizeSizeIsEncodedLength(w: WithSize, s: Shape)
    requires Conforms(w.inner, s)
    ensures Sizable(w.inner) && Encode(WithSizeValue(w)).Ok?
    ensures WithSizeSizeHint(w) == Ok(|Encode(WithSizeValue(w)).value|)
  {
    SizeHintIsEncodedLength(w.inner, s);
    WithSizeEncoding(w);
  }

  lemma BoxedWithSizeSizeIsEncodedLength(w: BoxedWithSize, s: Shape)
    requires Conforms(w.inner, s)
    ensures Sizable(w.inner) && Encode(BoxedWithSizeValue(w)).Ok?
    ensures BoxedWithSizeSizeHint(w) == Ok(|Encode(BoxedWithSizeValue(w)).value|)
  {
    SizeHintIsEncodedLength(w.inner, s);
    BoxedWithSizeEncoding(w);
  }

  lemma BoxedWithLengthSizeIsEncodedLength(w: BoxedWithLength, s: Shape)
    requires Conforms(w.inner, s)
    ensures Sizable(w.inner) && Encode(BoxedWithLengthValue(w)).Ok?
    ensures BoxedWithLengthSizeHint(w) == Ok(|Encode(BoxedWithLengthValue(w)).value|)
  {
    SizeHintIsEncodedLength(w.inner, s);
    BoxedWithLengthEncoding(w);
  }

  /// A freshly built `WithSize` exists exactly when the encoding of its value
  /// fits a u32 length, and then its size field is that length, so the
  /// header announces exactly the bytes that follow it.
  lemma NewWithSizeAnnouncesInner(inner: Value, s: Shape)
    requires Conforms(inner, s)
    ensures Sizable(inner) && Encode(inner).Ok?
    ensures NewWithSize(inner).Ok? <==> |Encode(inner).value| <= U32_MAX
    ensures NewWithSize(inner).Ok? ==>
              Encode(WithSizeValue(NewWithSize(inner).value))
                == Ok(LE(|Encode(inner).value|, 4) + Encode(inner).value)
  {
    SizeHintIsEncodedLength(inner, s);
    if NewWithSize(inner).Ok? {
      WithSizeEncoding(NewWithSize(inner).value);
    }
  }

  lemma NewBoxedWithSizeAnnouncesInner(inner: Value, s: Shape, typeId: Value -> u32)
    requires Conforms(inner, s)
    ensures Sizable(inner) && Encode(inner).Ok?
    ensures NewBoxedWithSize(inner, typeId).Ok? <==> |Encode(inner).value| <= U32_MAX
    ensures NewBoxedWithSize(inner, typeId).Ok? ==>
              Encode(BoxedWithSizeValue(NewBoxedWithSize(inner, typeId).value))
                == Ok(LE(typeId(inner), 4) + LE(|Encode(inner).value|, 4) + Encode(inner).value)
  {
    SizeHintIsEncodedLength(inner, s);
    if NewBoxedWithSize(inner, typeId).Ok? {
      BoxedWithSizeEncoding(NewBoxedWithSize(inner, typeId).value);
    }
  }

  /// `inner_mut` leaves the size field alone, so replacing the inner value
  /// can make the stored size disagree with the value: a bool (4 bytes)
  /// replaced by a u64 (8 bytes) still announces 4.
  lemma SetInnerCanStaleTheSize()
    ensures var w := NewWithSize(VBool(true));
            w.Ok? && var c := WithSizeSetInner(w.value, VInt(U64, 0));
            c.size == 4 && SizeHint(c.inner) == Ok(8)
  {
  }
}
