// The deserializer (src/de.rs): what reading a value of a given shape from a
// byte string yields, as functions, and the deserializer object with its
// sequence, map and enum accessors that does it step by step.
module De {
  import opened Errors
  import opened Bytes
  import opened Ints
  import opened Utils
  import opened Values
  import opened Utf8
  import Identifiable
  import Ser

  /// What the first byte (and, for 254, the next three) of a string says.
  datatype StrInfo = StrInfo(len: nat, padding: nat, long: bool)

  /// A value read, the position after it and the enum variant hints left.
  datatype Decoded<T> = Decoded(value: T, pos: nat, hints: seq<string>)

  /// w bytes at pos read as a little-endian number; the reader fails when
  /// fewer than w bytes are left.
  function UintAt(input: seq<byte>, pos: nat, w: nat): (r: Result<(nat, nat)>)
    ensures r.Ok? <==> pos + w <= |input|
    ensures r.Err? ==> r.error == UnexpectedEof
    ensures r.Ok? ==> r.value.0 == FromLE(input[pos..pos + w]) && r.value.1 == pos + w
  {
    if pos + w <= |input| then Ok((FromLE(input[pos..pos + w]), pos + w)) else Err(UnexpectedEof)
  }

  function BytesAt(input: seq<byte>, pos: nat, n: nat): (r: Result<(seq<byte>, nat)>)
    ensures r.Ok? <==> pos + n <= |input|
    ensures r.Err? ==> r.error == UnexpectedEof
    ensures r.Ok? ==> r.value.0 == input[pos..pos + n] && r.value.1 == pos + n
  {
    if pos + n <= |input| then Ok((input[pos..pos + n], pos + n)) else Err(UnexpectedEof)
  }

  /// The string header: a first byte up to 253 is the length itself, 254
  /// announces three length bytes, 255 is refused. With `canonical`, a 254
  /// header whose length would have fitted the short form is refused too.
  function StrInfoAt(input: seq<byte>, canonical: bool, pos: nat): (r: Result<(StrInfo, nat)>)
    ensures r.Ok? ==> pos < r.value.1 <= |input| && r.value.0.padding < 4
    ensures r.Ok? && !r.value.0.long ==> r.value.0.len <= 253
    ensures r.Ok? && canonical && r.value.0.long ==> r.value.0.len >= 254
  {
    var first :- UintAt(input, pos, 1);
    var b := first.0;
    if b <= 253 then Ok((StrInfo(b, Ser.PaddingFor(b + 1), false), first.1))
    else if b == 254 then
      var len :- UintAt(input, first.1, 3);
      if canonical && len.0 < 254 then Err(BytesLenPrefix254LessThan254(len.0))
      else Ok((StrInfo(len.0, Ser.PaddingFor(len.0), true), len.1))
    else Err(InvalidValue(255))
  }

  /// A string's or byte string's data: the header, the data, then the padding,
  /// which is skipped unread unless `canonical` asks for zeros. Text is
  /// checked to be UTF-8 before the padding is consumed.
  function ByteStringAt(input: seq<byte>, canonical: bool, text: bool, pos: nat): (r: Result<(seq<byte>, nat)>)
    ensures r.Ok? ==> pos + |r.value.0| < r.value.1 <= |input|
    ensures r.Ok? && text ==> ValidUtf8(r.value.0)
  {
    var info :- StrInfoAt(input, canonical, pos);
    var data :- BytesAt(input, info.1, info.0.len);
    if text && !ValidUtf8(data.0) then Err(Utf8Invalid)
    else
      var pad :- BytesAt(input, data.1, info.0.padding);
      if canonical && !AllZero(pad.0) then Err(NonZeroBytesPadding)
      else Ok((data.0, pad.1))
  }

  /// A bool is one of the two type ids as a 32-bit word; any other word is
  /// refused, reported as the signed number it reads as.
  function BoolAt(input: seq<byte>, pos: nat): (r: Result<(bool, nat)>)
    ensures r.Ok? ==> r.value.1 == pos + 4 <= |input|
    ensures r.Err? ==> r.error == UnexpectedEof || r.error.InvalidValue?
  {
    var w :- UintAt(input, pos, 4);
    if w.0 == Identifiable.BOOL_FALSE_ID then Ok((false, w.1))
    else if w.0 == Identifiable.BOOL_TRUE_ID then Ok((true, w.1))
    else Err(InvalidValue(Interpret(w.0, I32)))
  }

  /// An integer of kind k is read at the width it travels at and then cast
  /// down to k, which fails when the number read does not fit.
  function IntAt(k: IntKind, input: seq<byte>, pos: nat): (r: Result<(int, nat)>)
    ensures r.Ok? ==> InRange(k, r.value.0) && r.value.1 == pos + k.Wire().Width() <= |input|
    ensures r.Err? ==> r.error == UnexpectedEof || r.error.IntegerCast?
  {
    var w :- UintAt(input, pos, k.Wire().Width());
    var n :- SafeIntCast(Interpret(w.0, k.Wire()), k);
    Ok((n, w.1))
  }

  /// What deserializing a value of shape s at pos yields. The case analysis
  /// on the shape is ShapeAt's; keeping it one call away means that unfolding
  /// a read of a collection does not also unfold every shape's reader.
  function ValueAt(s: Shape, input: seq<byte>, canonical: bool, pos: nat, hints: seq<string>): (r: Result<Decoded<Value>>)
    ensures r.Ok? ==> pos <= r.value.pos
    decreases s, 3
  {
    ShapeAt(s, input, canonical, pos, hints)
  }

  /// The `Deserialize` implementation of a type of shape s: which of the
  /// deserializer's methods it calls, and how the visitor builds the value.
  function ShapeAt(s: Shape, input: seq<byte>, canonical: bool, pos: nat, hints: seq<string>): (r: Result<Decoded<Value>>)
    ensures r.Ok? ==> pos <= r.value.pos
    decreases s, 2
  {
    match s
    case SBool =>
      var b :- BoolAt(input, pos);
      Ok(Decoded(VBool(b.0), b.1, hints))
    case SInt(k) =>
      var n :- IntAt(k, input, pos);
      Ok(Decoded(VInt(k, n.0), n.1, hints))
    case SStr =>
      var d :- ByteStringAt(input, canonical, true, pos);
      Ok(Decoded(VStr(d.0), d.1, hints))
    case SBytes =>
      var d :- ByteStringAt(input, canonical, false, pos);
      Ok(Decoded(VBytes(d.0), d.1, hints))
    case SSeq(e) =>
      var n :- UintAt(input, pos, 4);
      var es :- ElemsAt(e, n.0, input, canonical, n.1, hints);
      Ok(Decoded(VSeq(Some(n.0), es.value), es.pos, es.hints))
    case SMap(_, _) =>
      var n :- UintAt(input, pos, 4);
      var kvs :- EntriesAt(s, n.0, input, canonical, n.1, hints);
      Ok(Decoded(VMap(Some(n.0), kvs.value), kvs.pos, kvs.hints))
    case STuple(fs) =>
      var fields :- FieldsAt(fs, input, canonical, pos, hints);
      Ok(Decoded(VTuple(fields.value), fields.pos, fields.hints))
    case SUnitStruct =>
      Ok(Decoded(VUnitStruct, pos, hints))
    case SNewtypeStruct(x) =>
      var d :- ValueAt(x, input, canonical, pos, hints);
      Ok(Decoded(VNewtypeStruct(d.value), d.pos, d.hints))
    case SEnum(vs) =>
      if hints == [] then Err(NoEnumVariantId)
      else
        var name := hints[0];
        var i := VariantIndex(vs, name);
        if i == |vs| then Err(UnknownVariant(name))
        else
          match vs[i].payload {
            case PUnit => Ok(Decoded(VUnitVariant(name), pos, hints[1..]))
            case PNewtype(x) =>
              var d :- ValueAt(x, input, canonical, pos, hints[1..]);
              Ok(Decoded(VNewtypeVariant(name, d.value), d.pos, d.hints))
            case PFields(fs) =>
              var fields :- FieldsAt(fs, input, canonical, pos, hints[1..]);
              Ok(Decoded(VFieldsVariant(name, fields.value), fields.pos, fields.hints))
          }
    case SUnsupported(t) => Err(DeUnsupportedType(t))
  }

  /// count elements of shape e, one after the other.
  function ElemsAt(e: Shape, count: nat, input: seq<byte>, canonical: bool, pos: nat, hints: seq<string>)
    : (r: Result<Decoded<seq<Value>>>)
    ensures r.Ok? ==> pos <= r.value.pos
    decreases e, 4, count
  {
    if count == 0 then Ok(Decoded([], pos, hints))
    else
      var head :- ValueAt(e, input, canonical, pos, hints);
      PrependValues([head.value], ElemsAt(e, count - 1, input, canonical, head.pos, head.hints))
  }

  /// count key-value pairs of the map shape s, keys and values in turn.
  function EntriesAt(s: Shape, count: nat, input: seq<byte>, canonical: bool, pos: nat, hints: seq<string>)
    : (r: Result<Decoded<seq<Value>>>)
    requires s.SMap?
    ensures r.Ok? ==> pos <= r.value.pos
    decreases s, 1, count, 1
  {
    if count == 0 then Ok(Decoded([], pos, hints))
    else
      var key :- ValueAt(s.key, input, canonical, pos, hints);
      PrependValues([key.value], ValuesAt(s, count, input, canonical, key.pos, key.hints))
  }

  /// The value of the count-th pair from the end, then the pairs after it.
  function ValuesAt(s: Shape, count: nat, input: seq<byte>, canonical: bool, pos: nat, hints: seq<string>)
    : (r: Result<Decoded<seq<Value>>>)
    requires s.SMap? && count > 0
    ensures r.Ok? ==> pos <= r.value.pos
    decreases s, 1, count, 0
  {
    var val :- ValueAt(s.val, input, canonical, pos, hints);
    PrependValues([val.value], EntriesAt(s, count - 1, input, canonical, val.pos, val.hints))
  }

  /// The fields of a tuple or struct: the field count must fit a u32 and
  /// then each field is read with its own shape.
  function FieldsAt(fs: seq<Shape>, input: seq<byte>, canonical: bool, pos: nat, hints: seq<string>)
    : (r: Result<Decoded<seq<Value>>>)
    ensures r.Ok? ==> pos <= r.value.pos
    decreases fs, 1
  {
    var _ :- SafeIntCast(|fs|, U32);
    FieldsFrom(fs, input, canonical, pos, hints)
  }

  function FieldsFrom(fs: seq<Shape>, input: seq<byte>, canonical: bool, pos: nat, hints: seq<string>)
    : (r: Result<Decoded<seq<Value>>>)
    ensures r.Ok? ==> pos <= r.value.pos
    decreases fs, 0
  {
    if fs == [] then Ok(Decoded([], pos, hints))
    else
      var head :- ValueAt(fs[0], input, canonical, pos, hints);
      PrependValues([head.value], FieldsFrom(fs[1..], input, canonical, head.pos, head.hints))
  }

  /// One step of each collection reader, given what the first value read is.
  lemma ElemsAtStep(e: Shape, count: nat, input: seq<byte>, canonical: bool, pos: nat, hints: seq<string>,
                    v: Value, p: nat, h: seq<string>)
    requires count > 0 && ValueAt(e, input, canonical, pos, hints) == Ok(Decoded(v, p, h))
    ensures ElemsAt(e, count, input, canonical, pos, hints)
         == PrependValues([v], ElemsAt(e, count - 1, input, canonical, p, h))
  {
  }

  lemma EntriesAtStep(s: Shape, count: nat, input: seq<byte>, canonical: bool, pos: nat, hints: seq<string>,
                      v: Value, p: nat, h: seq<string>)
    requires s.SMap? && count > 0 && ValueAt(s.key, input, canonical, pos, hints) == Ok(Decoded(v, p, h))
    ensures EntriesAt(s, count, input, canonical, pos, hints)
         == PrependValues([v], ValuesAt(s, count, input, canonical, p, h))
  {
  }

  lemma ValuesAtStep(s: Shape, count: nat, input: seq<byte>, canonical: bool, pos: nat, hints: seq<string>,
                     v: Value, p: nat, h: seq<string>)
    requires s.SMap? && count > 0 && ValueAt(s.val, input, canonical, pos, hints) == Ok(Decoded(v, p, h))
    ensures ValuesAt(s, count, input, canonical, pos, hints)
         == PrependValues([v], EntriesAt(s, count - 1, input, canonical, p, h))
  {
  }

  lemma FieldsFromStep(fs: seq<Shape>, input: seq<byte>, canonical: bool, pos: nat, hints: seq<string>,
                       v: Value, p: nat, h: seq<string>)
    requires fs != [] && ValueAt(fs[0], input, canonical, pos, hints) == Ok(Decoded(v, p, h))
    ensures FieldsFrom(fs, input, canonical, pos, hints)
         == PrependValues([v], FieldsFrom(fs[1..], input, canonical, p, h))
  {
  }

  /// Up to u32 many fields, the count check lets the fields read through.
  lemma FieldsAtFits(fs: seq<Shape>, input: seq<byte>, canonical: bool, pos: nat, hints: seq<string>)
    requires |fs| <= U32_MAX
    ensures FieldsAt(fs, input, canonical, pos, hints) == FieldsFrom(fs, input, canonical, pos, hints)
  {
  }

  /// A fields variant read: the variant the first hint names, then its fields.
  lemma FieldsVariantAtStep(s: Shape, input: seq<byte>, canonical: bool, pos: nat, hints: seq<string>)
    requires s.SEnum? && hints != [] && VariantIndex(s.variants, hints[0]) < |s.variants|
    requires s.variants[VariantIndex(s.variants, hints[0])].payload.PFields?
    ensures var r := FieldsAt(s.variants[VariantIndex(s.variants, hints[0])].payload.fields, input, canonical, pos, hints[1..]);
      ValueAt(s, input, canonical, pos, hints)
      == if r.Ok? then Ok(Decoded(VFieldsVariant(hints[0], r.value.value), r.value.pos, r.value.hints)) else Err(r.error)
  {
  }

  /// A fields read that succeeds had a field count that fits a u32.
  lemma FieldsAtFrom(fs: seq<Shape>, input: seq<byte>, canonical: bool, pos: nat, hints: seq<string>)
    requires FieldsAt(fs, input, canonical, pos, hints).Ok?
    ensures |fs| <= U32_MAX && FieldsAt(fs, input, canonical, pos, hints) == FieldsFrom(fs, input, canonical, pos, hints)
  {
  }

  /// A sequence read: its u32 count, then that many elements.
  lemma SeqAtStep(s: Shape, input: seq<byte>, canonical: bool, pos: nat, hints: seq<string>,
                  n: nat, es: seq<Value>, end: nat, more: seq<string>)
    requires s.SSeq? && UintAt(input, pos, 4) == Ok((n, pos + 4))
    requires ElemsAt(s.elem, n, input, canonical, pos + 4, hints) == Ok(Decoded(es, end, more))
    ensures ValueAt(s, input, canonical, pos, hints) == Ok(Decoded(VSeq(Some(n), es), end, more))
  {
  }

  /// A map read: its u32 count, then that many keys and values in turn.
  lemma MapAtStep(s: Shape, input: seq<byte>, canonical: bool, pos: nat, hints: seq<string>,
                  n: nat, kvs: seq<Value>, end: nat, more: seq<string>)
    requires s.SMap? && UintAt(input, pos, 4) == Ok((n, pos + 4))
    requires EntriesAt(s, n, input, canonical, pos + 4, hints) == Ok(Decoded(kvs, end, more))
    ensures ValueAt(s, input, canonical, pos, hints) == Ok(Decoded(VMap(Some(n), kvs), end, more))
  {
  }

  /// A sequence reader that succeeds reads exactly the announced number of elements.
  lemma {:induction false} ElemsCount(e: Shape, count: nat, input: seq<byte>, canonical: bool, pos: nat, hints: seq<string>)
    ensures var r := ElemsAt(e, count, input, canonical, pos, hints);
      r.Ok? ==> |r.value.value| == count
    decreases count
  {
    if count > 0 {
      var head := ValueAt(e, input, canonical, pos, hints);
      if head.Ok? {
        ElemsCount(e, count - 1, input, canonical, head.value.pos, head.value.hints);
      }
    }
  }

  /// A map reader that succeeds reads a key and a value for each announced entry.
  lemma {:induction false} EntriesCount(s: Shape, count: nat, input: seq<byte>, canonical: bool, pos: nat, hints: seq<string>)
    requires s.SMap?
    ensures var r := EntriesAt(s, count, input, canonical, pos, hints);
      r.Ok? ==> |r.value.value| == 2 * count
    decreases count, 1
  {
    if count > 0 {
      var key := ValueAt(s.key, input, canonical, pos, hints);
      if key.Ok? {
        ValuesCount(s, count, input, canonical, key.value.pos, key.value.hints);
      }
    }
  }

  lemma {:induction false} ValuesCount(s: Shape, count: nat, input: seq<byte>, canonical: bool, pos: nat, hints: seq<string>)
    requires s.SMap? && count > 0
    ensures var r := ValuesAt(s, count, input, canonical, pos, hints);
      r.Ok? ==> |r.value.value| == 2 * count - 1
    decreases count, 0
  {
    var val := ValueAt(s.val, input, canonical, pos, hints);
    if val.Ok? {
      EntriesCount(s, count - 1, input, canonical, val.value.pos, val.value.hints);
    }
  }

  /// A struct or tuple reader that succeeds reads one value per field.
  lemma {:induction false} FieldsCount(fs: seq<Shape>, input: seq<byte>, canonical: bool, pos: nat, hints: seq<string>)
    ensures var r := FieldsAt(fs, input, canonical, pos, hints);
      r.Ok? ==> |r.value.value| == |fs|
  {
    FieldsFromCount(fs, input, canonical, pos, hints);
  }

  lemma {:induction false} FieldsFromCount(fs: seq<Shape>, input: seq<byte>, canonical: bool, pos: nat, hints: seq<string>)
    ensures var r := FieldsFrom(fs, input, canonical, pos, hints);
      r.Ok? ==> |r.value.value| == |fs|
    decreases fs
  {
    if fs != [] {
      var head := ValueAt(fs[0], input, canonical, pos, hints);
      if head.Ok? {
        FieldsFromCount(fs[1..], input, canonical, head.value.pos, head.value.hints);
      }
    }
  }

  /// done followed by the values r read, or r's error.
  function PrependValues(done: seq<Value>, r: Result<Decoded<seq<Value>>>): (q: Result<Decoded<seq<Value>>>)
    ensures q.Ok? == r.Ok? && (r.Err? ==> q == r)
  {
    if r.Ok? then Ok(Decoded(done + r.value.value, r.value.pos, r.value.hints)) else r
  }

  lemma PrependNothing(r: Result<Decoded<seq<Value>>>)
    ensures PrependValues([], r) == r
  {
    if r.Ok? {
      assert [] + r.value.value == r.value.value;
    }
  }

  lemma PrependTwice(a: seq<Value>, b: seq<Value>, r: Result<Decoded<seq<Value>>>)
    ensures PrependValues(a, PrependValues(b, r)) == PrependValues(a + b, r)
  {
    if r.Ok? {
      assert a + (b + r.value.value) == (a + b) + r.value.value;
    }
  }

  /// The value a whole read yields, without position and hints.
  function ValueOf(d: Result<Decoded<Value>>): (r: Result<Value>)
    ensures r.Ok? == d.Ok? && (d.Ok? ==> r.value == d.value.value) && (d.Err? ==> r.error == d.error)
  {
    if d.Ok? then Ok(d.value.value) else Err(d.error)
  }

  /// A read of a primitive: the expected outcome, and on success the
  /// expected position.
  ghost predicate Took<T>(r: Result<T>, pos: nat, expected: Result<(T, nat)>)
  {
    r.Ok? == expected.Ok?
    && (expected.Ok? ==> r.value == expected.value.0 && pos == expected.value.1)
    && (expected.Err? ==> r.error == expected.error)
  }

  /// A read of a value: the expected outcome, and on success the expected
  /// position and hints.
  ghost predicate Gave<T>(r: Result<T>, pos: nat, hints: seq<string>, expected: Result<Decoded<T>>)
  {
    r.Ok? == expected.Ok?
    && (expected.Ok? ==> r.value == expected.value.value && pos == expected.value.pos && hints == expected.value.hints)
    && (expected.Err? ==> r.error == expected.error)
  }

  /// Gave, for an accessor that wraps what it read in Some.
  ghost predicate GaveSome<T>(r: Result<Option<T>>, pos: nat, hints: seq<string>, expected: Result<Decoded<T>>)
  {
    r.Ok? == expected.Ok?
    && (expected.Ok? ==> r.value == Some(expected.value.value) && pos == expected.value.pos && hints == expected.value.hints)
    && (expected.Err? ==> r.error == expected.error)
  }

  class Deserializer {
    const input: seq<byte>
    /// Whether the canonical-form checks on strings are made.
    const canonical: bool
    /// How much of the input has been consumed.
    var pos: nat
    /// The enum variant names still to be handed out, front first.
    var hints: seq<string>

    constructor (input: seq<byte>, hints: seq<string>, canonical: bool)
      ensures this.input == input && this.hints == hints && this.canonical == canonical && pos == 0
    {
      this.input := input;
      this.hints := hints;
      this.canonical := canonical;
      pos := 0;
    }

    method ReadUint(w: nat) returns (r: Result<nat>)
      modifies this`pos
      ensures Took(r, pos, UintAt(input, old(pos), w))
    {
      if pos + w > |input| {
        return Err(UnexpectedEof);
      }
      var n := FromLE(input[pos..pos + w]);
      pos := pos + w;
      return Ok(n);
    }

    method ReadExact(n: nat) returns (r: Result<seq<byte>>)
      modifies this`pos
      ensures Took(r, pos, BytesAt(input, old(pos), n))
    {
      if pos + n > |input| {
        return Err(UnexpectedEof);
      }
      var b := input[pos..pos + n];
      pos := pos + n;
      return Ok(b);
    }

    method GetStrInfo() returns (r: Result<StrInfo>)
      modifies this`pos
      ensures Took(r, pos, StrInfoAt(input, canonical, old(pos)))
    {
      var first :- ReadUint(1);
      var len: nat;
      var rem: nat;
      var long := false;
      if first <= 253 {
        len := first;
        rem := (len + 1) % 4;
      } else if first == 254 {
        len :- ReadUint(3);
        if canonical && len < 254 {
          return Err(BytesLenPrefix254LessThan254(len));
        }
        rem := len % 4;
        long := true;
      } else {
        return Err(InvalidValue(255));
      }
      var padding := (4 - rem) % 4;
      return Ok(StrInfo(len, padding, long));
    }

    /// `read_string` (text) and `read_byte_buf` (bytes).
    method ReadByteString(text: bool) returns (r: Result<seq<byte>>)
      modifies this`pos
      ensures Took(r, pos, ByteStringAt(input, canonical, text, old(pos)))
    {
      var info :- GetStrInfo();
      var data :- ReadExact(info.len);
      if text && !ValidUtf8(data) {
        return Err(Utf8Invalid);
      }
      var pad :- ReadExact(info.padding);
      if canonical && !AllZero(pad) {
        return Err(NonZeroBytesPadding);
      }
      return Ok(data);
    }

    method DeserializeBool() returns (r: Result<bool>)
      modifies this`pos
      ensures Took(r, pos, BoolAt(input, old(pos)))
    {
      var id :- ReadUint(4);
      if id == Identifiable.BOOL_FALSE_ID {
        return Ok(false);
      } else if id == Identifiable.BOOL_TRUE_ID {
        return Ok(true);
      }
      return Err(InvalidValue(Interpret(id, I32)));
    }

    /// 8- and 16-bit integers are read as their 32-bit counterpart and then
    /// cast down; the wider ones are read as themselves.
    method DeserializeInt(k: IntKind) returns (r: Result<int>)
      modifies this`pos
      ensures Took(r, pos, IntAt(k, input, old(pos)))
    {
      var w :- ReadUint(k.Wire().Width());
      var n := Interpret(w, k.Wire());
      if k.Width() < 4 {
        var m :- SafeIntCast(n, k);
        return Ok(m);
      }
      InterpretInRange(w, k);
      return Ok(n);
    }

    /// Hands out the next enum variant hint.
    method DeserializeIdentifier() returns (r: Result<string>)
      modifies this`hints
      ensures old(hints) == [] ==> r == Err(NoEnumVariantId) && hints == old(hints)
      ensures old(hints) != [] ==> r == Ok(old(hints)[0]) && hints == old(hints)[1..]
    {
      if hints == [] {
        return Err(NoEnumVariantId);
      }
      r := Ok(hints[0]);
      hints := hints[1..];
    }

    /// Drives this deserializer as the `Deserialize` implementation of a
    /// type of shape s does.
    method Deserialize(s: Shape) returns (r: Result<Value>)
      modifies this
      ensures Gave(r, pos, hints, ValueAt(s, input, canonical, old(pos), old(hints)))
      decreases s, 3
    {
      match s {
        case SBool =>
          var b :- DeserializeBool();
          return Ok(VBool(b));
        case SInt(k) =>
          var n :- DeserializeInt(k);
          return Ok(VInt(k, n));
        case SStr =>
          var d :- ReadByteString(true);
          return Ok(VStr(d));
        case SBytes =>
          var d :- ReadByteString(false);
          return Ok(VBytes(d));
        case SSeq(_) =>
          r := DeserializeSeq(s);
        case SMap(_, _) =>
          r := DeserializeMap(s);
        case STuple(fs) =>
          var fields :- DeserializeTuple(fs);
          return Ok(VTuple(fields));
        case SUnitStruct =>
          return Ok(VUnitStruct);
        case SNewtypeStruct(x) =>
          var d :- Deserialize(x);
          return Ok(VNewtypeStruct(d));
        case SEnum(_) =>
          r := DeserializeEnum(s);
        case SUnsupported(t) =>
          return Err(DeUnsupportedType(t));
      }
    }

    /// A u32 count, then elements until the accessor runs out (a `Vec`'s visitor).
    method DeserializeSeq(s: Shape) returns (r: Result<Value>)
      requires s.SSeq?
      modifies this
      ensures Gave(r, pos, hints, ValueAt(s, input, canonical, old(pos), old(hints)))
      decreases s, 2
    {
      var n :- ReadUint(4);
      var access := new SeqAccess(this, n);
      ghost var whole := ElemsAt(s.elem, n, input, canonical, pos, hints);
      var elems: seq<Value> := [];
      PrependNothing(whole);
      while true
        invariant access.de == this && access.len == n && access.nextIndex == |elems| <= n
        invariant whole == PrependValues(elems, ElemsAt(s.elem, n - |elems|, input, canonical, pos, hints))
        decreases n - |elems|
      {
        ghost var rest := ElemsAt(s.elem, n - |elems|, input, canonical, pos, hints);
        var next := access.NextElement(s.elem);
        if next.Err? {
          return Err(next.error);
        }
        if next.value.None? {
          break;
        }
        PrependTwice(elems, [next.value.value], ElemsAt(s.elem, n - |elems| - 1, input, canonical, pos, hints));
        elems := elems + [next.value.value];
      }
      assert elems + [] == elems;
      return Ok(VSeq(Some(n), elems));
    }

    /// A u32 count, then keys and values in turn until the accessor runs out
    /// (a map's visitor).
    method DeserializeMap(s: Shape) returns (r: Result<Value>)
      requires s.SMap?
      modifies this
      ensures Gave(r, pos, hints, ValueAt(s, input, canonical, old(pos), old(hints)))
      decreases s, 2
    {
      var n :- ReadUint(4);
      var access := new MapAccess(this, n);
      ghost var whole := EntriesAt(s, n, input, canonical, pos, hints);
      var kvs: seq<Value> := [];
      PrependNothing(whole);
      while true
        invariant access.de == this && access.len == n && access.nextIndex <= n
        invariant |kvs| == 2 * access.nextIndex
        invariant whole == PrependValues(kvs, EntriesAt(s, n - access.nextIndex, input, canonical, pos, hints))
        decreases n - access.nextIndex
      {
        ghost var m, p0, h0 := n - access.nextIndex, pos, hints;
        var key := access.NextKey(s.key);
        if key.Err? {
          return Err(key.error);
        }
        if key.value.None? {
          break;
        }
        ghost var rest := ValuesAt(s, m, input, canonical, pos, hints);
        assert EntriesAt(s, m, input, canonical, p0, h0) == PrependValues([key.value.value], rest);
        PrependTwice(kvs, [key.value.value], rest);
        var val := access.NextValue(s.val);
        if val.Err? {
          return Err(val.error);
        }
        assert rest == PrependValues([val.value], EntriesAt(s, m - 1, input, canonical, pos, hints));
        PrependTwice(kvs + [key.value.value], [val.value], EntriesAt(s, m - 1, input, canonical, pos, hints));
        assert kvs + [key.value.value] + [val.value] == kvs + [key.value.value, val.value];
        kvs := kvs + [key.value.value, val.value];
      }
      assert kvs + [] == kvs;
      return Ok(VMap(Some(n), kvs));
    }

    /// `deserialize_tuple`, `deserialize_tuple_struct` and `deserialize_struct`
    /// with the derived visitor: the field count is cast to u32 and each field
    /// is read in turn; an accessor that ran out early is an invalid length.
    method DeserializeTuple(fs: seq<Shape>) returns (r: Result<seq<Value>>)
      modifies this
      ensures Gave(r, pos, hints, FieldsAt(fs, input, canonical, old(pos), old(hints)))
      decreases fs, 2
    {
      var n :- SafeIntCast(|fs|, U32);
      var access := new SeqAccess(this, n);
      ghost var whole := FieldsFrom(fs, input, canonical, pos, hints);
      var fields: seq<Value> := [];
      PrependNothing(whole);
      assert fs[0..] == fs;
      var i := 0;
      while i < |fs|
        invariant 0 <= i <= |fs| && |fields| == i
        invariant access.de == this && access.len == n && access.nextIndex == i
        invariant whole == PrependValues(fields, FieldsFrom(fs[i..], input, canonical, pos, hints))
      {
        assert fs[i..][0] == fs[i] && fs[i..][1..] == fs[i + 1..];
        var next := access.NextElement(fs[i]);
        if next.Err? {
          return Err(next.error);
        }
        if next.value.None? {
          return Err(InvalidLength(i, |fs|));
        }
        PrependTwice(fields, [next.value.value], FieldsFrom(fs[i + 1..], input, canonical, pos, hints));
        fields := fields + [next.value.value];
        i := i + 1;
      }
      assert fs[|fs|..] == [] && fields + [] == fields;
      return Ok(fields);
    }

    /// The derived enum visitor: the variant is named by the next hint, then
    /// its payload is read as that variant's form demands.
    method DeserializeEnum(s: Shape) returns (r: Result<Value>)
      requires s.SEnum?
      modifies this
      ensures Gave(r, pos, hints, ValueAt(s, input, canonical, old(pos), old(hints)))
      decreases s, 2
    {
      var access := new EnumVariantAccess(this);
      var name :- access.VariantSeed();
      var i := VariantIndex(s.variants, name);
      if i == |s.variants| {
        return Err(UnknownVariant(name));
      }
      match s.variants[i].payload {
        case PUnit =>
          var _ := access.UnitVariant();
          return Ok(VUnitVariant(name));
        case PNewtype(x) =>
          var d :- access.NewtypeVariantSeed(x);
          return Ok(VNewtypeVariant(name, d));
        case PFields(fs) =>
          var fields :- access.TupleVariant(fs);
          return Ok(VFieldsVariant(name, fields));
      }
    }
  }

  /// The accessor for sequences, tuples and structs: it hands out at most len
  /// elements and then reports the end without reading anything.
  class SeqAccess {
    const de: Deserializer
    const len: nat
    var nextIndex: nat

    constructor (de: Deserializer, len: nat)
      ensures this.de == de && this.len == len && nextIndex == 0
    {
      this.de := de;
      this.len := len;
      nextIndex := 0;
    }

    method NextElement(s: Shape) returns (r: Result<Option<Value>>)
      modifies this, de
      ensures old(nextIndex) >= len ==>
        r == Ok(None) && nextIndex == old(nextIndex) && de.pos == old(de.pos) && de.hints == old(de.hints)
      ensures old(nextIndex) < len ==>
        nextIndex == old(nextIndex) + 1
        && GaveSome(r, de.pos, de.hints, ValueAt(s, de.input, de.canonical, old(de.pos), old(de.hints)))
      decreases s, 4
    {
      if nextIndex < len {
        nextIndex := nextIndex + 1;
      } else {
        return Ok(None);
      }
      var v :- de.Deserialize(s);
      return Ok(Some(v));
    }
  }

  /// The accessor for maps: keys are counted, values are read unconditionally.
  class MapAccess {
    const de: Deserializer
    const len: nat
    var nextIndex: nat

    constructor (de: Deserializer, len: nat)
      ensures this.de == de && this.len == len && nextIndex == 0
    {
      this.de := de;
      this.len := len;
      nextIndex := 0;
    }

    method NextKey(s: Shape) returns (r: Result<Option<Value>>)
      modifies this, de
      ensures old(nextIndex) >= len ==>
        r == Ok(None) && nextIndex == old(nextIndex) && de.pos == old(de.pos) && de.hints == old(de.hints)
      ensures old(nextIndex) < len ==>
        nextIndex == old(nextIndex) + 1
        && GaveSome(r, de.pos, de.hints, ValueAt(s, de.input, de.canonical, old(de.pos), old(de.hints)))
      decreases s, 4
    {
      if nextIndex < len {
        nextIndex := nextIndex + 1;
      } else {
        return Ok(None);
      }
      var k :- de.Deserialize(s);
      return Ok(Some(k));
    }

    method NextValue(s: Shape) returns (r: Result<Value>)
      modifies de
      ensures Gave(r, de.pos, de.hints, ValueAt(s, de.input, de.canonical, old(de.pos), old(de.hints)))
      decreases s, 4
    {
      r := de.Deserialize(s);
    }
  }

  /// The accessor for enums.
  class EnumVariantAccess {
    const de: Deserializer

    constructor (de: Deserializer)
      ensures this.de == de
    {
      this.de := de;
    }

    /// The variant's name comes from `deserialize_identifier`.
    method VariantSeed() returns (r: Result<string>)
      modifies de`hints
      ensures old(de.hints) == [] ==> r == Err(NoEnumVariantId) && de.hints == old(de.hints)
      ensures old(de.hints) != [] ==> r == Ok(old(de.hints)[0]) && de.hints == old(de.hints)[1..]
    {
      r := de.DeserializeIdentifier();
    }

    /// A unit variant has nothing on the wire.
    method UnitVariant() returns (r: Result<()>)
      ensures r == Ok(())
    {
      return Ok(());
    }

    method NewtypeVariantSeed(s: Shape) returns (r: Result<Value>)
      modifies de
      ensures Gave(r, de.pos, de.hints, ValueAt(s, de.input, de.canonical, old(de.pos), old(de.hints)))
      decreases s, 4
    {
      r := de.Deserialize(s);
    }

    /// Tuple and struct variants read their fields as a tuple struct or a struct.
    method TupleVariant(fs: seq<Shape>) returns (r: Result<seq<Value>>)
      modifies de
      ensures Gave(r, de.pos, de.hints, FieldsAt(fs, de.input, de.canonical, old(de.pos), old(de.hints)))
      decreases fs, 4
    {
      r := de.DeserializeTuple(fs);
    }
  }

  /// Deserializes a value of shape s from bytes, with the given variant hints;
  /// bytes left over after the value are ignored.
  method FromBytes(s: Shape, bytes: seq<byte>, hints: seq<string>, canonical: bool) returns (r: Result<Value>)
    ensures r == ValueOf(ValueAt(s, bytes, canonical, 0, hints))
  {
    var de := new Deserializer(bytes, hints, canonical);
    r := de.Deserialize(s);
  }
}
