// The serde data model as the codec sees it: the values a `Serialize`
// implementation hands to the serializer, and the shapes a `Deserialize`
// implementation asks the deserializer for.
module Values {
  import opened Errors
  import opened Bytes
  import opened Ints
  import opened Utf8

  /// One call into the serializer. A tuple, a tuple struct and a struct all
  /// take the same fixed-length path and are one constructor here; so are
  /// tuple variants and struct variants. `VSeq` and `VMap` carry the length
  /// the implementation announces, which need not match what follows; a map's
  /// keys and values come in the order they are handed over, k0, v0, k1, v1, ….
  /// A `VInt` whose n lies outside its kind's range stands for no Rust value.
  datatype Value =
    | VBool(b: bool)
    | VInt(kind: IntKind, n: int)
    | VStr(utf8: seq<byte>)
    | VBytes(bytes: seq<byte>)
    | VSeq(len: Option<nat>, elems: seq<Value>)
    | VMap(len: Option<nat>, kvs: seq<Value>)
    | VTuple(fields: seq<Value>)
    | VUnitStruct
    | VNewtypeStruct(inner: Value)
    | VUnitVariant(variant: string)
    | VNewtypeVariant(variant: string, payload: Value)
    | VFieldsVariant(variant: string, fields: seq<Value>)
    | VChar(c: char)
    | VNone
    | VSome(some: Value)
    | VUnit

  /// What a `Deserialize` implementation asks for.
  datatype Shape =
    | SBool
    | SInt(kind: IntKind)
    | SStr
    | SBytes
    | SSeq(elem: Shape)
    | SMap(key: Shape, val: Shape)
    | STuple(fields: seq<Shape>)
    | SUnitStruct
    | SNewtypeStruct(inner: Shape)
    | SEnum(variants: seq<VariantShape>)
    | SUnsupported(deType: DeSerdeType)

  datatype VariantShape = VariantShape(name: string, payload: Payload)

  datatype Payload = PUnit | PNewtype(shape: Shape) | PFields(fields: seq<Shape>)

  /// The largest length a string or byte string can have on the wire.
  const MAX_BYTE_STRING_LEN: nat := 0xFF_FFFF

  /// Index of the first variant called name (the derived identifier visitor
  /// matches names in declaration order), or |vs| when there is none.
  function VariantIndex(vs: seq<VariantShape>, name: string): (i: nat)
    ensures i <= |vs|
    ensures i < |vs| ==> vs[i].name == name
    ensures forall j :: 0 <= j < i ==> vs[j].name != name
  {
    if vs == [] then 0
    else if vs[0].name == name then 0
    else 1 + VariantIndex(vs[1..], name)
  }

  /// v is a value of the Rust type described by s: integers in range, strings
  /// valid UTF-8 and short enough for the wire, announced lengths equal to the
  /// element count and within u32, and variants named as in the enum. No Rust
  /// type the codec supports holds a char, an option or `()`, and no value has
  /// an unsupported shape.
  predicate Conforms(v: Value, s: Shape)
    ensures Conforms(v, s) ==> !s.SUnsupported? && !(v.VChar? || v.VNone? || v.VSome? || v.VUnit?)
    decreases v
  {
    match v
    case VBool(_) => s == SBool
    case VInt(k, n) => s == SInt(k) && InRange(k, n)
    case VStr(b) => s == SStr && |b| <= MAX_BYTE_STRING_LEN && ValidUtf8(b)
    case VBytes(b) => s == SBytes && |b| <= MAX_BYTE_STRING_LEN
    case VSeq(len, es) =>
      s.SSeq? && len == Some(|es|) && |es| <= U32_MAX && ConformsAll(es, s.elem)
    case VMap(len, es) =>
      s.SMap? && len == Some(|es| / 2) && |es| / 2 <= U32_MAX && ConformsEntries(es, s.key, s.val)
    case VTuple(fs) => s.STuple? && ConformsFields(fs, s.fields)
    case VUnitStruct => s == SUnitStruct
    case VNewtypeStruct(x) => s.SNewtypeStruct? && Conforms(x, s.inner)
    case VUnitVariant(name) =>
      s.SEnum? && VariantIndex(s.variants, name) < |s.variants|
      && s.variants[VariantIndex(s.variants, name)].payload == PUnit
    case VNewtypeVariant(name, x) =>
      s.SEnum? && VariantIndex(s.variants, name) < |s.variants|
      && s.variants[VariantIndex(s.variants, name)].payload.PNewtype?
      && Conforms(x, s.variants[VariantIndex(s.variants, name)].payload.shape)
    case VFieldsVariant(name, fs) =>
      s.SEnum? && VariantIndex(s.variants, name) < |s.variants|
      && s.variants[VariantIndex(s.variants, name)].payload.PFields?
      && ConformsFields(fs, s.variants[VariantIndex(s.variants, name)].payload.fields)
    case _ => false
  }

  predicate ConformsAll(es: seq<Value>, s: Shape)
    decreases es
  {
    if es == [] then true else Conforms(es[0], s) && ConformsAll(es[1..], s)
  }

  predicate ConformsFields(fs: seq<Value>, ss: seq<Shape>)
    decreases fs
  {
    |fs| == |ss| && |fs| <= U32_MAX
    && (fs == [] || (Conforms(fs[0], ss[0]) && ConformsFields(fs[1..], ss[1..])))
  }

  /// Keys and values alternate, each key followed by its value.
  predicate ConformsEntries(kvs: seq<Value>, k: Shape, s: Shape)
    decreases kvs
  {
    if kvs == [] then true
    else |kvs| >= 2 && Conforms(kvs[0], k) && Conforms(kvs[1], s) && ConformsEntries(kvs[2..], k, s)
  }

  /// A map's entries from a value on: that value, then whole entries.
  predicate ValueThenEntries(vks: seq<Value>, k: Shape, s: Shape)
  {
    vks != [] && Conforms(vks[0], s) && ConformsEntries(vks[1..], k, s)
  }

  /// The enum variant names a value names, in the order the deserializer asks
  /// for them: each variant before its payload, fields and elements left to right.
  /// Booleans, integers, strings, byte strings and unit structs name none.
  function HintsOf(v: Value): (r: seq<string>)
    ensures v.VUnitVariant? || v.VNewtypeVariant? || v.VFieldsVariant? ==> r != [] && r[0] == v.variant
    ensures v.VBool? || v.VInt? || v.VStr? || v.VBytes? || v.VUnitStruct? ==> r == []
  {
    match v
    case VSeq(_, es) => HintsOfAll(es)
    case VMap(_, kvs) => HintsOfAll(kvs)
    case VTuple(fs) => HintsOfAll(fs)
    case VNewtypeStruct(x) => HintsOf(x)
    case VUnitVariant(name) => [name]
    case VNewtypeVariant(name, x) => [name] + HintsOf(x)
    case VFieldsVariant(name, fs) => [name] + HintsOfAll(fs)
    case VSome(x) => HintsOf(x)
    case _ => []
  }

  function HintsOfAll(es: seq<Value>): seq<string>
  {
    if es == [] then [] else HintsOf(es[0]) + HintsOfAll(es[1..])
  }
}
