// Type ids of the built-in identifiable types (src/identifiable.rs).
module Identifiable {
  import opened Errors
  import opened Ints

  const BOOL_TRUE_ID: u32 := 0x997275b5
  const BOOL_FALSE_ID: u32 := 0xbc799737
  const INT_ID: u32 := 0xa8509bda
  const LONG_ID: u32 := 0x22076cba
  const DOUBLE_ID: u32 := 0x2210c154
  const STRING_ID: u32 := 0xb5286e24
  const VECTOR_ID: u32 := 0x1cb5c415

  const BOOL_IDS: seq<u32> := [BOOL_TRUE_ID, BOOL_FALSE_ID]
  /// Listed in the opposite order to BOOL_IDS.
  const BOOL_VARIANT_NAMES: seq<string> := ["false", "true"]

  /// The Rust types with a built-in `Identifiable` implementation; `TRef` is
  /// `&T` and `TBox` is `Box<T>`, both delegating to `T`.
  datatype IdType =
    | TBool
    | TInt(kind: IntKind)
    | TFloat(double: bool)
    | TString
    | TStr
    | TVec
    | TRef(target: IdType)
    | TBox(target: IdType)

  /// A value of one of those types, as far as its id depends on it.
  datatype Instance =
    | IBool(b: bool)
    | IInt(kind: IntKind, n: int)
    | IFloat(double: bool)
    | IString(s: string)
    | IStr(s: string)
    | IVec(len: nat)
    | IRef(target: Instance)
    | IBox(target: Instance)

  /// The type of a value: a reference or box has a reference or box type,
  /// and every other value the type its own kind names.
  function TypeOf(x: Instance): (t: IdType)
    ensures t.TRef? <==> x.IRef?
    ensures t.TBox? <==> x.IBox?
    ensures x.IInt? ==> t == TInt(x.kind)
    ensures x.IFloat? ==> t == TFloat(x.double)
  {
    match x
    case IBool(_) => TBool
    case IInt(k, _) => TInt(k)
    case IFloat(d) => TFloat(d)
    case IString(_) => TString
    case IStr(_) => TStr
    case IVec(_) => TVec
    case IRef(y) => TRef(TypeOf(y))
    case IBox(y) => TBox(TypeOf(y))
  }

  predicate NoDuplicates<T(==)>(s: seq<T>)
  {
    forall i, j :: 0 <= i < j < |s| ==> s[i] != s[j]
  }

  /// All ids a value of type t can have: never empty and, as the trait
  /// documentation asks, free of duplicates.
  function AllTypeIds(t: IdType): (ids: seq<u32>)
    ensures |ids| >= 1 && NoDuplicates(ids)
  {
    match t
    case TBool => BOOL_IDS
    case TInt(k) => if k == I64 || k == U64 then [LONG_ID] else [INT_ID]
    case TFloat(_) => [DOUBLE_ID]
    case TString | TStr => [STRING_ID]
    case TVec => [VECTOR_ID]
    case TRef(u) => AllTypeIds(u)
    case TBox(u) => AllTypeIds(u)
  }

  /// Variant names: `Some` only for the one built-in type with variants, bool
  /// (reached directly or through references and boxes).
  function AllEnumVariantNames(t: IdType): (names: Option<seq<string>>)
    ensures names.Some? <==> Unwrapped(t) == TBool
    ensures names.Some? ==> names.value == BOOL_VARIANT_NAMES
  {
    match t
    case TBool => Some(BOOL_VARIANT_NAMES)
    case TRef(u) => AllEnumVariantNames(u)
    case TBox(u) => AllEnumVariantNames(u)
    case _ => None
  }

  /// The type behind any number of references and boxes, which has the same
  /// ids as t.
  function Unwrapped(t: IdType): (u: IdType)
    ensures !u.TRef? && !u.TBox?
    ensures AllTypeIds(u) == AllTypeIds(t)
  {
    match t
    case TRef(u) => Unwrapped(u)
    case TBox(u) => Unwrapped(u)
    case _ => t
  }

  /// The id of a value, which is one of the ids of its type.
  function TypeId(x: Instance): (id: u32)
    ensures id in AllTypeIds(TypeOf(x))
  {
    match x
    case IBool(b) => if b then BOOL_TRUE_ID else BOOL_FALSE_ID
    case IInt(k, _) => if k == I64 || k == U64 then LONG_ID else INT_ID
    case IFloat(_) => DOUBLE_ID
    case IString(_) | IStr(_) => STRING_ID
    case IVec(_) => VECTOR_ID
    case IRef(y) => TypeId(y)
    case IBox(y) => TypeId(y)
  }

  /// The enum variant hint of a value: `Some` exactly for booleans, and then one
  /// of the type's variant names.
  function EnumVariantId(x: Instance): (r: Option<string>)
    ensures r.Some? <==> AllEnumVariantNames(TypeOf(x)).Some?
    ensures r.Some? ==> r.value in AllEnumVariantNames(TypeOf(x)).value
  {
    match x
    case IBool(b) => Some(if b then "true" else "false")
    case IRef(y) => EnumVariantId(y)
    case IBox(y) => EnumVariantId(y)
    case _ => None
  }

  /// `&T` and `Box<T>` answer every question exactly as `T` does.
  lemma DelegationToTarget(x: Instance)
    ensures TypeId(IRef(x)) == TypeId(x) && TypeId(IBox(x)) == TypeId(x)
    ensures AllTypeIds(TypeOf(IRef(x))) == AllTypeIds(TypeOf(x))
    ensures AllTypeIds(TypeOf(IBox(x))) == AllTypeIds(TypeOf(x))
    ensures EnumVariantId(IRef(x)) == EnumVariantId(x) && EnumVariantId(IBox(x)) == EnumVariantId(x)
    ensures AllEnumVariantNames(TypeOf(IRef(x))) == AllEnumVariantNames(TypeOf(x))
  {
  }

  /// The id of a boolean is its position-for-position partner in BOOL_IDS, but
  /// its variant name sits at the other position of BOOL_VARIANT_NAMES.
  lemma BoolTablesInOppositeOrder(b: bool)
    ensures var i := if b then 0 else 1;
      BOOL_IDS[i] == TypeId(IBool(b)) && BOOL_VARIANT_NAMES[1 - i] == EnumVariantId(IBool(b)).value
  {
  }

  /// Different booleans have different ids.
  lemma BoolIdsDistinct()
    ensures TypeId(IBool(true)) != TypeId(IBool(false))
  {
  }
}
