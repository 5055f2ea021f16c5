// The older `#[derive(MtProtoIdentifiable)]`
// (serde_mtproto_derive/src/mt_proto_identifiable.rs): top-level `#[id = "..."]`
// and `#[check_type_id(...)]` attributes, loops over the attributes with early
// returns, and a panic for every error.
module DeriveMtIdentifiable {
  import opened Errors
  import opened Ints
  import opened DeriveIdentifiable

  /// The literal parser of this version: `starts_with` rather than a split
  /// of the first two characters. None stands for the panicking `unwrap`.
  function ParseIdLiteralOld(s: string): (r: Option<u32>)
    ensures r.Some? ==> Unsigned(s) != [] && s != "0x" && s != "0b" && s != "0o"
  {
    if "0x" <= s then FromStrRadix(s[2..], 16)
    else if "0b" <= s then FromStrRadix(s[2..], 2)
    else if "0o" <= s then FromStrRadix(s[2..], 8)
    else FromStrRadix(s, 10)
  }

  /// Both versions read every id literal alike.
  lemma OldParserAgrees(s: string)
    ensures ParseIdLiteralOld(s) == ParseIdLiteral(s)
  {
    if |s| >= 2 {
      assert ("0x" <= s) == (s[..2] == "0x");
      assert ("0b" <= s) == (s[..2] == "0b");
      assert ("0o" <= s) == (s[..2] == "0o");
    }
  }

  /// Outer attributes that are not doc comments are the only ones read.
  predicate Plain(a: Attribute)
  {
    a.outer && !a.sugaredDoc
  }

  /// The literal of a top-level `id = ...` attribute, if a is one.
  function IdLiteralOf(a: Attribute): Option<Lit>
  {
    if Plain(a) && a.meta.Some? && a.meta.value.NameValue? && a.meta.value.ident == "id"
    then Some(a.meta.value.lit) else None
  }

  /// The literal of the first `id` attribute.
  function OldIdLiteral(attrs: seq<Attribute>): Option<Lit>
  {
    if attrs == [] then None
    else if IdLiteralOf(attrs[0]).Some? then IdLiteralOf(attrs[0])
    else OldIdLiteral(attrs[1..])
  }

  /// What `get_id_from_attrs` returns: the first `id` attribute's value
  /// when it is a string that parses; a panic when it is not a string, does
  /// not parse, or there is no `id` attribute at all. Nothing here is a
  /// compile error.
  function OldIdFromAttrs(attrs: seq<Attribute>): (r: Expansion<u32>)
    ensures !r.CompileErrors?
    ensures r.Expanded? <==> OldIdLiteral(attrs).Some? && OldIdLiteral(attrs).value.LitStr?
                             && ParseIdLiteral(OldIdLiteral(attrs).value.value).Some?
    ensures r.Expanded? ==> Some(r.value) == ParseIdLiteral(OldIdLiteral(attrs).value.value)
  {
    match OldIdLiteral(attrs)
    case None => MacroPanic
    case Some(LitOther) => MacroPanic
    case Some(LitStr(s)) =>
      OldParserAgrees(s);
      var n := ParseIdLiteralOld(s);
      if n.Some? then Expanded(n.value) else MacroPanic
  }

  /// `get_id_from_attrs`: the loop over the attributes.
  method GetIdFromAttrs(attrs: seq<Attribute>) returns (r: Expansion<u32>)
    ensures r == OldIdFromAttrs(attrs)
  {
    for i := 0 to |attrs|
      invariant OldIdLiteral(attrs[i..]) == OldIdLiteral(attrs)
    {
      var attr := attrs[i];
      assert attrs[i..][0] == attr && attrs[i..][1..] == attrs[i + 1..];
      if Plain(attr) && attr.meta.Some? && attr.meta.value.NameValue? {
        var metaNameValue := attr.meta.value;
        if metaNameValue.ident == "id" {
          if metaNameValue.lit.LitStr? {
            var value := ParseIdLiteralOld(metaNameValue.lit.value);
            if value.None? {
              return MacroPanic;
            }
            return Expanded(value.value);
          } else {
            return MacroPanic;
          }
        }
      }
    }
    assert attrs[|attrs|..] == [];
    return MacroPanic;
  }

  /// The mode a top-level `check_type_id(word)` attribute with exactly one
  /// known word chooses, if a is one.
  function CheckModeOf(a: Attribute): Option<CheckMode>
  {
    if Plain(a) && a.meta.Some? && a.meta.value.List? && a.meta.value.ident == "check_type_id"
       && |a.meta.value.nested| == 1
       && a.meta.value.nested[0].NestedMetaItem? && a.meta.value.nested[0].meta.Word?
    then ModeNamed(a.meta.value.nested[0].meta.ident) else None
  }

  /// The first mode chosen; without one, the id is always checked. A
  /// `check_type_id` with another number of parameters is passed over.
  function OldCheckMode(attrs: seq<Attribute>): (m: CheckMode)
    ensures (forall i :: 0 <= i < |attrs| ==> CheckModeOf(attrs[i]).None?) ==> m == Always
    ensures m != Always ==> exists i :: 0 <= i < |attrs| && CheckModeOf(attrs[i]) == Some(m)
  {
    if attrs == [] then Always
    else if CheckModeOf(attrs[0]).Some? then CheckModeOf(attrs[0]).value
    else OldCheckMode(attrs[1..])
  }

  /// What `get_asserted_id_from_attrs` returns.
  function OldAssertedId(attrs: seq<Attribute>): (r: Expansion<CheckedId>)
    ensures !r.CompileErrors?
    ensures r.Expanded? <==> OldIdFromAttrs(attrs).Expanded?
    ensures r.Expanded? ==> r.value == CheckedId(OldIdFromAttrs(attrs).value, OldCheckMode(attrs))
  {
    var id := OldIdFromAttrs(attrs);
    if id.Expanded? then Expanded(CheckedId(id.value, OldCheckMode(attrs))) else MacroPanic
  }

  /// `get_asserted_id_from_attrs`: the id, then the loop over the attributes
  /// for a check mode.
  method GetAssertedIdFromAttrs(attrs: seq<Attribute>) returns (r: Expansion<CheckedId>)
    ensures r == OldAssertedId(attrs)
  {
    var id := GetIdFromAttrs(attrs);
    if !id.Expanded? {
      return MacroPanic;
    }
    for i := 0 to |attrs|
      invariant OldCheckMode(attrs[i..]) == OldCheckMode(attrs)
    {
      var attr := attrs[i];
      assert attrs[i..][0] == attr && attrs[i..][1..] == attrs[i + 1..];
      if Plain(attr) && attr.meta.Some? && attr.meta.value.List? {
        var metaList := attr.meta.value;
        if metaList.ident == "check_type_id" && |metaList.nested| == 1 {
          if metaList.nested[0].NestedMetaItem? && metaList.nested[0].meta.Word? {
            var mode := ModeNamed(metaList.nested[0].meta.ident);
            if mode.Some? {
              return Expanded(CheckedId(id.value, mode.value));
            }
          }
        }
      }
    }
    assert attrs[|attrs|..] == [];
    return Expanded(CheckedId(id.value, Always));
  }

  /// The three methods of the implementation this version generates, as
  /// what they return: `all_type_ids`, the `type_id` of each variant (of
  /// the struct, for a struct) and the `enum_variant_id` of each variant.
  datatype OldImpl = OldImpl(allTypeIds: seq<u32>, typeIds: seq<CheckedId>, enumVariantIds: Option<seq<string>>)

  /// What `impl_mt_proto_identifiable` expands to. An enum with a variant
  /// whose id is bad panics while its id list is built, before the rest.
  function OldImplOf(c: Container): (r: Expansion<OldImpl>)
    ensures !r.CompileErrors? && (c.data.Union? ==> r.MacroPanic?)
    ensures r.Expanded? ==>
              |r.value.typeIds| == |r.value.allTypeIds|
              && forall i :: 0 <= i < |r.value.typeIds| ==> r.value.typeIds[i].id == r.value.allTypeIds[i]
    ensures r.Expanded? && c.data.Struct? ==> |r.value.allTypeIds| == 1 && r.value.enumVariantIds.None?
    ensures r.Expanded? && c.data.Enum? ==>
      |r.value.allTypeIds| == |c.data.variants| && r.value.enumVariantIds.Some?
      && |r.value.enumVariantIds.value| == |c.data.variants|
  {
    match c.data
    case Union => MacroPanic
    case Struct =>
      var id := OldIdFromAttrs(c.attrs);
      if !id.Expanded? then MacroPanic
      else Expanded(OldImpl([id.value], [CheckedId(id.value, OldCheckMode(c.attrs))], None))
    case Enum(vs) =>
      if exists i :: 0 <= i < |vs| && !OldIdFromAttrs(vs[i].attrs).Expanded? then MacroPanic
      else
        Expanded(OldImpl(
          seq(|vs|, i requires 0 <= i < |vs| => OldIdFromAttrs(vs[i].attrs).value),
          seq(|vs|, i requires 0 <= i < |vs| => CheckedId(OldIdFromAttrs(vs[i].attrs).value, OldCheckMode(vs[i].attrs))),
          Some(seq(|vs|, i requires 0 <= i < |vs| => vs[i].name))))
  }

  /// `impl_mt_proto_identifiable`: the id list, then the loop building the
  /// `type_id` arms, then the loop building the `enum_variant_id` arms.
  method ImplMtProtoIdentifiable(c: Container) returns (r: Expansion<OldImpl>)
    ensures r == OldImplOf(c)
  {
    match c.data {
      case Union =>
        return MacroPanic;
      case Struct =>
        var id := GetIdFromAttrs(c.attrs);
        if !id.Expanded? {
          return MacroPanic;
        }
        var checked := GetAssertedIdFromAttrs(c.attrs);
        return Expanded(OldImpl([id.value], [checked.value], None));
      case Enum(vs) =>
        var ids := AllTypeIds(vs);
        if ids.None? {
          return MacroPanic;
        }
        var typeIds := TypeIdArms(vs, ids.value);
        var names := EnumVariantIdArms(vs);
        assert !exists i :: 0 <= i < |vs| && !OldIdFromAttrs(vs[i].attrs).Expanded?;
        assert ids.value == seq(|vs|, i requires 0 <= i < |vs| => OldIdFromAttrs(vs[i].attrs).value);
        return Expanded(OldImpl(ids.value, typeIds, Some(names)));
    }
  }

  /// The loop building the `type_id` arms of an enum: each variant's id
  /// with the check its attributes ask for.
  method TypeIdArms(vs: seq<Variant>, ids: seq<u32>) returns (typeIds: seq<CheckedId>)
    requires |ids| == |vs| && forall i :: 0 <= i < |vs| ==> OldIdFromAttrs(vs[i].attrs) == Expanded(ids[i])
    ensures typeIds == seq(|vs|, i requires 0 <= i < |vs| => CheckedId(OldIdFromAttrs(vs[i].attrs).value, OldCheckMode(vs[i].attrs)))
  {
    typeIds := [];
    for i := 0 to |vs|
      invariant |typeIds| == i
      invariant forall j :: 0 <= j < i ==> typeIds[j] == CheckedId(ids[j], OldCheckMode(vs[j].attrs))
    {
      var id := GetAssertedIdFromAttrs(vs[i].attrs);
      typeIds := typeIds + [id.value];
    }
  }

  /// The loop building the `enum_variant_id` arms: each variant's name.
  method EnumVariantIdArms(vs: seq<Variant>) returns (names: seq<string>)
    ensures names == seq(|vs|, i requires 0 <= i < |vs| => vs[i].name)
  {
    names := [];
    for i := 0 to |vs|
      invariant |names| == i && forall j :: 0 <= j < i ==> names[j] == vs[j].name
    {
      names := names + [vs[i].name];
    }
  }

  /// The enum's id list: every variant's id, in order, or a panic (None)
  /// at the first variant whose id is bad.
  method AllTypeIds(vs: seq<Variant>) returns (ids: Option<seq<u32>>)
    ensures ids.None? <==> exists i :: 0 <= i < |vs| && !OldIdFromAttrs(vs[i].attrs).Expanded?
    ensures ids.Some? ==> |ids.value| == |vs|
                          && forall i :: 0 <= i < |vs| ==> OldIdFromAttrs(vs[i].attrs) == Expanded(ids.value[i])
  {
    var found: seq<u32> := [];
    for i := 0 to |vs|
      invariant |found| == i && forall j :: 0 <= j < i ==> OldIdFromAttrs(vs[j].attrs) == Expanded(found[j])
    {
      var id := GetIdFromAttrs(vs[i].attrs);
      if !id.Expanded? {
        assert !OldIdFromAttrs(vs[i].attrs).Expanded?;
        return None;
      }
      found := found + [id.value];
    }
    assert forall j :: 0 <= j < |vs| ==> OldIdFromAttrs(vs[j].attrs).Expanded?;
    return Some(found);
  }

  /// A struct gets a single id and no variant ids.
  lemma OldStructImpl(attrs: seq<Attribute>, s: string)
    requires OldIdLiteral(attrs) == Some(LitStr(s)) && ParseIdLiteral(s).Some?
    ensures OldImplOf(Container(attrs, Struct)).Expanded?
    ensures var m := OldImplOf(Container(attrs, Struct)).value;
            m.allTypeIds == [ParseIdLiteral(s).value] && |m.typeIds| == 1
            && m.typeIds[0].id == ParseIdLiteral(s).value && m.enumVariantIds.None?
  {
  }

  /// An enum gets the ids of its variants in declaration order, and their
  /// names, in the same order, as variant ids.
  lemma OldEnumImpl(attrs: seq<Attribute>, vs: seq<Variant>)
    requires OldImplOf(Container(attrs, Enum(vs))).Expanded?
    ensures var m := OldImplOf(Container(attrs, Enum(vs))).value;
            |m.allTypeIds| == |vs| == |m.typeIds|
            && (forall i :: 0 <= i < |vs| ==> OldIdLiteral(vs[i].attrs).Some? && OldIdLiteral(vs[i].attrs).value.LitStr?
                                              && ParseIdLiteral(OldIdLiteral(vs[i].attrs).value.value) == Some(m.allTypeIds[i]))
            && m.enumVariantIds.Some? && |m.enumVariantIds.value| == |vs|
            && forall i :: 0 <= i < |vs| ==> m.enumVariantIds.value[i] == vs[i].name
  {
    if exists i :: 0 <= i < |vs| && !OldIdFromAttrs(vs[i].attrs).Expanded? {
      assert false;
    }
  }

  /// The generated `type_id` never panics: its id is among `all_type_ids`.
  lemma OldTypeIdIsListed(c: Container, k: nat, debugBuild: bool)
    requires OldImplOf(c).Expanded? && k < |OldImplOf(c).value.typeIds|
    ensures TypeIdCall(OldImplOf(c).value.typeIds[k], OldImplOf(c).value.allTypeIds, debugBuild).Some?
  {
    var m := OldImplOf(c).value;
    if c.data.Enum? {
      assert m.typeIds[k].id == m.allTypeIds[k];
    }
  }

  /// Unions, a missing `id` attribute and a non-string id all panic.
  lemma OldFailures(attrs: seq<Attribute>)
    ensures OldImplOf(Container(attrs, Union)) == MacroPanic
    ensures OldIdLiteral(attrs).None? ==> OldImplOf(Container(attrs, Struct)) == MacroPanic
    ensures OldIdLiteral(attrs) == Some(LitOther) ==> OldImplOf(Container(attrs, Struct)) == MacroPanic
  {
  }

  /// A doc comment or an inner attribute never supplies the id, and an
  /// earlier `id` attribute wins over a later one.
  lemma {:induction false} OldFirstIdWins(before: seq<Attribute>, a: Attribute, after: seq<Attribute>)
    requires forall i :: 0 <= i < |before| ==> IdLiteralOf(before[i]).None?
    requires IdLiteralOf(a).Some?
    ensures OldIdLiteral(before + [a] + after) == IdLiteralOf(a)
  {
    var all := before + [a] + after;
    if before == [] {
      assert all[0] == a;
    } else {
      assert all[0] == before[0] && all[1..] == before[1..] + [a] + after;
      OldFirstIdWins(before[1..], a, after);
    }
  }
}
