// `#[derive(MtProtoIdentifiable)]` (serde_mtproto_derive/src/identifiable.rs):
// how the id attributes of a struct or of each enum variant are found and
// parsed, and what the generated `Identifiable` implementation answers.
// The attribute syntax tree is a small datatype; the generated tokens are
// represented by the values they evaluate to.
module DeriveIdentifiable {
  import opened Errors
  import opened Ints
  import DeriveExt

  // ---- Id literals: `u32::from_str_radix` behind a radix prefix ----

  /// The digit a character stands for in radix 36 (`char::to_digit`), or 36
  /// when it is no digit at all.
  function DigitValue(c: char): (d: nat)
    ensures d <= 36
  {
    if '0' <= c <= '9' then c as int - '0' as int
    else if 'a' <= c <= 'z' then c as int - 'a' as int + 10
    else if 'A' <= c <= 'Z' then c as int - 'A' as int + 10
    else 36
  }

  /// The number a string of digits stands for in the given radix, most
  /// significant digit first; None when some character is no digit of it.
  function DigitsValue(ds: string, radix: nat): (r: Option<nat>)
    requires 2 <= radix <= 36
    ensures r.Some? <==> forall i :: 0 <= i < |ds| ==> DigitValue(ds[i]) < radix
  {
    if ds == [] then Some(0)
    else
      var front := DigitsValue(ds[..|ds| - 1], radix);
      var d := DigitValue(ds[|ds| - 1]);
      assert forall i :: 0 <= i < |ds| - 1 ==> ds[..|ds| - 1][i] == ds[i];
      if front.None? || d >= radix then None else Some(front.value * radix + d)
  }

  /// The digits after an optional leading `+`.
  function Unsigned(s: string): string
  {
    if s != [] && s[0] == '+' then s[1..] else s
  }

  /// `u32::from_str_radix`: an optional `+`, then at least one digit of the
  /// radix, and a value that fits a u32; anything else is an error (None).
  function FromStrRadix(s: string, radix: nat): (r: Option<u32>)
    requires 2 <= radix <= 36
    ensures r.Some? <==> Unsigned(s) != [] && DigitsValue(Unsigned(s), radix).Some?
                         && DigitsValue(Unsigned(s), radix).value <= U32_MAX
    ensures r.Some? ==> DigitsValue(Unsigned(s), radix) == Some(r.value)
  {
    var ds := Unsigned(s);
    if ds == [] then None
    else
      var v := DigitsValue(ds, radix);
      if v.Some? && v.value <= U32_MAX then Some(v.value) else None
  }

  /// The id literal parser: `0x`, `0b` and `0o` select hexadecimal, binary
  /// and octal for the rest of the string; anything else, a string shorter
  /// than two characters included, is decimal as a whole. None stands for
  /// the `unwrap` that aborts the expansion.
  function ParseIdLiteral(s: string): (r: Option<u32>)
    ensures r.Some? ==> Unsigned(s) != [] && s != "0x" && s != "0b" && s != "0o"
  {
    if |s| >= 2 then
      var (prefix, rest) := (s[..2], s[2..]);
      if prefix == "0x" then FromStrRadix(rest, 16)
      else if prefix == "0b" then FromStrRadix(rest, 2)
      else if prefix == "0o" then FromStrRadix(rest, 8)
      else FromStrRadix(s, 10)
    else FromStrRadix(s, 10)
  }

  // A printer for the parser to be checked against.

  function DigitChar(d: nat): (c: char)
    requires d < 36
    ensures DigitValue(c) == d
  {
    if d < 10 then ('0' as int + d) as char else ('a' as int + d - 10) as char
  }

  /// Quotient and remainder of n by the radix.
  lemma DivMod(n: nat, radix: nat)
    requires 2 <= radix
    ensures n % radix < radix && (n / radix) * radix + n % radix == n
    ensures n >= radix ==> 0 < n / radix < n
  {
  }

  /// n written in the radix, most significant digit first, without leading zeros.
  function Numeral(n: nat, radix: nat): (s: string)
    requires 2 <= radix <= 36
    ensures s != []
    decreases n
  {
    DivMod(n, radix);
    if n < radix then [DigitChar(n)]
    else Numeral(n / radix, radix) + [DigitChar(n % radix)]
  }

  /// A numeral is made of digits of its radix only, and has no sign.
  lemma {:induction false} NumeralDigits(n: nat, radix: nat)
    requires 2 <= radix <= 36
    ensures forall i :: 0 <= i < |Numeral(n, radix)| ==> DigitValue(Numeral(n, radix)[i]) < radix
    ensures Numeral(n, radix)[0] != '+'
    decreases n
  {
    DivMod(n, radix);
    if n >= radix {
      NumeralDigits(n / radix, radix);
      var front := Numeral(n / radix, radix);
      assert Numeral(n, radix) == front + [DigitChar(n % radix)];
    }
  }

  /// DigitsValue takes off the last digit.
  lemma DigitsSnoc(ds: string, c: char, radix: nat)
    requires 2 <= radix <= 36
    ensures DigitsValue(ds + [c], radix)
            == if DigitsValue(ds, radix).None? || DigitValue(c) >= radix then None
               else Some(DigitsValue(ds, radix).value * radix + DigitValue(c))
  {
    assert (ds + [c])[..|ds|] == ds;
  }

  /// Appending a digit d of the radix to digits worth q makes them worth
  /// q * radix + d.
  lemma DigitsSnocValue(ds: string, c: char, radix: nat, q: nat, d: nat)
    requires 2 <= radix <= 36 && DigitsValue(ds, radix) == Some(q) && DigitValue(c) == d < radix
    ensures DigitsValue(ds + [c], radix) == Some(q * radix + d)
  {
    DigitsSnoc(ds, c, radix);
  }

  /// A numeral of two or more digits is the numeral of the quotient followed
  /// by the digit of the remainder.
  lemma NumeralStep(n: nat, radix: nat)
    requires 2 <= radix <= 36 && n >= radix
    ensures Numeral(n, radix) == Numeral(n / radix, radix) + [DigitChar(n % radix)]
  {
  }

  lemma {:induction false} NumeralValue(n: nat, radix: nat)
    requires 2 <= radix <= 36
    ensures DigitsValue(Numeral(n, radix), radix) == Some(n)
    decreases n
  {
    DivMod(n, radix);
    if n < radix {
      DigitsSnocValue([], DigitChar(n), radix, 0, n);
      assert [] + [DigitChar(n)] == Numeral(n, radix);
    } else {
      var q, r := n / radix, n % radix;
      NumeralValue(q, radix);
      NumeralStep(n, radix);
      DigitsSnocValue(Numeral(q, radix), DigitChar(r), radix, q, r);
    }
  }

  /// Every u32 written in any radix parses back to itself, with or without
  /// a leading `+`.
  lemma FromStrRadixReadsNumerals(n: u32, radix: nat)
    requires 2 <= radix <= 36
    ensures FromStrRadix(Numeral(n, radix), radix) == Some(n)
    ensures FromStrRadix("+" + Numeral(n, radix), radix) == Some(n)
  {
    NumeralValue(n, radix);
    NumeralDigits(n, radix);
    assert Unsigned("+" + Numeral(n, radix)) == Numeral(n, radix);
  }

  /// A value beyond u32 is refused however it is written.
  lemma FromStrRadixRefusesOverflow(n: nat, radix: nat)
    requires 2 <= radix <= 36 && n > U32_MAX
    ensures FromStrRadix(Numeral(n, radix), radix) == None
  {
    NumeralValue(n, radix);
    NumeralDigits(n, radix);
  }

  /// A character that is no digit of the radix makes the string unparsable.
  lemma FromStrRadixRefusesBadDigit(s: string, radix: nat, i: nat)
    requires 2 <= radix <= 36 && i < |Unsigned(s)| && DigitValue(Unsigned(s)[i]) >= radix
    ensures FromStrRadix(s, radix) == None
  {
  }

  /// Each prefix selects its radix for the digits after it.
  lemma ParsePrefixed(prefix: string, radix: nat, n: u32)
    requires (prefix == "0x" && radix == 16) || (prefix == "0b" && radix == 2) || (prefix == "0o" && radix == 8)
    ensures ParseIdLiteral(prefix + Numeral(n, radix)) == Some(n)
  {
    var s := prefix + Numeral(n, radix);
    assert s[..2] == prefix && s[2..] == Numeral(n, radix);
    FromStrRadixReadsNumerals(n, radix);
  }

  /// A plain decimal numeral is read as decimal.
  lemma ParseDecimal(n: u32)
    ensures ParseIdLiteral(Numeral(n, 10)) == Some(n)
  {
    FromStrRadixReadsNumerals(n, 10);
    NumeralDigits(n, 10);
    var s := Numeral(n, 10);
    if |s| >= 2 {
      assert DigitValue(s[1]) < 10;
      assert s[..2][1] == s[1];
    }
  }

  /// A prefix given without digits, or one foreign to its radix, is refused:
  /// "0x" alone and "0b2" abort the expansion, and so does the empty string.
  lemma ParseIdLiteralRefuses()
    ensures ParseIdLiteral("0x") == None
    ensures ParseIdLiteral("0b2") == None
    ensures ParseIdLiteral("") == None
  {
    assert "0x"[..2] == "0x" && "0x"[2..] == [];
    assert "0b2"[..2] == "0b" && "0b2"[2..] == "2";
    assert DigitValue('2') == 2;
  }

  /// The ids the tests give their types.
  lemma TestIds()
    ensures ParseIdLiteral("0xdeadbeef") == Some(0xdeadbeef)
    ensures ParseIdLiteral("0xb01dface") == Some(0xb01dface)
  {
    DeadbeefId();
    B01dfaceId();
  }

  lemma DeadbeefId()
    ensures ParseIdLiteral("0xdeadbeef") == Some(0xdeadbeef)
  {
    var a := "0xdeadbeef";
    HexId(a);
    assert a[2..6] == "dead" && a[6..] == "beef";
    assert DigitValue('a') == 10 && DigitValue('b') == 11;
    assert DigitValue('d') == 13 && DigitValue('e') == 14 && DigitValue('f') == 15;
    assert Hex4Value("dead") == 0xdead && Hex4Value("beef") == 0xbeef;
  }

  lemma B01dfaceId()
    ensures ParseIdLiteral("0xb01dface") == Some(0xb01dface)
  {
    var b := "0xb01dface";
    HexId(b);
    assert b[2..6] == "b01d" && b[6..] == "face";
    assert DigitValue('0') == 0 && DigitValue('1') == 1 && DigitValue('a') == 10 && DigitValue('b') == 11;
    assert DigitValue('c') == 12 && DigitValue('d') == 13 && DigitValue('e') == 14 && DigitValue('f') == 15;
    assert Hex4Value("b01d") == 0xb01d && Hex4Value("face") == 0xface;
  }

  /// A `0x` literal of eight hexadecimal digits reads as its two
  /// four-digit words.
  lemma HexId(s: string)
    requires |s| == 10 && s[0] == '0' && s[1] == 'x' && forall i :: 2 <= i < 10 ==> DigitValue(s[i]) < 16
    ensures ParseIdLiteral(s) == Some(Hex4Value(s[2..6]) * 0x10000 + Hex4Value(s[6..]))
  {
    var ds := s[2..];
    assert s[..2] == "0x";
    assert ds[..4] == s[2..6] && ds[4..] == s[6..];
    assert forall i :: 0 <= i < 8 ==> ds[i] == s[i + 2];
    Hex8(ds);
    Hex4Bound(ds[..4]);
    Hex4Bound(ds[4..]);
  }

  lemma Hex4Bound(ds: string)
    requires |ds| == 4 && forall i :: 0 <= i < 4 ==> DigitValue(ds[i]) < 16
    ensures Hex4Value(ds) < 0x10000
  {
  }

  /// The value of four hexadecimal digits.
  function Hex4Value(ds: string): nat
    requires |ds| == 4
  {
    ((DigitValue(ds[0]) * 16 + DigitValue(ds[1])) * 16 + DigitValue(ds[2])) * 16 + DigitValue(ds[3])
  }

  lemma Hex4(ds: string)
    requires |ds| == 4 && forall i :: 0 <= i < 4 ==> DigitValue(ds[i]) < 16
    ensures DigitsValue(ds, 16) == Some(Hex4Value(ds))
  {
    DigitsSnoc([], ds[0], 16);
    DigitsSnoc(ds[..1], ds[1], 16);
    DigitsSnoc(ds[..2], ds[2], 16);
    DigitsSnoc(ds[..3], ds[3], 16);
    assert [] + [ds[0]] == ds[..1] && ds[..1] + [ds[1]] == ds[..2];
    assert ds[..2] + [ds[2]] == ds[..3] && ds[..3] + [ds[3]] == ds;
  }

  /// Eight hexadecimal digits are two groups of four.
  lemma Hex8(ds: string)
    requires |ds| == 8 && forall i :: 0 <= i < 8 ==> DigitValue(ds[i]) < 16
    ensures DigitsValue(ds, 16) == Some(Hex4Value(ds[..4]) * 0x10000 + Hex4Value(ds[4..]))
  {
    Hex4(ds[..4]);
    var lo := ds[4..];
    DigitsSnoc(ds[..4], lo[0], 16);
    DigitsSnoc(ds[..5], lo[1], 16);
    DigitsSnoc(ds[..6], lo[2], 16);
    DigitsSnoc(ds[..7], lo[3], 16);
    assert ds[..4] + [lo[0]] == ds[..5] && ds[..5] + [lo[1]] == ds[..6];
    assert ds[..6] + [lo[2]] == ds[..7] && ds[..7] + [lo[3]] == ds;
  }

  // ---- Attributes ----

  datatype Lit = LitStr(value: string) | LitOther

  datatype Meta =
    | Word(ident: string)
    | List(ident: string, nested: seq<NestedMeta>)
    | NameValue(ident: string, lit: Lit)

  datatype NestedMeta = NestedMetaItem(meta: Meta) | NestedLiteral(lit: Lit)

  /// An attribute: its style, whether it is a doc comment, and its content
  /// when that parses as a meta item.
  datatype Attribute = Attribute(outer: bool, sugaredDoc: bool, meta: Option<Meta>)

  datatype Variant = Variant(name: string, attrs: seq<Attribute>)

  datatype Data = Struct | Enum(variants: seq<Variant>) | Union

  datatype Container = Container(attrs: seq<Attribute>, data: Data)

  datatype DeriveError =
    | IdNotAString
    | IdAttributeMissing
    | CheckTypeIdArity

  /// What a derive does: produce code, report compile errors, or panic.
  datatype Expansion<T> = Expanded(value: T) | CompileErrors(errors: seq<DeriveError>) | MacroPanic

  /// The items of an outer `#[mtproto_identifiable(...)]` attribute, if a is one.
  function MtProtoItems(a: Attribute): Option<seq<NestedMeta>>
  {
    if a.outer && a.meta.Some? && a.meta.value.List? && a.meta.value.ident == "mtproto_identifiable"
    then Some(a.meta.value.nested) else None
  }

  /// The literal of the first `id = ...` item.
  function IdIn(items: seq<NestedMeta>): (r: Option<Lit>)
    ensures r.Some? <==> exists i :: 0 <= i < |items| && IsId(items[i])
  {
    if items == [] then None
    else if IsId(items[0]) then Some(items[0].meta.lit)
    else
      assert forall i :: 1 <= i < |items| ==> items[i] == items[1..][i - 1];
      IdIn(items[1..])
  }

  predicate IsId(m: NestedMeta)
  {
    m.NestedMetaItem? && m.meta.NameValue? && m.meta.ident == "id"
  }

  /// The literal of the first `id = ...` item of the first
  /// `mtproto_identifiable` attribute that has one.
  function IdLiteral(attrs: seq<Attribute>): Option<Lit>
  {
    if attrs == [] then None
    else
      var items := MtProtoItems(attrs[0]);
      var here := if items.Some? then IdIn(items.value) else None;
      if here.Some? then here else IdLiteral(attrs[1..])
  }

  /// `get_id_from_attrs`: the id, a compile error when the attribute is
  /// missing or its value is not a string, a panic when the string does
  /// not parse.
  function IdFromAttrs(attrs: seq<Attribute>): (r: Expansion<u32>)
    ensures IdLiteral(attrs).None? <==> r == CompileErrors([IdAttributeMissing])
    ensures (IdLiteral(attrs).Some? && IdLiteral(attrs).value.LitOther?) <==> r == CompileErrors([IdNotAString])
    ensures r.Expanded? <==> IdLiteral(attrs).Some? && IdLiteral(attrs).value.LitStr?
                             && ParseIdLiteral(IdLiteral(attrs).value.value).Some?
    ensures r.Expanded? ==> Some(r.value) == ParseIdLiteral(IdLiteral(attrs).value.value)
  {
    match IdLiteral(attrs)
    case None => CompileErrors([IdAttributeMissing])
    case Some(LitOther) => CompileErrors([IdNotAString])
    case Some(LitStr(s)) =>
      var n := ParseIdLiteral(s);
      if n.Some? then Expanded(n.value) else MacroPanic
  }

  /// `#[mtproto_identifiable(id = "...")]`.
  function IdAttribute(s: string): Attribute
  {
    Attribute(true, false, Some(List("mtproto_identifiable", [NestedMetaItem(NameValue("id", LitStr(s)))])))
  }

  /// Attributes that say nothing about the id.
  predicate NoId(attrs: seq<Attribute>)
  {
    forall i :: 0 <= i < |attrs| ==> MtProtoItems(attrs[i]).None? || IdIn(MtProtoItems(attrs[i]).value).None?
  }

  /// The first id attribute decides; attributes without an id before it
  /// and anything after it do not matter.
  lemma {:induction false} FirstIdAttributeWins(before: seq<Attribute>, s: string, after: seq<Attribute>)
    requires NoId(before)
    ensures IdLiteral(before + [IdAttribute(s)] + after) == Some(LitStr(s))
  {
    var all := before + [IdAttribute(s)] + after;
    var items := [NestedMetaItem(NameValue("id", LitStr(s)))];
    assert IsId(items[0]);
    if before == [] {
      assert all[0] == IdAttribute(s);
    } else {
      assert all[0] == before[0] && all[1..] == before[1..] + [IdAttribute(s)] + after;
      FirstIdAttributeWins(before[1..], s, after);
    }
  }

  /// Without any id attribute the derive reports the missing attribute.
  lemma {:induction false} NoIdMeansMissing(attrs: seq<Attribute>)
    requires NoId(attrs)
    ensures IdFromAttrs(attrs) == CompileErrors([IdAttributeMissing])
  {
    if attrs != [] {
      assert NoId(attrs[1..]) by {
        assert forall i :: 0 <= i < |attrs| - 1 ==> attrs[1..][i] == attrs[i + 1];
      }
      NoIdMeansMissing(attrs[1..]);
    }
  }

  // ---- `check_type_id` ----

  datatype CheckMode = Never | DebugOnly | Always

  /// An id together with the check the generated `type_id` makes of it.
  datatype CheckedId = CheckedId(id: u32, mode: CheckMode)

  function ModeNamed(w: string): Option<CheckMode>
  {
    if w == "never" then Some(Never)
    else if w == "debug_only" then Some(DebugOnly)
    else if w == "always" then Some(Always)
    else None
  }

  /// The first `check_type_id(...)` item that decides: one with other than
  /// exactly one parameter is an error; one whose parameter is a known mode
  /// word chooses that mode; any other is skipped.
  function CheckModeIn(items: seq<NestedMeta>): (r: Option<Expansion<CheckMode>>)
    ensures r.Some? ==> !r.value.MacroPanic?
    ensures r.Some? && r.value.CompileErrors? ==> r.value.errors == [CheckTypeIdArity]
  {
    if items == [] then None
    else
      var m := items[0];
      if m.NestedMetaItem? && m.meta.List? && m.meta.ident == "check_type_id" then
        var params := m.meta.nested;
        if |params| != 1 then Some(CompileErrors([CheckTypeIdArity]))
        else if params[0].NestedMetaItem? && params[0].meta.Word? && ModeNamed(params[0].meta.ident).Some? then
          Some(Expanded(ModeNamed(params[0].meta.ident).value))
        else CheckModeIn(items[1..])
      else CheckModeIn(items[1..])
  }

  /// The check mode the attributes ask for; without one, the id is always
  /// checked.
  function CheckModeFrom(attrs: seq<Attribute>): (r: Expansion<CheckMode>)
    ensures !r.MacroPanic?
    ensures r.CompileErrors? ==> r.errors == [CheckTypeIdArity]
    ensures (forall i :: 0 <= i < |attrs| ==> MtProtoItems(attrs[i]).None?) ==> r == Expanded(Always)
  {
    if attrs == [] then Expanded(Always)
    else
      var items := MtProtoItems(attrs[0]);
      var here := if items.Some? then CheckModeIn(items.value) else None;
      if here.Some? then here.value else CheckModeFrom(attrs[1..])
  }

  /// `get_asserted_id_from_attrs`: the id first, then the check mode.
  function AssertedIdFromAttrs(attrs: seq<Attribute>): (r: Expansion<CheckedId>)
    ensures !IdFromAttrs(attrs).Expanded? ==> r == ExpansionError(IdFromAttrs(attrs))
    ensures IdFromAttrs(attrs).Expanded? && !CheckModeFrom(attrs).Expanded? ==>
              r == ExpansionError(CheckModeFrom(attrs))
    ensures r.Expanded? <==> IdFromAttrs(attrs).Expanded? && CheckModeFrom(attrs).Expanded?
    ensures r.Expanded? ==> r.value == CheckedId(IdFromAttrs(attrs).value, CheckModeFrom(attrs).value)
  {
    var id := IdFromAttrs(attrs);
    if !id.Expanded? then ExpansionError(id)
    else
      var mode := CheckModeFrom(attrs);
      if !mode.Expanded? then ExpansionError(mode)
      else Expanded(CheckedId(id.value, mode.value))
  }

  /// A failed expansion, seen at another result type.
  function ExpansionError<T, U>(e: Expansion<T>): Expansion<U>
    requires !e.Expanded?
  {
    if e.MacroPanic? then MacroPanic else CompileErrors(e.errors)
  }

  /// Attributes with an id and no `check_type_id` get the default check.
  lemma {:induction false} DefaultModeIsAlways(attrs: seq<Attribute>)
    requires forall i :: 0 <= i < |attrs| ==>
               (MtProtoItems(attrs[i]).None? || CheckModeIn(MtProtoItems(attrs[i]).value).None?)
    ensures CheckModeFrom(attrs) == Expanded(Always)
  {
    if attrs != [] {
      assert forall i :: 0 <= i < |attrs| - 1 ==> attrs[1..][i] == attrs[i + 1];
      DefaultModeIsAlways(attrs[1..]);
    }
  }

  /// The three mode words, and the arity error.
  lemma CheckModeWords()
    ensures forall w :: w in ["never", "debug_only", "always"] ==>
              CheckModeFrom([CheckAttribute([NestedMetaItem(Word(w))])]) == Expanded(ModeNamed(w).value)
    ensures CheckModeFrom([CheckAttribute([])]) == CompileErrors([CheckTypeIdArity])
    ensures CheckModeFrom([CheckAttribute([NestedMetaItem(Word("sometimes"))])]) == Expanded(Always)
  {
    assert ModeNamed("sometimes") == None;
  }

  /// `#[mtproto_identifiable(check_type_id(...))]`.
  function CheckAttribute(params: seq<NestedMeta>): Attribute
  {
    Attribute(true, false, Some(List("mtproto_identifiable", [NestedMetaItem(List("check_type_id", params))])))
  }

  /// What the generated `type_id` does at run time: the id, unless the
  /// check is made and the id is not among all_type_ids, which panics (None).
  function TypeIdCall(c: CheckedId, allTypeIds: seq<u32>, debugBuild: bool): (r: Option<u32>)
    ensures r.Some? ==> r.value == c.id
    ensures r.None? <==> c.id !in allTypeIds && (c.mode == Always || (c.mode == DebugOnly && debugBuild))
  {
    var checked := c.mode == Always || (c.mode == DebugOnly && debugBuild);
    if checked && c.id !in allTypeIds then None else Some(c.id)
  }

  // ---- The generated implementation ----

  /// The four methods of the generated `Identifiable` implementation, as
  /// what they return: `all_type_ids`, `all_enum_variant_names`, the
  /// `type_id` of each variant (of the struct, for a struct) and the
  /// `enum_variant_id` of each variant (None for a struct).
  datatype IdentifiableImpl = IdentifiableImpl(
    allTypeIds: seq<u32>,
    allEnumVariantNames: Option<seq<string>>,
    typeIds: seq<CheckedId>,
    enumVariantIds: Option<seq<string>>)

  /// An expansion as `collect_results` sees it: a panic wins at once, since
  /// the iterator is driven to completion and a panic aborts it; otherwise
  /// every compile error is gathered.
  function Collect<T>(es: seq<Expansion<T>>): (r: Expansion<seq<T>>)
    ensures r.Expanded? <==> forall i :: 0 <= i < |es| ==> es[i].Expanded?
    ensures r.Expanded? ==> |r.value| == |es| && forall i :: 0 <= i < |es| ==> r.value[i] == es[i].value
    ensures r.MacroPanic? <==> exists i :: 0 <= i < |es| && es[i].MacroPanic?
  {
    if exists i :: 0 <= i < |es| && es[i].MacroPanic? then MacroPanic
    else
      var rs := seq(|es|, i requires 0 <= i < |es| => AsOutcome(es[i]));
      DeriveExt.NoErrorsMeansAllOk(rs);
      assert forall i :: 0 <= i < |es| ==> (rs[i].Ok? <==> es[i].Expanded?);
      match DeriveExt.Collected(rs)
      case Ok(items) => Expanded(items)
      case Err(errors) => CompileErrors(Flatten(errors))
  }

  function AsOutcome<T>(e: Expansion<T>): DeriveExt.Outcome<T, seq<DeriveError>>
    requires !e.MacroPanic?
  {
    if e.Expanded? then DeriveExt.Ok(e.value) else DeriveExt.Err(e.errors)
  }

  function Flatten(ess: seq<seq<DeriveError>>): seq<DeriveError>
  {
    if ess == [] then [] else ess[0] + Flatten(ess[1..])
  }

  /// `impl_mt_proto_identifiable_or_error`. Unions never reach it: the
  /// container type of the derive crate has no union form.
  function ImplIdentifiable(c: Container): (r: Expansion<IdentifiableImpl>)
    requires !c.data.Union?
    ensures r.Expanded? ==>
              |r.value.typeIds| == |r.value.allTypeIds|
              && forall i :: 0 <= i < |r.value.typeIds| ==> r.value.typeIds[i].id == r.value.allTypeIds[i]
    ensures r.Expanded? && c.data.Struct? ==>
      |r.value.allTypeIds| == 1 && r.value.allEnumVariantNames.None? && r.value.enumVariantIds.None?
    ensures r.Expanded? && c.data.Enum? ==>
      |r.value.allTypeIds| == |c.data.variants| && r.value.allEnumVariantNames == r.value.enumVariantIds
      && r.value.allEnumVariantNames.Some? && |r.value.allEnumVariantNames.value| == |c.data.variants|
  {
    match c.data
    case Struct =>
      var id := IdFromAttrs(c.attrs);
      if !id.Expanded? then ExpansionError(id)
      else
        var checked := AssertedIdFromAttrs(c.attrs);
        if !checked.Expanded? then ExpansionError(checked)
        else Expanded(IdentifiableImpl([id.value], None, [checked.value], None))
    case Enum(vs) =>
      var ids := Collect(seq(|vs|, i requires 0 <= i < |vs| => IdFromAttrs(vs[i].attrs)));
      if !ids.Expanded? then ExpansionError(ids)
      else
        var names := seq(|vs|, i requires 0 <= i < |vs| => vs[i].name);
        var checked := Collect(seq(|vs|, i requires 0 <= i < |vs| => AssertedIdFromAttrs(vs[i].attrs)));
        if !checked.Expanded? then ExpansionError(checked)
        else Expanded(IdentifiableImpl(ids.value, Some(names), checked.value, Some(names)))
  }

  /// A struct gets a one-element id list, its one `type_id`, and no variant
  /// names or ids.
  lemma StructImpl(attrs: seq<Attribute>, id: u32, mode: CheckMode)
    requires IdFromAttrs(attrs) == Expanded(id) && CheckModeFrom(attrs) == Expanded(mode)
    ensures ImplIdentifiable(Container(attrs, Struct))
              == Expanded(IdentifiableImpl([id], None, [CheckedId(id, mode)], None))
  {
  }

  /// An enum gets one id per variant in declaration order, and its variant
  /// names, in the same order, both as `all_enum_variant_names` and as the
  /// `enum_variant_id` of each variant.
  lemma EnumImpl(vs: seq<Variant>)
    requires ImplIdentifiable(Container([], Enum(vs))).Expanded?
    ensures var m := ImplIdentifiable(Container([], Enum(vs))).value;
            |m.allTypeIds| == |vs| == |m.typeIds|
            && (forall i :: 0 <= i < |vs| ==> IdFromAttrs(vs[i].attrs) == Expanded(m.allTypeIds[i])
                                              && m.typeIds[i].id == m.allTypeIds[i])
            && m.allEnumVariantNames == m.enumVariantIds
            && m.enumVariantIds.Some? && |m.enumVariantIds.value| == |vs|
            && forall i :: 0 <= i < |vs| ==> m.enumVariantIds.value[i] == vs[i].name
  {
    var ids := Collect(seq(|vs|, i requires 0 <= i < |vs| => IdFromAttrs(vs[i].attrs)));
    var checked := Collect(seq(|vs|, i requires 0 <= i < |vs| => AssertedIdFromAttrs(vs[i].attrs)));
    assert ids.Expanded? && checked.Expanded?;
  }

  /// An enum with a variant that lacks an id does not expand.
  lemma EnumMissingId(vs: seq<Variant>, i: nat)
    requires i < |vs| && NoId(vs[i].attrs)
    ensures !ImplIdentifiable(Container([], Enum(vs))).Expanded?
  {
    NoIdMeansMissing(vs[i].attrs);
    var idsIn := seq(|vs|, j requires 0 <= j < |vs| => IdFromAttrs(vs[j].attrs));
    assert !idsIn[i].Expanded?;
  }

  /// The generated `type_id` never panics, whatever the check mode: the id
  /// it returns is always one of `all_type_ids`.
  lemma DerivedTypeIdIsListed(c: Container, k: nat, debugBuild: bool)
    requires !c.data.Union? && ImplIdentifiable(c).Expanded? && k < |ImplIdentifiable(c).value.typeIds|
    ensures var m := ImplIdentifiable(c).value;
            m.typeIds[k].id in m.allTypeIds
            && TypeIdCall(m.typeIds[k], m.allTypeIds, debugBuild) == Some(m.typeIds[k].id)
  {
    var m := ImplIdentifiable(c).value;
    if c.data.Enum? {
      EnumImplAny(c.data.variants, c.attrs);
      assert m.allTypeIds[k] == m.typeIds[k].id;
    }
  }

  /// EnumImpl for any attributes on the enum itself, which the enum's
  /// expansion does not read.
  lemma EnumImplAny(vs: seq<Variant>, attrs: seq<Attribute>)
    requires ImplIdentifiable(Container(attrs, Enum(vs))).Expanded?
    ensures var m := ImplIdentifiable(Container(attrs, Enum(vs))).value;
            |m.allTypeIds| == |vs| == |m.typeIds|
            && forall i :: 0 <= i < |vs| ==> m.typeIds[i].id == m.allTypeIds[i]
  {
    var ids := Collect(seq(|vs|, i requires 0 <= i < |vs| => IdFromAttrs(vs[i].attrs)));
    var checked := Collect(seq(|vs|, i requires 0 <= i < |vs| => AssertedIdFromAttrs(vs[i].attrs)));
    assert ids.Expanded? && checked.Expanded?;
  }
}
