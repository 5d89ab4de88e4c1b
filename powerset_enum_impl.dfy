/**
 * The `#[powerset_enum]` generator: it validates an enum declaration,
 * replaces each variant's payload type by a fresh generic parameter, records
 * the original payload types in a table, and from that table builds the
 * `WithVariant` impls, the `From<payload>` impls and the notation macro.
 */
module PowersetEnumImpl {
  import opened Wrappers
  import opened Syntax
  import opened GenericNames

  const GenericsMessage := "powerset-enum does not support generics"
  const DiscriminantMessage := "powerset-enum variants cannot have discriminants"
  const ShapeMessage := "powerset-enum variants must contain a single unnamed item"

  /** The prefix of the parameter that replaces each payload type. */
  const GenericPrefix := "T"

  /** One row of the variant table: position, original payload type, variant name. */
  datatype ReplacedVariant = ReplacedVariant(idx: nat, ty: Ty, variantIdent: string)

  /**
   * `impl<generics> powerset_enum::WithVariant<variant> for enumIdent<source> { type With = enumIdent<target>; }`
   */
  datatype WithVariantImpl = WithVariantImpl(generics: seq<string>, variant: Ty, enumIdent: string, source: seq<Ty>, target: seq<Ty>)

  /**
   * `impl<generics> From<from> for enumIdent<params> { fn from(value: from) -> Self { enumIdent::variantIdent(value) } }`
   */
  datatype FromImpl = FromImpl(generics: seq<string>, from: Ty, enumIdent: string, params: seq<Ty>, variantIdent: string)

  /**
   * The enum-to-enum `From` impl: from `enumIdent<fromParams>` to `enumIdent<toParams>`
   * through `enumIdent<midParams>`, re-tagging the variants named in `arms`.
   * The enum name and the `where enumIdent<midParams>: From<from>` bound are
   * not kept: the impl is computed but never emitted.
   */
  datatype EnumFromImpl = EnumFromImpl(generics: seq<string>, fromParams: seq<Ty>, toParams: seq<Ty>, midParams: seq<Ty>, arms: seq<string>)

  /**
   * `macro_rules! ident { ($($tt:ty),*) => ...; ($($tt:ty),*,) => ... }`, both arms expanding to
   * `powerset_enum::powerset!(emptyPowerset, $($tt),*)`.
   */
  datatype NotationMacro = NotationMacro(ident: string, emptyPowerset: Ty)

  /** Everything the attribute emits: the rewritten enum, then the impls, then the macro. */
  datatype Expansion = Expansion(decl: ItemEnum, withVariantImpls: seq<WithVariantImpl>, fromImpls: seq<FromImpl>, powersetMacro: NotationMacro)

  // ---------------------------------------------------------------------------
  // Validation and rewrite of the declaration
  // ---------------------------------------------------------------------------

  /** The type of the only field of a variant with exactly one unnamed field. */
  function SingleUnnamedField(f: Fields): Option<Ty> {
    match f
    case FieldsNamed(_) => None
    case FieldsUnit => None
    case FieldsUnnamed(u) => if |u| == 1 then Some(u[0]) else None
  }

  /** The diagnostic the variant at position `k` draws, if any; the discriminant is looked at first. */
  function VariantError(v: Variant, k: nat): Option<Error> {
    if v.discriminant.Some? then Some(Error(VariantSpan(k), DiscriminantMessage))
    else if SingleUnnamedField(v.fields).None? then Some(Error(VariantSpan(k), ShapeMessage))
    else None
  }

  predicate AllSupported(variants: seq<Variant>) {
    forall k :: 0 <= k < |variants| ==> VariantError(variants[k], k).None?
  }

  /** The variant table a supported declaration gives: one row per variant, in order. */
  function TableOf(variants: seq<Variant>): seq<ReplacedVariant>
    requires AllSupported(variants)
  {
    seq(|variants|, k requires 0 <= k < |variants| =>
      ReplacedVariant(k, SingleUnnamedField(variants[k].fields).value, variants[k].ident))
  }

  /** `decl` is `input` with generics `T0, ..., T{n-1}` and variant `i`'s field retyped to `Ti`. */
  predicate IsRewriteOf(decl: ItemEnum, input: ItemEnum) {
    && decl.attrs == input.attrs
    && decl.ident == input.ident
    && |decl.generics| == |input.variants|
    && (forall i :: 0 <= i < |decl.generics| ==> decl.generics[i] == TypeParam(MakeGenericIdent(GenericPrefix, i)))
    && |decl.variants| == |input.variants|
    && (forall i :: 0 <= i < |decl.variants| ==>
          decl.variants[i] == input.variants[i].(fields := FieldsUnnamed([Param(MakeGenericIdent(GenericPrefix, i))])))
  }

  /**
   * The validation and rewrite loop of `powerset_enum_impl`: refuse generics,
   * then walk the variants in order, stopping at the first one with a
   * discriminant or without exactly one unnamed field; otherwise retype each
   * field to its fresh parameter, record the table row and push the parameter.
   */
  method RewriteDeclaration(input: ItemEnum) returns (r: Result<(ItemEnum, seq<ReplacedVariant>), Error>)
    ensures input.generics != [] ==> r == Err(Error(GenericsSpan, GenericsMessage))
    ensures input.generics == [] ==> (r.Ok? <==> AllSupported(input.variants))
    ensures input.generics == [] && r.Err? ==>
      exists k :: 0 <= k < |input.variants| && VariantError(input.variants[k], k) == Some(r.error)
                  && AllSupported(input.variants[..k])
    ensures r.Ok? ==> AllSupported(input.variants) && IsRewriteOf(r.value.0, input)
                      && r.value.1 == TableOf(input.variants)
  {
    if input.generics != [] {
      return Err(Error(GenericsSpan, GenericsMessage));
    }
    var variants := input.variants;
    var generics: seq<GenericParam> := [];
    var replaced: seq<ReplacedVariant> := [];
    var idx := 0;
    while idx < |variants|
      invariant 0 <= idx <= |variants| == |input.variants|
      invariant AllSupported(input.variants[..idx])
      invariant |generics| == idx
      invariant forall i :: 0 <= i < idx ==> generics[i] == TypeParam(MakeGenericIdent(GenericPrefix, i))
      invariant forall i :: 0 <= i < idx ==>
        variants[i] == input.variants[i].(fields := FieldsUnnamed([Param(MakeGenericIdent(GenericPrefix, i))]))
      invariant forall i :: idx <= i < |variants| ==> variants[i] == input.variants[i]
      invariant replaced == TableOf(input.variants[..idx])
    {
      var variant := variants[idx];
      if variant.discriminant.Some? {
        return Err(Error(VariantSpan(idx), DiscriminantMessage));
      }
      var field: Option<Ty> :=
        match variant.fields
        case FieldsNamed(_) => None
        case FieldsUnit => None
        case FieldsUnnamed(unnamed) => if |unnamed| == 1 then Some(unnamed[0]) else None;
      if field.None? {
        return Err(Error(VariantSpan(idx), ShapeMessage));
      }
      var genericIdent := MakeGenericIdent(GenericPrefix, idx);
      var originalType := field.value;
      RewriteStep(input.variants, idx, originalType);
      variants := variants[idx := variant.(fields := FieldsUnnamed([MakeGenericType(genericIdent)]))];
      replaced := replaced + [ReplacedVariant(idx, originalType, variant.ident)];
      generics := generics + [TypeParam(genericIdent)];
      idx := idx + 1;
    }
    assert input.variants[..idx] == input.variants;
    r := Ok((input.(generics := generics, variants := variants), replaced));
  }

  /** One more supported variant extends the supported prefix and its table by one row. */
  lemma RewriteStep(variants: seq<Variant>, idx: nat, ty: Ty)
    requires idx < |variants| && AllSupported(variants[..idx])
    requires variants[idx].discriminant.None? && SingleUnnamedField(variants[idx].fields) == Some(ty)
    ensures AllSupported(variants[..idx + 1])
    ensures TableOf(variants[..idx + 1]) == TableOf(variants[..idx]) + [ReplacedVariant(idx, ty, variants[idx].ident)]
  {
    assert variants[..idx + 1] == variants[..idx] + [variants[idx]];
  }

  /** Rows sit at consecutive positions starting at `base`. */
  predicate IndexedFrom(table: seq<ReplacedVariant>, base: nat) {
    forall j :: 0 <= j < |table| ==> table[j].idx == base + j
  }

  /** The table of a supported declaration: row `i` is variant `i`, holding its payload type and name. */
  lemma TableOfRows(variants: seq<Variant>)
    requires AllSupported(variants)
    ensures |TableOf(variants)| == |variants| && IndexedFrom(TableOf(variants), 0)
    ensures forall i :: 0 <= i < |variants| ==>
      && variants[i].fields == FieldsUnnamed([TableOf(variants)[i].ty])
      && TableOf(variants)[i].variantIdent == variants[i].ident
  {
    forall i | 0 <= i < |variants|
      ensures variants[i].fields == FieldsUnnamed([TableOf(variants)[i].ty])
    {
      assert VariantError(variants[i], i).None?;
      assert variants[i].fields.FieldsUnnamed? && |variants[i].fields.unnamed| == 1;
      assert variants[i].fields.unnamed == [variants[i].fields.unnamed[0]];
    }
  }

  // ---------------------------------------------------------------------------
  // Parameter lists of the generated impls
  // ---------------------------------------------------------------------------

  /** The indices of every row other than the one at `idx`, in table order. */
  function OtherIndices(table: seq<ReplacedVariant>, idx: nat): seq<nat>
    decreases |table|
  {
    if table == [] then []
    else (if table[0].idx != idx then [table[0].idx] else []) + OtherIndices(table[1..], idx)
  }

  /** The names `{prefix}{i}` for the indices `ixs`, in order. */
  function NamesOf(prefix: string, ixs: seq<nat>): (ids: seq<string>)
    ensures |ids| == |ixs|
  {
    seq(|ixs|, k requires 0 <= k < |ixs| => MakeGenericIdent(prefix, ixs[k]))
  }

  /** The impl generics: `T{v.idx}` for every row `v` other than the one at `idx`, in table order. */
  function ImplGenerics(table: seq<ReplacedVariant>, idx: nat): seq<string> {
    NamesOf(GenericPrefix, OtherIndices(table, idx))
  }

  /** For each row: `filler` at the row `idx`, the row's own parameter everywhere else. */
  function SlotParams(table: seq<ReplacedVariant>, idx: nat, filler: Ty): (params: seq<Ty>)
    ensures |params| == |table|
  {
    seq(|table|, j requires 0 <= j < |table| =>
      if table[j].idx == idx then filler else MakeGenericType(MakeGenericIdent(GenericPrefix, table[j].idx)))
  }

  /** The indices `lo` to `hi - 1`, in order. */
  function Range(lo: nat, hi: nat): (ixs: seq<nat>)
    ensures |ixs| == if lo <= hi then hi - lo else 0
    decreases hi - lo
  {
    if lo < hi then [lo] + Range(lo + 1, hi) else []
  }

  lemma {:induction false} RangeAt(lo: nat, hi: nat, k: nat)
    requires lo + k < hi
    ensures Range(lo, hi)[k] == lo + k
    decreases hi - lo
  {
    if k > 0 {
      RangeAt(lo + 1, hi, k - 1);
    }
  }

  lemma RangeCons(lo: nat, hi: nat)
    requires lo < hi
    ensures Range(lo, hi) == [lo] + Range(lo + 1, hi)
  {
  }

  lemma IndexedFromTail(table: seq<ReplacedVariant>, base: nat)
    requires IndexedFrom(table, base) && table != []
    ensures table[0].idx == base && IndexedFrom(table[1..], base + 1)
  {
    forall j | 0 <= j < |table| - 1
      ensures table[1..][j].idx == base + 1 + j
    {
      assert table[1..][j] == table[j + 1];
    }
  }

  /** On a table indexed from `base`, the other indices skip exactly `idx` and keep the rest in ascending order. */
  lemma {:induction false} OtherIndicesSkip(table: seq<ReplacedVariant>, base: nat, idx: nat)
    requires IndexedFrom(table, base) && idx < base + |table|
    ensures idx < base ==> OtherIndices(table, idx) == Range(base, base + |table|)
    ensures base <= idx ==> OtherIndices(table, idx) == Range(base, idx) + Range(idx + 1, base + |table|)
    decreases |table|
  {
    if table == [] {
      assert Range(base, base) == [];
    } else {
      IndexedFromTail(table, base);
      OtherIndicesSkip(table[1..], base + 1, idx);
      if idx <= base {
        OtherIndicesStepBelow(table, base, idx);
      } else {
        OtherIndicesStepAbove(table, base, idx);
      }
    }
  }

  lemma OtherIndicesStepBelow(table: seq<ReplacedVariant>, base: nat, idx: nat)
    requires table != [] && table[0].idx == base && idx <= base
    requires OtherIndices(table[1..], idx) == Range(base + 1, base + |table|)
    ensures idx < base ==> OtherIndices(table, idx) == Range(base, base + |table|)
    ensures idx == base ==> OtherIndices(table, idx) == Range(base, idx) + Range(idx + 1, base + |table|)
  {
    if idx < base {
      RangeCons(base, base + |table|);
    } else {
      assert Range(base, idx) == [];
      assert [] + Range(idx + 1, base + |table|) == Range(idx + 1, base + |table|);
    }
  }

  lemma OtherIndicesStepAbove(table: seq<ReplacedVariant>, base: nat, idx: nat)
    requires table != [] && table[0].idx == base && base < idx
    requires OtherIndices(table[1..], idx) == Range(base + 1, idx) + Range(idx + 1, base + |table|)
    ensures OtherIndices(table, idx) == Range(base, idx) + Range(idx + 1, base + |table|)
  {
    RangeCons(base, idx);
    var lower, upper := Range(base + 1, idx), Range(idx + 1, base + |table|);
    assert [base] + (lower + upper) == ([base] + lower) + upper;
  }

  lemma NamesOfAppend(prefix: string, a: seq<nat>, b: seq<nat>)
    ensures NamesOf(prefix, a + b) == NamesOf(prefix, a) + NamesOf(prefix, b)
  {
    var l, r := NamesOf(prefix, a + b), NamesOf(prefix, a) + NamesOf(prefix, b);
    forall k | 0 <= k < |l|
      ensures l[k] == r[k]
    {
      if k < |a| {
        assert (a + b)[k] == a[k];
      } else {
        assert (a + b)[k] == b[k - |a|];
      }
    }
  }

  /** The names of a range are the generated identifiers of that range. */
  lemma {:induction false} NamesOfRange(prefix: string, lo: nat, hi: nat)
    ensures NamesOf(prefix, Range(lo, hi)) == MakeGenericIdents(prefix, lo, hi)
    decreases hi - lo
  {
    if lo < hi {
      NamesOfRange(prefix, lo + 1, hi);
      NamesOfAppend(prefix, [lo], Range(lo + 1, hi));
      assert NamesOf(prefix, [lo]) == [MakeGenericIdent(prefix, lo)];
    }
  }

  /** On a table indexed from 0, the impl generics for row `idx` are `T{j}` for `j != idx`, ascending. */
  lemma ImplGenericsSkip(table: seq<ReplacedVariant>, idx: nat)
    requires IndexedFrom(table, 0) && idx < |table|
    ensures ImplGenerics(table, idx)
            == MakeGenericIdents(GenericPrefix, 0, idx) + MakeGenericIdents(GenericPrefix, idx + 1, |table|)
  {
    var lower, upper := Range(0, idx), Range(idx + 1, |table|);
    calc {
      ImplGenerics(table, idx);
      NamesOf(GenericPrefix, OtherIndices(table, idx));
      { OtherIndicesSkip(table, 0, idx); }
      NamesOf(GenericPrefix, lower + upper);
      { NamesOfAppend(GenericPrefix, lower, upper); }
      NamesOf(GenericPrefix, lower) + NamesOf(GenericPrefix, upper);
      { NamesOfRange(GenericPrefix, 0, idx); NamesOfRange(GenericPrefix, idx + 1, |table|); }
      MakeGenericIdents(GenericPrefix, 0, idx) + MakeGenericIdents(GenericPrefix, idx + 1, |table|);
    }
  }

  // ---------------------------------------------------------------------------
  // gen_with_variant_trait_impls
  // ---------------------------------------------------------------------------

  function WithVariantImplFor(enumIdent: string, table: seq<ReplacedVariant>, rv: ReplacedVariant): WithVariantImpl {
    WithVariantImpl(ImplGenerics(table, rv.idx), rv.ty, enumIdent,
                    SlotParams(table, rv.idx, MakeNever()), SlotParams(table, rv.idx, rv.ty))
  }

  /** One `WithVariant` impl per table row, in table order. */
  function GenWithVariantTraitImpls(enumIdent: string, table: seq<ReplacedVariant>): (impls: seq<WithVariantImpl>)
    ensures |impls| == |table|
  {
    seq(|table|, i requires 0 <= i < |table| => WithVariantImplFor(enumIdent, table, table[i]))
  }

  /**
   * Impl `i` implements `WithVariant<ty_i>` for the instantiation with `!` at
   * position `i` and `Tj` at every other position `j`, and its `With` is the
   * same list with `ty_i` at `i`; its generics are the `Tj` for `j != i`,
   * ascending.
   */
  lemma WithVariantImplsShape(enumIdent: string, table: seq<ReplacedVariant>)
    requires IndexedFrom(table, 0)
    ensures forall i :: 0 <= i < |table| ==>
      var impl := GenWithVariantTraitImpls(enumIdent, table)[i];
      && impl.enumIdent == enumIdent
      && impl.variant == table[i].ty
      && impl.generics == MakeGenericIdents(GenericPrefix, 0, i) + MakeGenericIdents(GenericPrefix, i + 1, |table|)
      && |impl.source| == |table| && |impl.target| == |table|
      && impl.source[i] == Never && impl.target[i] == table[i].ty
      && (forall j :: 0 <= j < |table| && j != i ==>
            impl.source[j] == Param(MakeGenericIdent(GenericPrefix, j)) && impl.target[j] == Param(MakeGenericIdent(GenericPrefix, j)))
  {
    forall i | 0 <= i < |table|
      ensures GenWithVariantTraitImpls(enumIdent, table)[i].generics
              == MakeGenericIdents(GenericPrefix, 0, i) + MakeGenericIdents(GenericPrefix, i + 1, |table|)
    {
      ImplGenericsSkip(table, i);
    }
  }

  /** The impl for row `i` alone, as `WithVariantImplsShape` states it. */
  lemma WithVariantImplAt(enumIdent: string, table: seq<ReplacedVariant>, i: nat)
    requires IndexedFrom(table, 0) && i < |table|
    ensures var impl := GenWithVariantTraitImpls(enumIdent, table)[i];
      && impl.enumIdent == enumIdent
      && impl.variant == table[i].ty
      && impl.generics == MakeGenericIdents(GenericPrefix, 0, i) + MakeGenericIdents(GenericPrefix, i + 1, |table|)
      && |impl.source| == |table| && |impl.target| == |table|
      && impl.source[i] == Never && impl.target[i] == table[i].ty
      && (forall j :: 0 <= j < |table| && j != i ==>
            impl.source[j] == Param(MakeGenericIdent(GenericPrefix, j)) && impl.target[j] == Param(MakeGenericIdent(GenericPrefix, j)))
  {
    ImplGenericsSkip(table, i);
  }

  // ---------------------------------------------------------------------------
  // gen_error_from_trait_impls
  // ---------------------------------------------------------------------------

  function FromImplFor(enumIdent: string, table: seq<ReplacedVariant>, rv: ReplacedVariant): FromImpl {
    FromImpl(ImplGenerics(table, rv.idx), rv.ty, enumIdent, SlotParams(table, rv.idx, rv.ty), rv.variantIdent)
  }

  /** One `From<payload>` impl per table row, in table order. */
  function GenErrorFromTraitImpls(enumIdent: string, table: seq<ReplacedVariant>): (impls: seq<FromImpl>)
    ensures |impls| == |table|
  {
    seq(|table|, i requires 0 <= i < |table| => FromImplFor(enumIdent, table, table[i]))
  }

  /**
   * Impl `i` converts `ty_i` into the instantiation with `ty_i` at `i` and
   * `Tj` elsewhere by building variant `i` around the value; that target is
   * exactly the `With` type of the `WithVariant<ty_i>` impl, and both impls
   * have the same generics.
   */
  lemma FromImplsShape(enumIdent: string, table: seq<ReplacedVariant>)
    requires IndexedFrom(table, 0)
    ensures forall i :: 0 <= i < |table| ==>
      var impl := GenErrorFromTraitImpls(enumIdent, table)[i];
      && impl.enumIdent == enumIdent
      && impl.from == table[i].ty
      && impl.variantIdent == table[i].variantIdent
      && |impl.params| == |table|
      && impl.params[i] == table[i].ty
      && (forall j :: 0 <= j < |table| && j != i ==> impl.params[j] == Param(MakeGenericIdent(GenericPrefix, j)))
      && impl.params == GenWithVariantTraitImpls(enumIdent, table)[i].target
      && impl.generics == GenWithVariantTraitImpls(enumIdent, table)[i].generics
  {
    WithVariantImplsShape(enumIdent, table);
  }

  // ---------------------------------------------------------------------------
  // gen_enum_from_trait_impls (computed by the generator, not emitted)
  // ---------------------------------------------------------------------------

  /** The variant names of every row other than the one at `idx`, in table order. */
  function OtherVariantIdents(table: seq<ReplacedVariant>, idx: nat): seq<string>
    decreases |table|
  {
    if table == [] then []
    else (if table[0].idx != idx then [table[0].variantIdent] else []) + OtherVariantIdents(table[1..], idx)
  }

  /** The variant names of `rows`, in order. */
  function VariantIdents(rows: seq<ReplacedVariant>): (ids: seq<string>)
    ensures |ids| == |rows|
  {
    seq(|rows|, k requires 0 <= k < |rows| => rows[k].variantIdent)
  }

  lemma VariantIdentsCons(rows: seq<ReplacedVariant>)
    requires rows != []
    ensures VariantIdents(rows) == [rows[0].variantIdent] + VariantIdents(rows[1..])
  {
  }

  /** With no row at `idx`, every row's name is kept. */
  lemma {:induction false} OtherVariantIdentsNone(table: seq<ReplacedVariant>, idx: nat)
    requires forall j :: 0 <= j < |table| ==> table[j].idx != idx
    ensures OtherVariantIdents(table, idx) == VariantIdents(table)
    decreases |table|
  {
    if table != [] {
      forall j | 0 <= j < |table| - 1
        ensures table[1..][j].idx != idx
      {
        assert table[1..][j] == table[j + 1];
      }
      OtherVariantIdentsNone(table[1..], idx);
      VariantIdentsCons(table);
    }
  }

  /** When only position `p` holds the row at `idx`, the names skip exactly that position. */
  lemma {:induction false} OtherVariantIdentsSplit(table: seq<ReplacedVariant>, idx: nat, p: nat)
    requires p < |table| && table[p].idx == idx
    requires forall j :: 0 <= j < |table| && j != p ==> table[j].idx != idx
    ensures OtherVariantIdents(table, idx) == VariantIdents(table[..p]) + VariantIdents(table[p + 1..])
    decreases p
  {
    var tail := table[1..];
    forall j | 0 <= j < |tail| && j + 1 != p
      ensures tail[j].idx != idx
    {
      assert tail[j] == table[j + 1];
    }
    if p == 0 {
      OtherVariantIdentsNone(tail, idx);
      assert VariantIdents(table[..0]) == [];
    } else {
      OtherVariantIdentsSplit(tail, idx, p - 1);
      assert tail[..p - 1] == table[1..p] && tail[p..] == table[p + 1..];
      VariantIdentsCons(table[..p]);
      assert table[..p][1..] == table[1..p];
      var lower, upper := VariantIdents(table[1..p]), VariantIdents(table[p + 1..]);
      assert [table[0].variantIdent] + (lower + upper) == ([table[0].variantIdent] + lower) + upper;
    }
  }

  function EnumFromImplFor(table: seq<ReplacedVariant>, rv: ReplacedVariant): EnumFromImpl {
    var n := |table|;
    EnumFromImpl(
      MakeGenericIdents("O", 0, rv.idx) + MakeGenericIdents("N", 0, rv.idx) + MakeGenericIdents(GenericPrefix, rv.idx + 1, n),
      MakeGenericTypes("O", 0, rv.idx) + [MakeNever()] + MakeGenericTypes(GenericPrefix, rv.idx + 1, n),
      MakeGenericTypes("N", 0, rv.idx) + [rv.ty] + MakeGenericTypes(GenericPrefix, rv.idx + 1, n),
      MakeGenericTypes("N", 0, rv.idx) + [MakeNever()] + MakeGenericTypes(GenericPrefix, rv.idx + 1, n),
      OtherVariantIdents(table, rv.idx))
  }

  function GenEnumFromTraitImpls(table: seq<ReplacedVariant>): (impls: seq<EnumFromImpl>)
    ensures |impls| == |table|
  {
    seq(|table|, i requires 0 <= i < |table| => EnumFromImplFor(table, table[i]))
  }

  /** `l` is `prefix0..prefix{i-1}`, then `mid` at position `i`, then `T{i+1}..T{n-1}`. */
  predicate IsSlotList(l: seq<Ty>, prefix: string, i: nat, n: nat, mid: Ty) {
    && |l| == n && i < n && l[i] == mid
    && (forall j :: 0 <= j < i ==> l[j] == Param(MakeGenericIdent(prefix, j)))
    && (forall j :: i < j < n ==> l[j] == Param(MakeGenericIdent(GenericPrefix, j)))
  }

  /**
   * For row `i`: the source list is `O0..O{i-1}, !, T{i+1}..`, the target
   * `N0..N{i-1}, ty_i, T{i+1}..` and the middle `N0..N{i-1}, !, T{i+1}..`;
   * no generic parameter is declared twice.
   */
  lemma EnumFromParamLists(table: seq<ReplacedVariant>, i: nat)
    requires IndexedFrom(table, 0) && i < |table|
    ensures IsSlotList(GenEnumFromTraitImpls(table)[i].fromParams, "O", i, |table|, Never)
    ensures IsSlotList(GenEnumFromTraitImpls(table)[i].toParams, "N", i, |table|, table[i].ty)
    ensures IsSlotList(GenEnumFromTraitImpls(table)[i].midParams, "N", i, |table|, Never)
    ensures var g := GenEnumFromTraitImpls(table)[i].generics;
            forall a, b :: 0 <= a < b < |g| ==> g[a] != g[b]
    ensures GenEnumFromTraitImpls(table)[i].arms == VariantIdents(table[..i]) + VariantIdents(table[i + 1..])
  {
    var n := |table|;
    var rv := table[i];
    assert rv.idx == i;
    var impl := GenEnumFromTraitImpls(table)[i];
    assert impl == EnumFromImplFor(table, rv);
    assert impl.generics == MakeGenericIdents("O", 0, i) + MakeGenericIdents("N", 0, i) + MakeGenericIdents(GenericPrefix, i + 1, n);
    SlotListAt("O", i, n, Never);
    SlotListAt("N", i, n, rv.ty);
    SlotListAt("N", i, n, Never);
    EnumFromGenericsDistinct(i, n);
    OtherVariantIdentsSplit(table, i, i);
  }

  lemma SlotListAt(prefix: string, i: nat, n: nat, mid: Ty)
    requires i < n
    ensures IsSlotList(MakeGenericTypes(prefix, 0, i) + [mid] + MakeGenericTypes(GenericPrefix, i + 1, n), prefix, i, n, mid)
  {
    var a, c := MakeGenericTypes(prefix, 0, i), MakeGenericTypes(GenericPrefix, i + 1, n);
    var l := a + [mid] + c;
    forall j | i < j < n ensures l[j] == Param(MakeGenericIdent(GenericPrefix, j)) {
      assert l[j] == c[j - i - 1];
    }
  }

  /** The generics `O0..O{i-1}, N0..N{i-1}, T{i+1}..T{n-1}` are pairwise distinct. */
  lemma EnumFromGenericsDistinct(i: nat, n: nat)
    requires i < n
    ensures var g := MakeGenericIdents("O", 0, i) + MakeGenericIdents("N", 0, i) + MakeGenericIdents(GenericPrefix, i + 1, n);
            forall a, b :: 0 <= a < b < |g| ==> g[a] != g[b]
  {
    var g := MakeGenericIdents("O", 0, i) + MakeGenericIdents("N", 0, i) + MakeGenericIdents(GenericPrefix, i + 1, n);
    forall a, b | 0 <= a < b < |g| ensures g[a] != g[b] {
      var (pa, ka) := IdentAt(i, n, a);
      var (pb, kb) := IdentAt(i, n, b);
      if g[a] == g[b] {
        GenericIdentDeterminesPrefix(pa, pb, ka, kb);
      }
    }
  }

  /** Which prefix and index the generic at position `a` of `O0.., N0.., T{i+1}..` has. */
  function IdentAt(i: nat, n: nat, a: nat): (r: (string, nat))
    requires i < n && a < i + i + (n - i - 1)
    ensures NoDigits(r.0)
    ensures (MakeGenericIdents("O", 0, i) + MakeGenericIdents("N", 0, i) + MakeGenericIdents(GenericPrefix, i + 1, n))[a]
            == MakeGenericIdent(r.0, r.1)
    ensures a < i ==> r == ("O", a)
    ensures i <= a < i + i ==> r == ("N", a - i)
    ensures i + i <= a ==> r == (GenericPrefix, a - i + 1)
  {
    if a < i then ("O", a) else if a < i + i then ("N", a - i) else (GenericPrefix, a - i + 1)
  }

  // ---------------------------------------------------------------------------
  // gen_powerset_macro and the expansion of its two arms
  // ---------------------------------------------------------------------------

  /** The notation macro, seeded with the instantiation that has `!` at every position. */
  function GenPowersetMacro(enumIdent: string, table: seq<ReplacedVariant>): (m: NotationMacro)
    ensures m.ident == enumIdent
    ensures m.emptyPowerset.Enum? && m.emptyPowerset.ident == enumIdent
    ensures |m.emptyPowerset.args| == |table| && forall j :: 0 <= j < |table| ==> m.emptyPowerset.args[j] == Never
  {
    NotationMacro(enumIdent, Enum(enumIdent, seq(|table|, _ => MakeNever())))
  }

  /** The argument tokens of `powerset_enum::powerset!(empty, t0, ..., tk)`. */
  function PowersetInvocation(m: NotationMacro, ts: seq<Ty>): seq<Token> {
    [TypeTok(m.emptyPowerset), CommaTok] + Separated(ts)
  }

  /** `m!(args)`: the first arm takes `t0, ..., tk`, the second `t0, ..., tk,`; anything else matches no arm. */
  function ExpandNotation(m: NotationMacro, args: seq<Token>): (r: Option<seq<Token>>)
    ensures SplitSeparated(args).Some? ==> r.Some?
    ensures args == [] ==> r == Some([TypeTok(m.emptyPowerset), CommaTok])
    ensures r.Some? ==> |r.value| >= 2 && r.value[0] == TypeTok(m.emptyPowerset) && r.value[1] == CommaTok
  {
    assert SplitSeparated([]) == Some([]);
    assert Separated([]) == [];
    assert PowersetInvocation(m, []) == [TypeTok(m.emptyPowerset), CommaTok];
    match SplitSeparated(args)
    case Some(ts) => Some(PowersetInvocation(m, ts))
    case None =>
      if args != [] && args[|args| - 1] == CommaTok then
        match SplitSeparated(args[..|args| - 1])
        case Some(ts) => Some(PowersetInvocation(m, ts))
        case None => None
      else None
  }

  /** Both arms, with and without a trailing comma, give the same `powerset!` call. */
  lemma NotationArmsAgree(m: NotationMacro, ts: seq<Ty>)
    ensures ExpandNotation(m, Separated(ts)) == Some(PowersetInvocation(m, ts))
    ensures ExpandNotation(m, Separated(ts) + [CommaTok]) == Some(PowersetInvocation(m, ts))
  {
    SplitSeparatedOfSeparated(ts);
    var withComma := Separated(ts) + [CommaTok];
    if SplitSeparated(withComma).Some? {
      SeparatedOfSplitSeparated(withComma, SplitSeparated(withComma).value);
      SeparatedEndsWithType(SplitSeparated(withComma).value);
    }
    assert withComma[..|withComma| - 1] == Separated(ts);
  }

  /** Every expansion comes from one of the two arms. */
  lemma NotationExpansionOrigin(m: NotationMacro, args: seq<Token>)
    requires ExpandNotation(m, args).Some?
    ensures exists ts :: ExpandNotation(m, args) == Some(PowersetInvocation(m, ts))
                         && (args == Separated(ts) || args == Separated(ts) + [CommaTok])
  {
    match SplitSeparated(args)
    case Some(ts) =>
      SeparatedOfSplitSeparated(args, ts);
    case None =>
      var ts := SplitSeparated(args[..|args| - 1]).value;
      SeparatedOfSplitSeparated(args[..|args| - 1], ts);
      assert args == args[..|args| - 1] + [CommaTok];
  }

  lemma SeparatedEndsWithType(ts: seq<Ty>)
    ensures Separated(ts) == [] || Separated(ts)[|Separated(ts)| - 1].TypeTok?
    decreases |ts|
  {
    if |ts| > 1 {
      SeparatedEndsWithType(ts[1..]);
    }
  }

  // ---------------------------------------------------------------------------
  // powerset_enum_impl
  // ---------------------------------------------------------------------------

  /**
   * The attribute: validate and rewrite, then generate every artifact from the
   * table. A validation error aborts the whole expansion; the generators
   * themselves cannot fail.
   */
  method PowersetEnumImpl(input: ItemEnum) returns (r: Result<Expansion, Error>)
    ensures input.generics != [] ==> r == Err(Error(GenericsSpan, GenericsMessage))
    ensures input.generics == [] ==> (r.Ok? <==> AllSupported(input.variants))
    ensures input.generics == [] && r.Err? ==>
      exists k :: 0 <= k < |input.variants| && VariantError(input.variants[k], k) == Some(r.error)
                  && AllSupported(input.variants[..k])
    ensures r.Ok? ==>
      && AllSupported(input.variants)
      && IsRewriteOf(r.value.decl, input)
      && r.value.withVariantImpls == GenWithVariantTraitImpls(input.ident, TableOf(input.variants))
      && r.value.fromImpls == GenErrorFromTraitImpls(input.ident, TableOf(input.variants))
      && r.value.powersetMacro == GenPowersetMacro(input.ident, TableOf(input.variants))
  {
    var rewritten := RewriteDeclaration(input);
    if rewritten.Err? {
      return Err(rewritten.error);
    }
    var (decl, table) := rewritten.value;
    var variantTraitImpls := GenWithVariantTraitImpls(decl.ident, table);
    var errorFromTraitImpls := GenErrorFromTraitImpls(decl.ident, table);
    var enumFromTraitImpls := GenEnumFromTraitImpls(table);
    var powersetMacro := GenPowersetMacro(decl.ident, table);
    r := Ok(Expansion(decl, variantTraitImpls, errorFromTraitImpls, powersetMacro));
  }
}
