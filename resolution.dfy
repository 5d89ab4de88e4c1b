/**
 * What the host compiler does with the fold: each
 * `<X as powerset_enum::WithVariant<V>>::With` is resolved by selecting the
 * one generated impl whose trait argument is `V` and whose self type matches
 * `X`, and instantiating its `With` type. Selection is positional matching:
 * a position of the impl's self type that names one of the impl's generics
 * matches anything (the same generic must match the same type everywhere);
 * any other position must be identical.
 */
module Resolution {
  import opened Wrappers
  import opened Syntax
  import opened GenericNames
  import opened PowersetEnumImpl
  import opened PowersetMacroImpl

  // ---------------------------------------------------------------------------
  // Impl selection and projection
  // ---------------------------------------------------------------------------

  predicate IsGenericOf(impl: WithVariantImpl, t: Ty) {
    t.Param? && t.ident in impl.generics
  }

  /** `impl` is an impl of `WithVariant<v>` for `e<args>`. */
  predicate Applies(impl: WithVariantImpl, e: string, v: Ty, args: seq<Ty>) {
    && impl.enumIdent == e
    && impl.variant == v
    && |args| == |impl.source|
    && (forall j :: 0 <= j < |args| ==> IsGenericOf(impl, impl.source[j]) || impl.source[j] == args[j])
    && (forall j, k :: 0 <= j < k < |args| && IsGenericOf(impl, impl.source[j]) && impl.source[j] == impl.source[k] ==>
          args[j] == args[k])
  }

  /** The first position of `t` in `s`. */
  function FirstIndexOf(s: seq<Ty>, t: Ty): (r: Option<nat>)
    ensures r.None? <==> forall j :: 0 <= j < |s| ==> s[j] != t
    ensures r.Some? ==> r.value < |s| && s[r.value] == t && forall j :: 0 <= j < r.value ==> s[j] != t
    decreases |s|
  {
    if s == [] then None
    else if s[0] == t then Some(0)
    else
      match FirstIndexOf(s[1..], t)
      case None => None
      case Some(k) => Some(k + 1)
  }

  /** A type of the impl with its generics replaced by what they matched. */
  function Bind(impl: WithVariantImpl, args: seq<Ty>, t: Ty): Ty
    requires |args| == |impl.source|
  {
    if IsGenericOf(impl, t) then
      match FirstIndexOf(impl.source, t)
      case Some(k) => args[k]
      case None => t
    else t
  }

  /** The `With` arguments of `impl`, once matched against `args`. */
  function Instantiate(impl: WithVariantImpl, args: seq<Ty>): seq<Ty>
    requires |args| == |impl.source|
  {
    seq(|impl.target|, j requires 0 <= j < |impl.target| => Bind(impl, args, impl.target[j]))
  }

  /** The impls of `impls` that apply, in order. */
  function Candidates(impls: seq<WithVariantImpl>, e: string, v: Ty, args: seq<Ty>): (c: seq<WithVariantImpl>)
    ensures forall k :: 0 <= k < |c| ==> Applies(c[k], e, v, args)
    decreases |impls|
  {
    if impls == [] then []
    else (if Applies(impls[0], e, v, args) then [impls[0]] else []) + Candidates(impls[1..], e, v, args)
  }

  /** `<self as WithVariant<v>>::With`: defined when exactly one impl applies. */
  function Project(impls: seq<WithVariantImpl>, self: Ty, v: Ty): (r: Option<Ty>)
    ensures r.Some? <==> self.Enum? && |Candidates(impls, self.ident, v, self.args)| == 1
    ensures r.Some? ==> r.value.Enum? && r.value.ident == self.ident
  {
    match self
    case Enum(e, args) =>
      var c := Candidates(impls, e, v, args);
      if |c| == 1 then Some(Enum(e, Instantiate(c[0], args))) else None
    case _ => None
  }

  /** Resolves every projection in `t`, innermost first; `None` is a type error. */
  function Resolve(t: Ty, impls: seq<WithVariantImpl>): (r: Option<Ty>)
    ensures !t.WithProjection? ==> r == Some(t)
    ensures t.WithProjection? && r.Some? ==> r.value.Enum?
    decreases t
  {
    match t
    case WithProjection(b, v) =>
      (match Resolve(b, impls)
       case None => None
       case Some(rb) => Project(impls, rb, v))
    case _ => Some(t)
  }

  // ---------------------------------------------------------------------------
  // Tables the documentation allows
  // ---------------------------------------------------------------------------

  function Payloads(table: seq<ReplacedVariant>): (ps: seq<Ty>)
    ensures |ps| == |table| && forall j :: 0 <= j < |table| ==> ps[j] == table[j].ty
  {
    seq(|table|, j requires 0 <= j < |table| => table[j].ty)
  }

  /**
   * A table built by the generator from a declaration whose payload types are
   * pairwise distinct (documented, not checked) and mention no generic parameter.
   */
  predicate GoodTable(table: seq<ReplacedVariant>) {
    && IndexedFrom(table, 0)
    && (forall a, b :: 0 <= a < b < |table| ==> table[a].ty != table[b].ty)
    && (forall j :: 0 <= j < |table| ==> Closed(table[j].ty))
  }

  /** A list the notation accepts: pairwise distinct declared payload types, none of them `!`. */
  predicate GoodList(table: seq<ReplacedVariant>, ls: seq<Ty>) {
    && (forall a, b :: 0 <= a < b < |ls| ==> ls[a] != ls[b])
    && (forall k :: 0 <= k < |ls| ==> ls[k] in Payloads(table) && ls[k] != Never)
  }

  /** The instantiation naming exactly the listed payload types: each at its own position, `!` elsewhere. */
  function Filled(table: seq<ReplacedVariant>, ls: seq<Ty>): (args: seq<Ty>)
    ensures |args| == |table|
  {
    seq(|table|, j requires 0 <= j < |table| => if table[j].ty in ls then table[j].ty else Never)
  }

  // ---------------------------------------------------------------------------
  // The generated impls, one step at a time
  // ---------------------------------------------------------------------------

  lemma IdentInRange(i: nat, n: nat, j: nat)
    requires i < n && j < n && j != i
    ensures MakeGenericIdent(GenericPrefix, j) in MakeGenericIdents(GenericPrefix, 0, i) + MakeGenericIdents(GenericPrefix, i + 1, n)
  {
    var g := MakeGenericIdents(GenericPrefix, 0, i) + MakeGenericIdents(GenericPrefix, i + 1, n);
    if j < i {
      assert g[j] == MakeGenericIdent(GenericPrefix, j);
    } else {
      assert g[j - 1] == MakeGenericIdent(GenericPrefix, j);
    }
  }

  /** The parameter `T{j}`. */
  function GenParam(j: nat): Ty {
    Param(MakeGenericIdent(GenericPrefix, j))
  }

  /**
   * `impl` has the shape of generated impl `i` among `n`: `WithVariant<ty>` for
   * `e` with `!` at `i`, `ty` at `i` in the target, `T{j}` at every other
   * position of both, and each such `T{j}` among its generics.
   */
  predicate ShapedAt(impl: WithVariantImpl, e: string, i: nat, n: nat, ty: Ty) {
    && impl.enumIdent == e && impl.variant == ty
    && |impl.source| == n && |impl.target| == n && i < n
    && impl.source[i] == Never && impl.target[i] == ty
    && (forall j :: 0 <= j < n && j != i ==> impl.source[j] == GenParam(j) && impl.target[j] == GenParam(j))
    && (forall j :: 0 <= j < n && j != i ==> GenParam(j).ident in impl.generics)
  }

  lemma GeneratedShaped(e: string, table: seq<ReplacedVariant>, i: nat)
    requires IndexedFrom(table, 0) && i < |table|
    ensures ShapedAt(GenWithVariantTraitImpls(e, table)[i], e, i, |table|, table[i].ty)
  {
    WithVariantImplAt(e, table, i);
    forall j | 0 <= j < |table| && j != i
      ensures GenParam(j).ident in GenWithVariantTraitImpls(e, table)[i].generics
    {
      IdentInRange(i, |table|, j);
    }
  }

  lemma AppliesShaped(impl: WithVariantImpl, e: string, i: nat, n: nat, ty: Ty, e': string, v: Ty, args: seq<Ty>)
    requires ShapedAt(impl, e, i, n, ty)
    ensures Applies(impl, e', v, args) <==> e' == e && v == ty && |args| == n && args[i] == Never
  {
    if e' == e && v == ty && |args| == n && args[i] == Never {
      forall j | 0 <= j < n
        ensures IsGenericOf(impl, impl.source[j]) || impl.source[j] == args[j]
      {
      }
      forall j, k | 0 <= j < k < n && IsGenericOf(impl, impl.source[j])
        ensures impl.source[j] != impl.source[k]
      {
        if k != i {
          GenericIdentsDiffer(j, k);
        }
      }
    }
  }

  /** Impl `i` applies exactly to `e<args>` of length `n` with `!` at `i`, and only for `WithVariant<ty_i>`. */
  lemma AppliesGenerated(e: string, table: seq<ReplacedVariant>, i: nat, e': string, v: Ty, args: seq<Ty>)
    requires GoodTable(table) && i < |table|
    ensures Applies(GenWithVariantTraitImpls(e, table)[i], e', v, args)
            <==> e' == e && v == table[i].ty && |args| == |table| && args[i] == Never
  {
    GeneratedShaped(e, table, i);
    AppliesShaped(GenWithVariantTraitImpls(e, table)[i], e, i, |table|, table[i].ty, e', v, args);
  }

  lemma GenericIdentsDiffer(j: nat, k: nat)
    requires j != k
    ensures GenParam(j) != GenParam(k)
  {
    if MakeGenericIdent(GenericPrefix, j) == MakeGenericIdent(GenericPrefix, k) {
      GenericIdentInjective(GenericPrefix, j, k);
    }
  }

  lemma InstantiateShaped(impl: WithVariantImpl, e: string, i: nat, n: nat, ty: Ty, args: seq<Ty>)
    requires ShapedAt(impl, e, i, n, ty) && Closed(ty) && |args| == n && args[i] == Never
    ensures Instantiate(impl, args) == args[i := ty]
  {
    var inst := Instantiate(impl, args);
    forall j | 0 <= j < n
      ensures inst[j] == args[i := ty][j]
    {
      if j == i {
        assert !IsGenericOf(impl, impl.target[i]);
      } else {
        var t := GenParam(j);
        assert impl.target[j] == t && IsGenericOf(impl, t);
        var k := FirstIndexOf(impl.source, t).value;
        if k != i {
          assert impl.source[k] == GenParam(k);
          GenericIdentInjective(GenericPrefix, k, j);
        }
        assert k == j;
      }
    }
  }

  /** Impl `i`, applied to `args` with `!` at `i`, puts `ty_i` at `i` and keeps every other argument. */
  lemma InstantiateGenerated(e: string, table: seq<ReplacedVariant>, i: nat, args: seq<Ty>)
    requires GoodTable(table) && i < |table| && |args| == |table| && args[i] == Never
    ensures var impl := GenWithVariantTraitImpls(e, table)[i];
            |args| == |impl.source| && Instantiate(impl, args) == args[i := table[i].ty]
  {
    GeneratedShaped(e, table, i);
    InstantiateShaped(GenWithVariantTraitImpls(e, table)[i], e, i, |table|, table[i].ty, args);
  }

  /** Candidates when at most the element at `m` applies. */
  lemma {:induction false} CandidatesOfUnique(s: seq<WithVariantImpl>, e: string, v: Ty, args: seq<Ty>, m: int)
    requires forall j :: 0 <= j < |s| ==> (Applies(s[j], e, v, args) <==> j == m)
    ensures Candidates(s, e, v, args) == if 0 <= m < |s| then [s[m]] else []
    decreases |s|
  {
    if s != [] {
      CandidatesOfUnique(s[1..], e, v, args, m - 1);
    }
  }

  /**
   * One projection step: `<e<args> as WithVariant<v>>::With` resolves iff `v`
   * is the payload type of some position `i` and `args` holds `!` there; it
   * then puts `v` at `i` and leaves every other position as it was.
   */
  lemma ProjectGenerated(e: string, table: seq<ReplacedVariant>, args: seq<Ty>, v: Ty)
    requires GoodTable(table)
    ensures Project(GenWithVariantTraitImpls(e, table), Enum(e, args), v) ==
      match FirstIndexOf(Payloads(table), v)
      case None => None
      case Some(i) => if |args| == |table| && args[i] == Never then Some(Enum(e, args[i := v])) else None
  {
    var impls := GenWithVariantTraitImpls(e, table);
    var found := FirstIndexOf(Payloads(table), v);
    var m: int := if found.Some? && |args| == |table| && args[found.value] == Never then found.value else -1;
    forall j | 0 <= j < |impls|
      ensures Applies(impls[j], e, v, args) <==> j == m
    {
      AppliesGenerated(e, table, j, e, v, args);
      if table[j].ty == v {
        var i := found.value;
        if i != j {
          assert table[i].ty == v;
        }
      }
    }
    CandidatesOfUnique(impls, e, v, args, m);
    if m >= 0 {
      InstantiateGenerated(e, table, m, args);
    }
  }

  /** A projection whose trait argument is no payload type never resolves, whatever it is applied to. */
  lemma ProjectUnknown(e: string, table: seq<ReplacedVariant>, self: Ty, v: Ty)
    requires GoodTable(table) && v !in Payloads(table)
    ensures Project(GenWithVariantTraitImpls(e, table), self, v) == None
  {
    if self.Enum? {
      var impls := GenWithVariantTraitImpls(e, table);
      WithVariantImplsShape(e, table);
      forall j | 0 <= j < |impls|
        ensures !Applies(impls[j], self.ident, v, self.args)
      {
        assert impls[j].variant == Payloads(table)[j];
      }
      CandidatesOfUnique(impls, self.ident, v, self.args, -1);
    }
  }

  // ---------------------------------------------------------------------------
  // The whole fold
  // ---------------------------------------------------------------------------

  /** A failed resolution stays failed, whatever is folded on top of it. */
  lemma {:induction false} ResolveNoneStays(x: Ty, ts: seq<Ty>, impls: seq<WithVariantImpl>)
    requires Resolve(x, impls) == None
    ensures Resolve(Fold(x, ts), impls) == None
    decreases |ts|
  {
    if ts != [] {
      ResolveNoneStays(x, ts[..|ts| - 1], impls);
    }
  }

  /** One more listed type fills its own, still empty, position. */
  lemma FilledStep(table: seq<ReplacedVariant>, ls: seq<Ty>)
    requires GoodTable(table) && GoodList(table, ls) && ls != []
    ensures FirstIndexOf(Payloads(table), ls[|ls| - 1]).Some?
    ensures var init, v := ls[..|ls| - 1], ls[|ls| - 1];
      var i := FirstIndexOf(Payloads(table), v).value;
      Filled(table, init)[i] == Never && Filled(table, init)[i := v] == Filled(table, ls)
  {
    var init, v := ls[..|ls| - 1], ls[|ls| - 1];
    var i := FirstIndexOf(Payloads(table), v).value;
    forall a | 0 <= a < |init|
      ensures init[a] != v
    {
      assert ls[a] == init[a];
    }
    assert ls == init + [v];
    forall j | 0 <= j < |table| && j != i
      ensures table[j].ty in init <==> table[j].ty in ls
    {
      assert table[j].ty != v;
    }
  }

  /**
   * Resolving the notation's fold over a good list gives the instantiation
   * with exactly the listed payload types at their positions and `!`
   * elsewhere.
   */
  lemma {:induction false} ResolveListed(e: string, table: seq<ReplacedVariant>, ls: seq<Ty>)
    requires GoodTable(table) && GoodList(table, ls)
    ensures Resolve(Fold(GenPowersetMacro(e, table).emptyPowerset, ls), GenWithVariantTraitImpls(e, table))
            == Some(Enum(e, Filled(table, ls)))
    decreases |ls|
  {
    var start := GenPowersetMacro(e, table).emptyPowerset;
    if ls == [] {
      assert start.args == Filled(table, ls);
    } else {
      var init, v := ls[..|ls| - 1], ls[|ls| - 1];
      GoodListInit(table, ls);
      ResolveListed(e, table, init);
      FilledStep(table, ls);
      var i := FirstIndexOf(Payloads(table), v).value;
      ProjectFills(e, table, Filled(table, init), v, i);
    }
  }

  lemma GoodListInit(table: seq<ReplacedVariant>, ls: seq<Ty>)
    requires GoodList(table, ls) && ls != []
    ensures GoodList(table, ls[..|ls| - 1])
  {
  }

  /** The step of `ProjectGenerated` that succeeds. */
  lemma ProjectFills(e: string, table: seq<ReplacedVariant>, args: seq<Ty>, v: Ty, i: nat)
    requires GoodTable(table) && FirstIndexOf(Payloads(table), v) == Some(i)
    requires |args| == |table| && args[i] == Never
    ensures Project(GenWithVariantTraitImpls(e, table), Enum(e, args), v) == Some(Enum(e, args[i := v]))
  {
    ProjectGenerated(e, table, args, v);
  }

  /**
   * Order does not matter: two good lists naming the same types resolve to the
   * same instantiation.
   */
  lemma ResolutionOrderIndependent(e: string, table: seq<ReplacedVariant>, ls1: seq<Ty>, ls2: seq<Ty>)
    requires GoodTable(table) && GoodList(table, ls1) && GoodList(table, ls2)
    requires forall t :: t in ls1 <==> t in ls2
    ensures Resolve(Fold(GenPowersetMacro(e, table).emptyPowerset, ls1), GenWithVariantTraitImpls(e, table))
            == Resolve(Fold(GenPowersetMacro(e, table).emptyPowerset, ls2), GenWithVariantTraitImpls(e, table))
  {
    ResolveListed(e, table, ls1);
    ResolveListed(e, table, ls2);
    assert Filled(table, ls1) == Filled(table, ls2);
  }

  /** A fold whose step `k` fails to resolve fails as a whole. */
  lemma FailsFromStep(start: Ty, ls: seq<Ty>, k: nat, impls: seq<WithVariantImpl>)
    requires k < |ls|
    requires Resolve(Fold(start, ls[..k]), impls).None? || Project(impls, Resolve(Fold(start, ls[..k]), impls).value, ls[k]).None?
    ensures Resolve(Fold(start, ls), impls) == None
  {
    var upTo, rest := ls[..k + 1], ls[k + 1..];
    assert upTo[..k] == ls[..k];
    assert Resolve(Fold(start, upTo), impls) == None;
    assert ls == upTo + rest;
    FoldAppend(start, upTo, rest);
    ResolveNoneStays(Fold(start, upTo), rest, impls);
  }

  /** A listed type that is no declared payload type makes resolution fail, from any starting type. */
  lemma ResolutionRejectsUnknown(e: string, table: seq<ReplacedVariant>, start: Ty, ls: seq<Ty>, k: nat)
    requires GoodTable(table) && k < |ls| && ls[k] !in Payloads(table)
    ensures Resolve(Fold(start, ls), GenWithVariantTraitImpls(e, table)) == None
  {
    var impls := GenWithVariantTraitImpls(e, table);
    var prev := Resolve(Fold(start, ls[..k]), impls);
    if prev.Some? {
      ProjectUnknown(e, table, prev.value, ls[k]);
    }
    FailsFromStep(start, ls, k, impls);
  }

  /**
   * Once a payload type has been listed, its position holds that type in
   * every later successful step.
   */
  lemma {:induction false} ResolvedKeepsListed(e: string, table: seq<ReplacedVariant>, args0: seq<Ty>, ls: seq<Ty>)
    requires GoodTable(table) && |args0| == |table|
    requires Resolve(Fold(Enum(e, args0), ls), GenWithVariantTraitImpls(e, table)).Some?
    ensures var x := Resolve(Fold(Enum(e, args0), ls), GenWithVariantTraitImpls(e, table)).value;
      && x.Enum? && x.ident == e && |x.args| == |table|
      && forall k, i :: 0 <= k < |ls| && 0 <= i < |table| && table[i].ty == ls[k] ==> x.args[i] == ls[k]
    decreases |ls|
  {
    if ls != [] {
      var impls := GenWithVariantTraitImpls(e, table);
      var init, v := ls[..|ls| - 1], ls[|ls| - 1];
      var x' := Resolve(Fold(Enum(e, args0), init), impls).value;
      ResolvedKeepsListed(e, table, args0, init);
      ProjectGenerated(e, table, x'.args, v);
      var x := Resolve(Fold(Enum(e, args0), ls), impls).value;
      var p := FirstIndexOf(Payloads(table), v).value;
      assert x.args == x'.args[p := v];
      forall k, i | 0 <= k < |ls| && 0 <= i < |table| && table[i].ty == ls[k]
        ensures x.args[i] == ls[k]
      {
        if k < |ls| - 1 {
          assert init[k] == ls[k];
        }
      }
    }
  }

  /** After a successful fold that listed `v`, adding `v` again has no impl. */
  lemma RepeatedStepFails(e: string, table: seq<ReplacedVariant>, args0: seq<Ty>, pre: seq<Ty>, a: nat, x: Ty)
    requires GoodTable(table) && |args0| == |table|
    requires a < |pre| && pre[a] in Payloads(table) && pre[a] != Never
    requires Resolve(Fold(Enum(e, args0), pre), GenWithVariantTraitImpls(e, table)) == Some(x)
    ensures Project(GenWithVariantTraitImpls(e, table), x, pre[a]) == None
  {
    var v := pre[a];
    ResolvedKeepsListed(e, table, args0, pre);
    var p := FirstIndexOf(Payloads(table), v).value;
    assert x.args[p] == v;
    ProjectGenerated(e, table, x.args, v);
  }

  /** Listing a payload type twice makes resolution fail: there is no impl for a position already filled. */
  lemma ResolutionRejectsRepeated(e: string, table: seq<ReplacedVariant>, ls: seq<Ty>, a: nat, b: nat)
    requires GoodTable(table) && a < b < |ls| && ls[a] == ls[b] && ls[b] != Never
    ensures Resolve(Fold(GenPowersetMacro(e, table).emptyPowerset, ls), GenWithVariantTraitImpls(e, table)) == None
  {
    var start := GenPowersetMacro(e, table).emptyPowerset;
    var impls := GenWithVariantTraitImpls(e, table);
    if ls[b] !in Payloads(table) {
      ResolutionRejectsUnknown(e, table, start, ls, b);
    } else {
      var prev := Resolve(Fold(start, ls[..b]), impls);
      if prev.Some? {
        assert ls[..b][a] == ls[b];
        RepeatedStepFails(e, table, start.args, ls[..b], a, prev.value);
      }
      FailsFromStep(start, ls, b, impls);
    }
  }

  // ---------------------------------------------------------------------------
  // From the notation to the instantiation
  // ---------------------------------------------------------------------------

  /**
   * `E![t0, ..., tk]` expands to a `powerset!` call whose input parses to the
   * empty instantiation and the list.
   */
  lemma NotationParses(m: NotationMacro, ts: seq<Ty>)
    requires forall k :: 0 <= k < |ts| ==> IsListItem(ts[k])
    ensures ExpandNotation(m, Separated(ts)) == Some(PowersetInvocation(m, ts))
    ensures ParsePowersetMacroInput(PowersetInvocation(m, ts)) == Some(PowersetMacroInput(m.emptyPowerset, true, ts, false))
  {
    NotationArmsAgree(m, ts);
    var x := PowersetMacroInput(m.emptyPowerset, true, ts, false);
    InvocationPrinted(m, ts);
    assert WellFormedInput(x);
    ParsePrinted(x);
  }

  /** The `powerset!` call the notation expands to is the printed form of its input. */
  lemma InvocationPrinted(m: NotationMacro, ts: seq<Ty>)
    ensures PrintPowersetMacroInput(PowersetMacroInput(m.emptyPowerset, true, ts, false)) == PowersetInvocation(m, ts)
  {
    var sep := Separated(ts);
    calc {
      PrintPowersetMacroInput(PowersetMacroInput(m.emptyPowerset, true, ts, false));
      [TypeTok(m.emptyPowerset)] + [CommaTok] + sep + [];
      { assert [TypeTok(m.emptyPowerset)] + [CommaTok] == [TypeTok(m.emptyPowerset), CommaTok]; }
      [TypeTok(m.emptyPowerset), CommaTok] + sep + [];
      { assert [TypeTok(m.emptyPowerset), CommaTok] + sep + [] == [TypeTok(m.emptyPowerset), CommaTok] + sep; }
      PowersetInvocation(m, ts);
    }
  }

  /**
   * `E![t0, ..., tk]` denotes the instantiation of `E` naming exactly the
   * listed types: the expansion parses, and its fold resolves to it.
   */
  lemma NotationResolves(e: string, table: seq<ReplacedVariant>, ts: seq<Ty>)
    requires GoodTable(table) && GoodList(table, ts)
    requires forall k :: 0 <= k < |ts| ==> IsListItem(ts[k])
    ensures var m := GenPowersetMacro(e, table);
      && ExpandNotation(m, Separated(ts)) == Some(PowersetInvocation(m, ts))
      && ParsePowersetMacroInput(PowersetInvocation(m, ts)) == Some(PowersetMacroInput(m.emptyPowerset, true, ts, false))
      && Resolve(Fold(m.emptyPowerset, ts), GenWithVariantTraitImpls(e, table)) == Some(Enum(e, Filled(table, ts)))
  {
    NotationParses(GenPowersetMacro(e, table), ts);
    ResolveListed(e, table, ts);
  }

  // ---------------------------------------------------------------------------
  // The attribute's own table
  // ---------------------------------------------------------------------------

  /** A supported declaration with distinct, parameter-free payload types yields a good table. */
  lemma TableOfGood(variants: seq<Variant>)
    requires AllSupported(variants)
    requires forall a, b :: 0 <= a < b < |variants| ==> variants[a].fields != variants[b].fields
    requires forall k :: 0 <= k < |variants| ==> variants[k].fields.FieldsUnnamed? && Closed(variants[k].fields.unnamed[0])
    ensures GoodTable(TableOf(variants))
  {
    TableOfRows(variants);
  }

  /**
   * The name `Exception{k}` of the test suite. It is spelled with the same
   * numerals as generated parameter names, so that distinct `k` give distinct
   * names by `GenericIdentInjective` instead of by comparing string literals
   * character by character.
   */
  function TestName(k: nat): (name: string)
    ensures IsIdent(name)
  {
    var name := MakeGenericIdent("Exception", k);
    assert name[..9] == "Exception";
    assert forall j :: 0 <= j < 9 ==> name[j] == "Exception"[j];
    name
  }

  /** The unit struct `Exception{k}` of the test suite. */
  function ExceptionType(k: nat): Ty {
    Named(TestName(k))
  }

  lemma ExceptionTypesDistinct(a: nat, b: nat)
    requires a != b
    ensures ExceptionType(a) != ExceptionType(b)
  {
    if TestName(a) == TestName(b) {
      GenericIdentInjective("Exception", a, b);
    }
  }

  /** The four-variant `Error` enum of the test suite: variant `Exception{k}` holds the unit struct `Exception{k}`. */
  function TestsError(): (input: ItemEnum)
    ensures |input.variants| == 4 && input.generics == []
  {
    ItemEnum(["derive(Debug, PartialEq)"], "Error", [],
      seq(4, k requires 0 <= k < 4 => Variant(TestName(k + 1), FieldsUnnamed([ExceptionType(k + 1)]), None)))
  }

  lemma TestsErrorSupported()
    ensures AllSupported(TestsError().variants)
  {
    var vs := TestsError().variants;
    forall k | 0 <= k < |vs| ensures VariantError(vs[k], k).None? {
      assert vs[k].discriminant.None? && vs[k].fields.FieldsUnnamed? && |vs[k].fields.unnamed| == 1;
    }
  }

  /** The table of the test suite's `Error`: row `k` holds `Exception{k+1}`. */
  lemma TestsErrorTable()
    ensures AllSupported(TestsError().variants)
    ensures var table := TableOf(TestsError().variants);
      && GoodTable(table)
      && Payloads(table) == [ExceptionType(1), ExceptionType(2), ExceptionType(3), ExceptionType(4)]
  {
    TestsErrorSupported();
    var table := TableOf(TestsError().variants);
    forall k | 0 <= k < 4
      ensures table[k].idx == k && table[k].ty == ExceptionType(k + 1)
    {
    }
    forall a, b | 0 <= a < b < 4
      ensures table[a].ty != table[b].ty
    {
      ExceptionTypesDistinct(a + 1, b + 1);
    }
  }

  lemma TestsListGood(table: seq<ReplacedVariant>)
    requires Payloads(table) == [ExceptionType(1), ExceptionType(2), ExceptionType(3), ExceptionType(4)]
    ensures GoodList(table, [ExceptionType(1), ExceptionType(4), ExceptionType(3)])
  {
    var ls := [ExceptionType(1), ExceptionType(4), ExceptionType(3)];
    ExceptionTypesDistinct(1, 4);
    ExceptionTypesDistinct(1, 3);
    ExceptionTypesDistinct(4, 3);
    assert ls[0] == Payloads(table)[0] && ls[1] == Payloads(table)[3] && ls[2] == Payloads(table)[2];
  }

  lemma TestsFilled(table: seq<ReplacedVariant>)
    requires Payloads(table) == [ExceptionType(1), ExceptionType(2), ExceptionType(3), ExceptionType(4)]
    ensures Filled(table, [ExceptionType(1), ExceptionType(4), ExceptionType(3)])
            == [ExceptionType(1), Never, ExceptionType(3), ExceptionType(4)]
  {
    var ls := [ExceptionType(1), ExceptionType(4), ExceptionType(3)];
    ExceptionTypesDistinct(2, 1);
    ExceptionTypesDistinct(2, 4);
    ExceptionTypesDistinct(2, 3);
    assert table[0].ty == ls[0] && table[2].ty == ls[2] && table[3].ty == ls[1];
    assert table[1].ty !in ls;
  }

  /** `Error![Exception1, Exception4, Exception3]` resolves to `Error<Exception1, !, Exception3, Exception4>`. */
  lemma TestsErrorNotation()
    ensures AllSupported(TestsError().variants)
    ensures var table := TableOf(TestsError().variants);
      Resolve(Fold(GenPowersetMacro("Error", table).emptyPowerset, [ExceptionType(1), ExceptionType(4), ExceptionType(3)]),
              GenWithVariantTraitImpls("Error", table))
      == Some(Enum("Error", [ExceptionType(1), Never, ExceptionType(3), ExceptionType(4)]))
  {
    TestsErrorTable();
    var table := TableOf(TestsError().variants);
    TestsListGood(table);
    ResolveListed("Error", table, [ExceptionType(1), ExceptionType(4), ExceptionType(3)]);
    TestsFilled(table);
  }

  /** `Error![Exception1, Exception4, Exception3]` matches the notation's first arm, and its expansion parses. */
  lemma TestsErrorNotationParses()
    ensures var m := GenPowersetMacro("Error", TableOf(TestsError().variants));
      var ls := [ExceptionType(1), ExceptionType(4), ExceptionType(3)];
      && ExpandNotation(m, Separated(ls)) == Some(PowersetInvocation(m, ls))
      && ParsePowersetMacroInput(PowersetInvocation(m, ls)) == Some(PowersetMacroInput(m.emptyPowerset, true, ls, false))
  {
    var ls := [ExceptionType(1), ExceptionType(4), ExceptionType(3)];
    forall k | 0 <= k < |ls|
      ensures IsListItem(ls[k])
    {
    }
    NotationParses(GenPowersetMacro("Error", TableOf(TestsError().variants)), ls);
  }
}
