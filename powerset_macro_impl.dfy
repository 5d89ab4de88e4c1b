/**
 * The `powerset!` macro: it reads a starting instantiation and a list of
 * types, and left-folds `<prev as powerset_enum::WithVariant<ty>>::With`
 * over the list.
 */
module PowersetMacroImpl {
  import opened Wrappers
  import opened Syntax

  /** The parsed input: the starting type, whether a comma followed it, the listed types, whether the list ended in a comma. */
  datatype PowersetMacroInput = PowersetMacroInput(emptyPowerset: Ty, comma: bool, typesInPowerset: seq<Ty>, trailingComma: bool)

  // ---------------------------------------------------------------------------
  // Parsing
  // ---------------------------------------------------------------------------

  /**
   * The listed items are parsed as generic parameters, so only a type that is
   * a bare identifier is accepted: a path such as `io::Error` or a generic
   * type such as `Vec<u8>` is not.
   */
  predicate IsListItem(t: Ty) {
    || (t.Named? && IsIdent(t.name))
    || (t.Param? && IsIdent(t.ident))
  }

  function ParseListItem(tok: Token): (r: Option<Ty>)
    ensures r.Some? <==> tok.TypeTok? && IsListItem(tok.ty)
    ensures r.Some? ==> r.value == tok.ty
  {
    if tok.TypeTok? && IsListItem(tok.ty) then Some(tok.ty) else None
  }

  /** A path such as `io::Error` or a generic type such as `Vec<u8>` cannot be listed. */
  lemma PathItemRejected()
    ensures ParseListItem(TypeTok(Named("io::Error"))) == None
    ensures ParseListItem(TypeTok(Named("Vec<u8>"))) == None
  {
    assert !IsIdentChar("io::Error"[2]);
    assert !IsIdentChar("Vec<u8>"[3]);
  }

  /**
   * A comma-terminated list: items separated by commas, a trailing comma
   * allowed, possibly empty; the flag says whether a trailing comma was read.
   */
  function ParseTerminated(toks: seq<Token>): (r: Option<(seq<Ty>, bool)>)
    ensures r.Some? ==> forall k :: 0 <= k < |r.value.0| ==> IsListItem(r.value.0[k])
    ensures r.Some? ==> (r.value.0 == [] <==> toks == [])
    ensures r.Some? && r.value.1 ==> r.value.0 != []
    decreases |toks|
  {
    if toks == [] then Some(([], false))
    else
      match ParseListItem(toks[0])
      case None => None
      case Some(t) =>
        if |toks| == 1 then Some(([t], false))
        else if toks[1] != CommaTok then None
        else
          match ParseTerminated(toks[2..])
          case None => None
          case Some((ts, trailing)) => Some(([t] + ts, ts == [] || trailing))
  }

  /** A leading type, then an optional comma, then a comma-terminated list. */
  function ParsePowersetMacroInput(toks: seq<Token>): (r: Option<PowersetMacroInput>)
    ensures toks == [] || !toks[0].TypeTok? ==> r.None?
    ensures r.Some? ==> toks[0] == TypeTok(r.value.emptyPowerset)
    ensures r.Some? ==> (r.value.comma <==> |toks| > 1 && toks[1] == CommaTok)
    ensures r.Some? ==> WellFormedInput(r.value)
  {
    if toks == [] || !toks[0].TypeTok? then None
    else
      var comma := |toks| > 1 && toks[1] == CommaTok;
      var rest := if comma then toks[2..] else toks[1..];
      match ParseTerminated(rest)
      case None => None
      case Some((ts, trailing)) => Some(PowersetMacroInput(toks[0].ty, comma, ts, trailing))
  }

  /** The tokens an input is written with. */
  function PrintPowersetMacroInput(x: PowersetMacroInput): seq<Token> {
    [TypeTok(x.emptyPowerset)] + (if x.comma then [CommaTok] else [])
    + Separated(x.typesInPowerset) + (if x.trailingComma then [CommaTok] else [])
  }

  /** Inputs the parser can produce: identifier items, and a trailing comma only after an item. */
  predicate WellFormedInput(x: PowersetMacroInput) {
    && (forall k :: 0 <= k < |x.typesInPowerset| ==> IsListItem(x.typesInPowerset[k]))
    && (x.trailingComma ==> x.typesInPowerset != [])
  }

  lemma {:induction false} ParseTerminatedOfPrinted(ts: seq<Ty>, trailing: bool)
    requires forall k :: 0 <= k < |ts| ==> IsListItem(ts[k])
    requires trailing ==> ts != []
    ensures ParseTerminated(Separated(ts) + (if trailing then [CommaTok] else [])) == Some((ts, trailing))
    decreases |ts|
  {
    if |ts| == 1 {
      assert Separated(ts) == [TypeTok(ts[0])];
      assert [ts[0]] == ts;
      ParseTerminatedSingle(ts[0], trailing);
    } else if |ts| > 1 {
      ParseTerminatedOfPrinted(ts[1..], trailing);
      ParseTerminatedStep(ts, trailing);
    }
  }

  lemma ParseTerminatedSingle(t: Ty, trailing: bool)
    requires IsListItem(t)
    ensures ParseTerminated([TypeTok(t)] + (if trailing then [CommaTok] else [])) == Some(([t], trailing))
  {
    var toks := [TypeTok(t)] + (if trailing then [CommaTok] else []);
    assert ParseListItem(toks[0]) == Some(t);
    if trailing {
      assert toks[2..] == [];
      assert [t] + [] == [t];
    }
  }

  lemma ParseTerminatedStep(ts: seq<Ty>, trailing: bool)
    requires |ts| > 1 && IsListItem(ts[0])
    requires ParseTerminated(Separated(ts[1..]) + (if trailing then [CommaTok] else [])) == Some((ts[1..], trailing))
    ensures ParseTerminated(Separated(ts) + (if trailing then [CommaTok] else [])) == Some((ts, trailing))
  {
    var rest := Separated(ts[1..]) + (if trailing then [CommaTok] else []);
    var toks := Separated(ts) + (if trailing then [CommaTok] else []);
    assert Separated(ts) == [TypeTok(ts[0]), CommaTok] + Separated(ts[1..]);
    assert toks == [TypeTok(ts[0]), CommaTok] + rest;
    assert toks[2..] == rest;
    assert ParseListItem(toks[0]) == Some(ts[0]) && toks[1] == CommaTok && |toks| > 1;
    assert ts[1..] != [];
    assert [ts[0]] + ts[1..] == ts;
  }

  lemma {:induction false} PrintedOfParseTerminated(toks: seq<Token>, ts: seq<Ty>, trailing: bool)
    requires ParseTerminated(toks) == Some((ts, trailing))
    ensures toks == Separated(ts) + (if trailing then [CommaTok] else [])
    ensures forall k :: 0 <= k < |ts| ==> IsListItem(ts[k])
    ensures trailing ==> ts != []
    decreases |toks|
  {
    if |toks| > 1 {
      var (rest, tr) := ParseTerminated(toks[2..]).value;
      PrintedOfParseTerminated(toks[2..], rest, tr);
      assert ts == [toks[0].ty] + rest;
      if rest == [] {
        assert toks == [toks[0], toks[1]];
      } else {
        assert ts[1..] == rest;
        assert Separated(ts) == [TypeTok(ts[0]), CommaTok] + Separated(rest);
        assert toks == [toks[0], toks[1]] + toks[2..];
      }
    } else if |toks| == 1 {
      assert ts == [toks[0].ty];
    }
  }

  /** The parser accepts exactly the printed well-formed inputs (one direction). */
  lemma ParsePrinted(x: PowersetMacroInput)
    requires WellFormedInput(x)
    ensures ParsePowersetMacroInput(PrintPowersetMacroInput(x)) == Some(x)
  {
    var tail := Separated(x.typesInPowerset) + (if x.trailingComma then [CommaTok] else []);
    var toks := PrintPowersetMacroInput(x);
    ParseTerminatedOfPrinted(x.typesInPowerset, x.trailingComma);
    if x.comma {
      assert toks == [TypeTok(x.emptyPowerset), CommaTok] + tail;
      assert toks[2..] == tail;
    } else {
      assert toks == [TypeTok(x.emptyPowerset)] + tail;
      assert toks[1..] == tail;
      if tail != [] {
        assert tail[0].TypeTok?;
      }
    }
  }

  /** The parser accepts exactly the printed well-formed inputs (the other direction). */
  lemma PrintedParse(toks: seq<Token>, x: PowersetMacroInput)
    requires ParsePowersetMacroInput(toks) == Some(x)
    ensures WellFormedInput(x) && PrintPowersetMacroInput(x) == toks
  {
    var lead := if x.comma then toks[..2] else toks[..1];
    var rest := if x.comma then toks[2..] else toks[1..];
    PrintedOfParseTerminated(rest, x.typesInPowerset, x.trailingComma);
    assert lead == [TypeTok(x.emptyPowerset)] + (if x.comma then [CommaTok] else []);
    PrintedSplit(toks, lead, rest, x);
  }

  lemma PrintedSplit(toks: seq<Token>, lead: seq<Token>, rest: seq<Token>, x: PowersetMacroInput)
    requires toks == lead + rest
    requires lead == [TypeTok(x.emptyPowerset)] + (if x.comma then [CommaTok] else [])
    requires rest == Separated(x.typesInPowerset) + (if x.trailingComma then [CommaTok] else [])
    ensures PrintPowersetMacroInput(x) == toks
  {
  }

  // ---------------------------------------------------------------------------
  // The fold
  // ---------------------------------------------------------------------------

  /** How many projections are nested around the innermost type. */
  function Depth(t: Ty): nat {
    if t.WithProjection? then 1 + Depth(t.base) else 0
  }

  /** `ts` folded left over `start`: `k` nested projections, innermost `start`, outermost the last type. */
  function Fold(start: Ty, ts: seq<Ty>): (r: Ty)
    ensures Depth(r) == Depth(start) + |ts|
    decreases |ts|
  {
    if ts == [] then start else WithProjection(Fold(start, ts[..|ts| - 1]), ts[|ts| - 1])
  }

  /** Peels `k` projections off `t`: the innermost type and the listed types, innermost first. */
  function Unfold(t: Ty, k: nat): Option<(Ty, seq<Ty>)>
    decreases k
  {
    if k == 0 then Some((t, []))
    else
      match t
      case WithProjection(b, v) =>
        (match Unfold(b, k - 1)
         case None => None
         case Some((s, vs)) => Some((s, vs + [v])))
      case _ => None
  }

  /** Unfolding a fold gives back its start and its list. */
  lemma {:induction false} UnfoldFold(start: Ty, ts: seq<Ty>)
    ensures Unfold(Fold(start, ts), |ts|) == Some((start, ts))
    decreases |ts|
  {
    if ts != [] {
      var init, last := ts[..|ts| - 1], ts[|ts| - 1];
      UnfoldFold(start, init);
      var f := Fold(start, init);
      assert Fold(start, ts) == WithProjection(f, last);
      assert Unfold(WithProjection(f, last), |ts|) == Some((start, init + [last]));
      assert init + [last] == ts;
    }
  }

  /** Whatever unfolds was built by the fold. */
  lemma {:induction false} FoldUnfold(t: Ty, k: nat, start: Ty, ts: seq<Ty>)
    requires Unfold(t, k) == Some((start, ts))
    ensures |ts| == k && Fold(start, ts) == t
    decreases k
  {
    if k > 0 {
      var (s, vs) := Unfold(t.base, k - 1).value;
      FoldUnfold(t.base, k - 1, s, vs);
      assert ts == vs + [t.variant];
      assert ts[..|ts| - 1] == vs;
    }
  }

  /** Folding `a + b` is folding `b` over the fold of `a`. */
  lemma {:induction false} FoldAppend(start: Ty, a: seq<Ty>, b: seq<Ty>)
    ensures Fold(start, a + b) == Fold(Fold(start, a), b)
    decreases |b|
  {
    if b == [] {
      assert a + b == a;
    } else {
      var b' := b[..|b| - 1];
      FoldAppend(start, a, b');
      assert (a + b)[..|a + b| - 1] == a + b';
    }
  }

  /** `powerset_macro_impl`: reassign the result once per listed type. It never fails. */
  method PowersetMacroImplementation(input: PowersetMacroInput) returns (r: Result<Ty, Error>)
    ensures r == Ok(Fold(input.emptyPowerset, input.typesInPowerset))
  {
    var result := input.emptyPowerset;
    var types := input.typesInPowerset;
    for i := 0 to |types|
      invariant result == Fold(input.emptyPowerset, types[..i])
    {
      assert types[..i + 1][..i] == types[..i];
      result := WithProjection(result, types[i]);
    }
    assert types[..|types|] == types;
    r := Ok(result);
  }
}
