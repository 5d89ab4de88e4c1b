/**
 * The abstract syntax the generator reads and writes: types, enum
 * declarations, diagnostics and the token lists macros see. Parsing and
 * printing of real Rust tokens is not modelled; a whole type is one token.
 */
module Syntax {
  import opened Wrappers

  predicate IsDigit(c: char) {
    '0' <= c <= '9'
  }

  /** A character that may appear in a Rust identifier (ASCII only). */
  predicate IsIdentChar(c: char) {
    IsDigit(c) || 'a' <= c <= 'z' || 'A' <= c <= 'Z' || c == '_'
  }

  /** A bare identifier: identifier characters only, not starting with a digit, and not `_` alone. */
  predicate IsIdent(s: string) {
    && |s| > 0 && !IsDigit(s[0]) && s != "_"
    && forall k :: 0 <= k < |s| ==> IsIdentChar(s[k])
  }

  /** A type expression. */
  datatype Ty =
    | Never                                  // `!`, the uninhabited placeholder
    | Param(ident: string)                   // a path naming a generic parameter, such as `T3`
    | Named(name: string)                    // any other concrete type, kept opaque; only one named by a bare identifier can be listed (`ParseListItem`)
    | Enum(ident: string, args: seq<Ty>)     // `E<A0, ..., An-1>`
    | WithProjection(base: Ty, variant: Ty)  // `<base as powerset_enum::WithVariant<variant>>::With`

  /** A type that mentions no generic parameter anywhere. */
  predicate Closed(t: Ty)
    decreases t
  {
    match t
    case Never => true
    case Param(_) => false
    case Named(_) => true
    case Enum(_, args) => forall a :: a in args ==> Closed(a)
    case WithProjection(b, v) => Closed(b) && Closed(v)
  }

  /** One entry of a generics clause `<...>`. */
  datatype GenericParam =
    | TypeParam(ident: string)
    | LifetimeParam(name: string)
    | ConstParam(name: string, ty: Ty)

  /** The fields of an enum variant: `{ a: A }`, `(A, B)` or nothing. */
  datatype Fields =
    | FieldsNamed(named: seq<(string, Ty)>)
    | FieldsUnnamed(unnamed: seq<Ty>)
    | FieldsUnit

  /** A variant `Ident(fields) = discriminant`; the discriminant expression is opaque. */
  datatype Variant = Variant(ident: string, fields: Fields, discriminant: Option<string>)

  /** An `enum` item: its attributes (passed through untouched), name, generics and variants. */
  datatype ItemEnum = ItemEnum(attrs: seq<string>, ident: string, generics: seq<GenericParam>, variants: seq<Variant>)

  /** What a diagnostic points at. */
  datatype Span = GenericsSpan | VariantSpan(index: nat)

  /** A compile-time diagnostic (`syn::Error`), reported at `span`. */
  datatype Error = Error(span: Span, message: string)

  /** A token of a macro's input. */
  datatype Token = TypeTok(ty: Ty) | CommaTok

  /** `t0, t1, ..., tk` with no trailing comma. */
  function Separated(ts: seq<Ty>): (toks: seq<Token>)
    ensures |toks| == if ts == [] then 0 else 2 * |ts| - 1
    decreases |ts|
  {
    if ts == [] then []
    else if |ts| == 1 then [TypeTok(ts[0])]
    else [TypeTok(ts[0]), CommaTok] + Separated(ts[1..])
  }

  /**
   * The matcher `$($tt:ty),*`: a possibly empty list of types separated
   * by commas, with no trailing comma.
   */
  function SplitSeparated(toks: seq<Token>): (r: Option<seq<Ty>>)
    ensures r.Some? ==> (r.value == [] <==> toks == [])
    decreases |toks|
  {
    if toks == [] then Some([])
    else if !toks[0].TypeTok? then None
    else if |toks| == 1 then Some([toks[0].ty])
    else if toks[1] != CommaTok || |toks| == 2 then None
    else
      match SplitSeparated(toks[2..])
      case None => None
      case Some(rest) => Some([toks[0].ty] + rest)
  }

  /** Matching a printed list gives back that list. */
  lemma {:induction false} SplitSeparatedOfSeparated(ts: seq<Ty>)
    ensures SplitSeparated(Separated(ts)) == Some(ts)
    decreases |ts|
  {
    if |ts| > 1 {
      SplitSeparatedOfSeparated(ts[1..]);
      var toks := Separated(ts);
      assert toks == [TypeTok(ts[0]), CommaTok] + Separated(ts[1..]);
      assert toks[2..] == Separated(ts[1..]);
      assert |toks| > 2 && toks[0] == TypeTok(ts[0]) && toks[1] == CommaTok;
      assert SplitSeparated(toks) == Some([ts[0]] + ts[1..]);
      assert [ts[0]] + ts[1..] == ts;
    } else if |ts| == 1 {
      assert [ts[0]] == ts;
    }
  }

  /** Whatever the matcher accepts is exactly the printed form of what it returns. */
  lemma {:induction false} SeparatedOfSplitSeparated(toks: seq<Token>, ts: seq<Ty>)
    requires SplitSeparated(toks) == Some(ts)
    ensures Separated(ts) == toks
    decreases |toks|
  {
    if |toks| > 1 {
      var rest := SplitSeparated(toks[2..]).value;
      SeparatedOfSplitSeparated(toks[2..], rest);
      assert ts == [toks[0].ty] + rest;
      assert ts[1..] == rest;
      assert toks == [toks[0], toks[1]] + toks[2..];
    }
  }
}
