/**
 * Fresh generic parameters: `make_generic_ident`, `make_generic_idents`,
 * `make_generic_type`, `make_generic_types` and `make_never`.
 */
module GenericNames {
  import opened Syntax

  predicate NoDigits(s: string) {
    forall k :: 0 <= k < |s| ==> !IsDigit(s[k])
  }

  function DigitChar(d: nat): (c: char)
    requires d < 10
    ensures IsDigit(c) && c as int - '0' as int == d
  {
    ('0' as int + d) as char
  }

  /** The decimal numeral of `n`, as `format!("{}", n)` writes it: no sign, no leading zero. */
  function Decimal(n: nat): (s: string)
    ensures 1 <= |s|
    ensures forall k :: 0 <= k < |s| ==> IsDigit(s[k])
    ensures |s| == 1 <==> n < 10
    ensures s[0] == '0' <==> n == 0
  {
    if n < 10 then [DigitChar(n)] else Decimal(n / 10) + [DigitChar(n % 10)]
  }

  /** Distinct numbers have distinct numerals. */
  lemma {:induction false} DecimalInjective(a: nat, b: nat)
    requires Decimal(a) == Decimal(b)
    ensures a == b
  {
    var sa, sb := Decimal(a), Decimal(b);
    if a < 10 {
      assert sa[0] == DigitChar(a) && sb[0] == DigitChar(b);
    } else {
      assert b >= 10;
      assert sa == Decimal(a / 10) + [DigitChar(a % 10)];
      assert sb == Decimal(b / 10) + [DigitChar(b % 10)];
      assert sa[..|sa| - 1] == Decimal(a / 10);
      assert sb[..|sb| - 1] == Decimal(b / 10);
      DecimalInjective(a / 10, b / 10);
      assert sa[|sa| - 1] == DigitChar(a % 10) && sb[|sb| - 1] == DigitChar(b % 10);
    }
  }

  /** `make_generic_ident(prefix, idx)`: the identifier `{prefix}{idx}`. */
  function MakeGenericIdent(prefix: string, idx: nat): (id: string)
    ensures |prefix| < |id| && id[..|prefix|] == prefix
    ensures forall k :: |prefix| <= k < |id| ==> IsDigit(id[k])
  {
    prefix + Decimal(idx)
  }

  /** Two indices give the same identifier under one prefix only if they are equal. */
  lemma GenericIdentInjective(prefix: string, i: nat, j: nat)
    requires MakeGenericIdent(prefix, i) == MakeGenericIdent(prefix, j)
    ensures i == j
  {
    assert Decimal(i) == MakeGenericIdent(prefix, i)[|prefix|..];
    assert Decimal(j) == MakeGenericIdent(prefix, j)[|prefix|..];
    DecimalInjective(i, j);
  }

  /** The number of characters before the first digit of `s`. */
  function LeadingNonDigits(s: string): nat
    decreases |s|
  {
    if s == [] || IsDigit(s[0]) then 0 else 1 + LeadingNonDigits(s[1..])
  }

  lemma {:induction false} LeadingNonDigitsOfIdent(p: string, i: nat)
    requires NoDigits(p)
    ensures LeadingNonDigits(MakeGenericIdent(p, i)) == |p|
    decreases |p|
  {
    var id := MakeGenericIdent(p, i);
    if p != [] {
      assert id[1..] == MakeGenericIdent(p[1..], i);
      LeadingNonDigitsOfIdent(p[1..], i);
    }
  }

  /**
   * Prefixes without digits (such as `T`, `O` and `N`) cannot be confused:
   * the identifier determines both its prefix and its index.
   */
  lemma GenericIdentDeterminesPrefix(p: string, q: string, i: nat, j: nat)
    requires NoDigits(p) && NoDigits(q)
    requires MakeGenericIdent(p, i) == MakeGenericIdent(q, j)
    ensures p == q && i == j
  {
    var id := MakeGenericIdent(p, i);
    LeadingNonDigitsOfIdent(p, i);
    LeadingNonDigitsOfIdent(q, j);
    assert p == id[..|p|] == q;
    GenericIdentInjective(p, i, j);
  }

  /** `make_generic_idents(prefix, lo..hi)`: the identifiers for the indices `lo` to `hi - 1`, in order. */
  function MakeGenericIdents(prefix: string, lo: nat, hi: nat): (ids: seq<string>)
    ensures |ids| == if lo <= hi then hi - lo else 0
    ensures forall k :: 0 <= k < |ids| ==> ids[k] == MakeGenericIdent(prefix, lo + k)
    decreases hi - lo
  {
    if lo < hi then [MakeGenericIdent(prefix, lo)] + MakeGenericIdents(prefix, lo + 1, hi) else []
  }

  /** `make_generic_type(ident)`: the path type naming a generic parameter. */
  function MakeGenericType(ident: string): (t: Ty)
    ensures t.Param? && t.ident == ident
    ensures !Closed(t)
  {
    Param(ident)
  }

  /** `make_generic_types(prefix, lo..hi)`: the types `{prefix}{lo}` to `{prefix}{hi - 1}`, in order. */
  function MakeGenericTypes(prefix: string, lo: nat, hi: nat): (tys: seq<Ty>)
    ensures |tys| == if lo <= hi then hi - lo else 0
    ensures forall k :: 0 <= k < |tys| ==> tys[k] == Param(MakeGenericIdent(prefix, lo + k))
  {
    var ids := MakeGenericIdents(prefix, lo, hi);
    seq(|ids|, k requires 0 <= k < |ids| => MakeGenericType(ids[k]))
  }

  /** `make_never()`: the type `!`. */
  function MakeNever(): (t: Ty)
    ensures Closed(t) && !t.Named? && !t.Param? && !t.Enum? && !t.WithProjection?
  {
    Never
  }
}
