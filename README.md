# powerset-enum, modelled in Dafny

`powerset-enum` lets a Rust function name exactly the error variants it can
return. The `#[powerset_enum]` attribute rewrites an enum
`enum E { V0(P0), ..., Vn-1(Pn-1) }` into a generic enum
`enum E<T0, ..., Tn-1> { V0(T0), ... }`. Filling position `i` with the
never type `!` rules variant `i` out. Alongside the enum, the attribute
generates three things:

- a `WithVariant<Pi>` impl per variant, which adds variant `i` to an
  instantiation that still excludes it;
- a `From<Pi>` impl per variant;
- a notation macro `E![...]`, which expands to the `powerset!` macro.

`powerset!` starts from the all-`!` instantiation and left-folds
`<prev as WithVariant<ty>>::With` over the listed types. The runtime traits
lift narrowing (`WithoutVariant`) through `Result`, and `extract` is a name
for it.

The model covers these parts:

- **Types and syntax** are abstract datatypes (`Syntax`). A type is `!`, a
  generic parameter, a named type, an enum instantiation, or a
  `WithVariant` projection. The token streams of macro calls are lists of
  type and comma tokens.
- **Fresh parameter names** (`GenericNames`) are the prefix followed by the
  decimal index. The model proves that these names are injective.
- **The attribute** (`PowersetEnumImpl`) is a method with a loop over the
  variants. The loop rewrites them in place and builds the variant table.
  Pure functions build the generated impls and the notation macro from the
  table. Lemmas state the exact parameter lists.
- **The `powerset!` macro** (`PowersetMacroImpl`) has a parser and the fold.
  The fold is a method with a loop, proved equal to a fold function. The
  listed items are parsed as generic parameters, so only types named by a
  bare identifier can be listed. A path such as `io::Error`, which
  `powerset-enum/examples/with_powerset_enums.rs` lists, is rejected
  (`PowersetMacroImpl.PathItemRejected`).
- **What the compiler makes of the fold** (`Resolution`). Impl selection is
  modelled as positional matching against the generated impls, and
  `<X as WithVariant<V>>::With` is defined only when exactly one impl
  applies. From that, the model proves that a list of distinct declared
  payload types resolves to the instantiation naming exactly those types,
  whatever their order. It also proves that an unknown or a repeated type
  makes resolution fail.
- **The traits** (`Traits`) model `WithoutVariant` for `Result<T, E>` and
  `Extract`. The narrowing of the error enum itself is a function
  parameter.

This revision of `powerset-enum-attr/src/powerset_enum_impl.rs` emits exactly
one `WithVariant` impl per variant (lines 154-179), with `!` at that
variant's position. It has no identity impl for a position that is already
filled, and no impl for `WithVariant<!>`. Listing a type twice therefore does
not resolve (`Resolution.ResolutionRejectsRepeated`).

## Model

| member | source | states |
|---|---|---|
| GenericNames.Decimal | powerset-enum-attr/src/powerset_enum_impl.rs:68-70 | the decimal rendering of an index is non-empty and all digits, has one digit exactly below 10, and starts with `0` exactly for 0 |
| GenericNames.MakeGenericIdent | powerset-enum-attr/src/powerset_enum_impl.rs:68-70 | the identifier is the prefix followed by a non-empty run of decimal digits; `GenericIdentInjective` and `GenericIdentDeterminesPrefix` state that it determines the index and, for digit-free prefixes, the prefix |
| GenericNames.DecimalInjective | powerset-enum-attr/src/powerset_enum_impl.rs:68-70 | distinct indices render differently |
| GenericNames.GenericIdentInjective | powerset-enum-attr/src/powerset_enum_impl.rs:68-70 | with one prefix, distinct indices give distinct parameter names |
| GenericNames.GenericIdentDeterminesPrefix | powerset-enum-attr/src/powerset_enum_impl.rs:68-70 | with digit-free prefixes, a name determines both its prefix and its index, so the `O`, `N` and `T` families never collide |
| GenericNames.MakeGenericIdents | powerset-enum-attr/src/powerset_enum_impl.rs:72-74 | the names for a range `lo..hi` are `hi - lo` long (empty when `hi <= lo`), and entry `k` is the name for `lo + k` |
| GenericNames.MakeGenericType | powerset-enum-attr/src/powerset_enum_impl.rs:76-81 | the path type naming the given parameter, which is not closed (it mentions a generic parameter) |
| GenericNames.MakeGenericTypes | powerset-enum-attr/src/powerset_enum_impl.rs:76-85 | the types for a range are the parameters named by the same range, in order |
| GenericNames.MakeNever | powerset-enum-attr/src/powerset_enum_impl.rs:87-91 | the type `!`: it mentions no generic parameter and is no path, enum or projection |
| PowersetEnumImpl.RewriteDeclaration | powerset-enum-attr/src/powerset_enum_impl.rs:6-44 | a declaration with generics fails with the generics message. Otherwise it succeeds exactly when every variant is supported. A failure is the first offending variant's error, and the discriminant is checked before the shape. On success the generics are `T0..Tn-1`, variant `i`'s only field is `Ti`, nothing else changes, and the table is row `i` = (`i`, original payload, variant name) |
| PowersetEnumImpl.TableOfRows | powerset-enum-attr/src/powerset_enum_impl.rs:34-41 | the table has one row per variant at consecutive indices from 0, and row `i` holds variant `i`'s payload and name |
| PowersetEnumImpl.OtherIndicesSkip | powerset-enum-attr/src/powerset_enum_impl.rs:96 | on a table indexed consecutively from `base`, filtering out the row at `idx` keeps every other index in ascending order, and leaves the whole range when `idx` is below it |
| PowersetEnumImpl.ImplGenericsSkip | powerset-enum-attr/src/powerset_enum_impl.rs:96 | filtering out row `idx` of a consecutively indexed table leaves the parameters below `idx` then those above it, ascending |
| PowersetEnumImpl.SlotParams | powerset-enum-attr/src/powerset_enum_impl.rs:97-103 | one parameter per row |
| PowersetEnumImpl.GenWithVariantTraitImpls | powerset-enum-attr/src/powerset_enum_impl.rs:154-179 | one impl per row |
| PowersetEnumImpl.WithVariantImplsShape | powerset-enum-attr/src/powerset_enum_impl.rs:154-179 | impl `i` is `WithVariant<ty_i>`. Its source has `!` at `i`, its target has `ty_i` at `i`, and both have `Tj` at every other `j`, length `n`. Its generics are `Tj` for `j != i`, ascending |
| PowersetEnumImpl.WithVariantImplAt | powerset-enum-attr/src/powerset_enum_impl.rs:154-179 | the impl for row `i` alone: `WithVariant<ty_i>` for the enum, `!` at `i` in its source and `ty_i` in its target, `Tj` at every other position of both, generics `Tj` for `j != i` |
| PowersetEnumImpl.GenErrorFromTraitImpls | powerset-enum-attr/src/powerset_enum_impl.rs:93-113 | one impl per row |
| PowersetEnumImpl.FromImplsShape | powerset-enum-attr/src/powerset_enum_impl.rs:93-113 | impl `i` converts `ty_i` by building variant `i`. Its target has `ty_i` at `i` and `Tj` elsewhere, the same as the `With` of `WithVariant<ty_i>`, with the same generics |
| PowersetEnumImpl.GenEnumFromTraitImpls | powerset-enum-attr/src/powerset_enum_impl.rs:115-152 | one impl per row |
| PowersetEnumImpl.EnumFromParamLists | powerset-enum-attr/src/powerset_enum_impl.rs:115-137 | impl `i` maps from `O0..Oi-1, !, Ti+1..` to `N0..Ni-1, ty_i, Ti+1..` through `N0..Ni-1, !, Ti+1..`. Its generics are pairwise distinct, and its match arms are the names of the variants other than `i`, in declaration order |
| PowersetEnumImpl.GenPowersetMacro | powerset-enum-attr/src/powerset_enum_impl.rs:181-189 | the macro is named after the enum, and its empty powerset is the enum with `n` copies of `!` |
| PowersetEnumImpl.ExpandNotation | powerset-enum-attr/src/powerset_enum_impl.rs:185-188 | a plain comma-separated list of types always matches the first arm; `m![]` expands to the call with the empty powerset and nothing listed; every expansion starts with the empty powerset and a comma. `NotationArmsAgree` and `NotationExpansionOrigin` state the rest |
| PowersetEnumImpl.NotationArmsAgree | powerset-enum-attr/src/powerset_enum_impl.rs:185-188 | a list with or without a trailing comma expands to the same `powerset!` call |
| PowersetEnumImpl.NotationExpansionOrigin | powerset-enum-attr/src/powerset_enum_impl.rs:185-188 | every expansion is the `powerset!` call of a list that the arguments spell, with or without a trailing comma |
| PowersetEnumImpl.PowersetEnumImpl | powerset-enum-attr/src/powerset_enum_impl.rs:6-59 | the same error cases as the rewrite, with nothing emitted on error. On success it emits the rewritten enum, the `WithVariant` and `From` impls and the macro, each generated from the declaration's own table |
| Syntax.SplitSeparated | powerset-enum-attr/src/powerset_enum_impl.rs:186-187 | the `$($tt:ty),*` matcher: it gives the empty list exactly for no tokens. `SplitSeparatedOfSeparated` and `SeparatedOfSplitSeparated` state that it accepts exactly the comma-separated lists without a trailing comma |
| Syntax.SplitSeparatedOfSeparated | powerset-enum-attr/src/powerset_enum_impl.rs:186-187 | splitting a comma-separated list of types gives the list back |
| Syntax.SeparatedOfSplitSeparated | powerset-enum-attr/src/powerset_enum_impl.rs:186-187 | whatever splits is the comma-separated spelling of its result |
| PowersetMacroImpl.ParseListItem | powerset-enum-attr/src/powerset_macro_impl.rs:10 | a list item is accepted exactly when it is a type token naming a parameter or type by a bare identifier (identifier characters, no leading digit, not `_` alone), and it is that type |
| PowersetMacroImpl.PathItemRejected | powerset-enum/examples/with_powerset_enums.rs:28 | the path `io::Error` and the generic type `Vec<u8>` are not accepted as list items, so this revision cannot parse the example's `Error![io::Error, serde_json::Error]` |
| PowersetMacroImpl.ParseTerminated | powerset-enum-attr/src/powerset_macro_impl.rs:18 | an accepted list holds only identifier items, is empty exactly when there are no tokens, and reports a trailing comma only after an item. `ParseTerminatedOfPrinted` and `PrintedOfParseTerminated` state the round trip |
| PowersetMacroImpl.ParseTerminatedOfPrinted | powerset-enum-attr/src/powerset_macro_impl.rs:18 | a terminated list parses back to its items and its trailing-comma flag |
| PowersetMacroImpl.PrintedOfParseTerminated | powerset-enum-attr/src/powerset_macro_impl.rs:18 | whatever parses as a terminated list is the printed list, with identifier items and a trailing comma only after an item |
| PowersetMacroImpl.ParsePowersetMacroInput | powerset-enum-attr/src/powerset_macro_impl.rs:13-21 | no input without a leading type; an accepted input starts with its empty powerset, has `comma` set exactly when a comma follows it, and is well formed. `ParsePrinted` and `PrintedParse` state the round trip |
| PowersetMacroImpl.ParsePrinted | powerset-enum-attr/src/powerset_macro_impl.rs:13-21 | printing a well-formed input (a leading type, an optional comma, a terminated list) and parsing it gives it back |
| PowersetMacroImpl.PrintedParse | powerset-enum-attr/src/powerset_macro_impl.rs:13-21 | every parsed input is well formed and prints as the tokens it came from |
| PowersetMacroImpl.Fold | powerset-enum-attr/src/powerset_macro_impl.rs:25-28 | folding `k` types nests exactly `k` more projections around the start. `UnfoldFold`, `FoldUnfold` and `FoldAppend` state the order |
| PowersetMacroImpl.UnfoldFold | powerset-enum-attr/src/powerset_macro_impl.rs:25-28 | the fold over `k` types is `k` nested projections, with the start innermost and the listed types in list order |
| PowersetMacroImpl.FoldUnfold | powerset-enum-attr/src/powerset_macro_impl.rs:25-28 | anything that unfolds `k` times is the fold of what it unfolds to |
| PowersetMacroImpl.FoldAppend | powerset-enum-attr/src/powerset_macro_impl.rs:25-28 | folding `a + b` is folding `b` over the fold of `a` |
| PowersetMacroImpl.PowersetMacroImplementation | powerset-enum-attr/src/powerset_macro_impl.rs:23-30 | always `Ok`: the start for an empty list, otherwise the left fold of projections over the list |
| Resolution.FirstIndexOf | powerset-enum-attr/src/powerset_enum_impl.rs:158-164 | none exactly when the type is absent; otherwise an index holding it with no earlier occurrence |
| Resolution.Candidates | powerset-enum-attr/src/powerset_enum_impl.rs:173 | every candidate impl applies |
| Resolution.AppliesGenerated | powerset-enum-attr/src/powerset_enum_impl.rs:157-173 | impl `i` applies to `E<args>` and `V` exactly when `V` is `ty_i`, `args` has length `n` and `args[i]` is `!` |
| Resolution.InstantiateGenerated | powerset-enum-attr/src/powerset_enum_impl.rs:165-174 | applying impl `i` puts `ty_i` at `i` and keeps every other argument |
| Resolution.Project | powerset-enum-attr/src/powerset_enum_impl.rs:173 | `<self as WithVariant<v>>::With` is defined exactly when `self` is an enum instantiation to which exactly one impl applies, and then it is an instantiation of the same enum. `ProjectGenerated` states it for the generated impls |
| Resolution.ProjectGenerated | powerset-enum-attr/src/powerset_enum_impl.rs:154-179 | `<E<args> as WithVariant<V>>::With` resolves exactly when `V` is a payload type whose position holds `!`. It then puts `V` there and changes nothing else |
| Resolution.ProjectUnknown | powerset-enum-attr/src/powerset_enum_impl.rs:173 | a projection whose argument is no payload type never resolves |
| Resolution.Resolve | powerset-enum-attr/src/powerset_macro_impl.rs:26-28 | a type that is not a projection resolves to itself, and a resolved projection is an enum instantiation. `ResolveListed` states what the fold resolves to |
| Resolution.ResolveNoneStays | powerset-enum-attr/src/powerset_macro_impl.rs:26-28 | once a fold fails to resolve, so does every longer fold over it |
| Resolution.FilledStep | powerset-enum-attr/src/powerset_enum_impl.rs:158-171 | one more listed type fills its own position, which was still `!` |
| Resolution.ResolveListed | powerset-enum-attr/src/powerset_macro_impl.rs:26-28 | a list of distinct declared payload types, none of them `!`, resolves from the empty powerset to the instantiation with exactly those types at their positions and `!` elsewhere |
| Resolution.ResolutionOrderIndependent | powerset-enum-attr/src/powerset_macro_impl.rs:26-28 | two such lists naming the same types resolve to the same instantiation |
| Resolution.ResolutionRejectsUnknown | powerset-enum-attr/src/powerset_enum_impl.rs:173 | a listed type that is no payload type makes the fold fail, from any start |
| Resolution.ResolvedKeepsListed | powerset-enum-attr/src/powerset_enum_impl.rs:165-171 | after a successful fold, the position of every listed payload type holds that type |
| Resolution.ResolutionRejectsRepeated | powerset-enum-attr/src/powerset_enum_impl.rs:158-164 | listing a type other than `!` twice makes the fold fail |
| Resolution.NotationParses | powerset-enum-attr/src/powerset_enum_impl.rs:185-188 | `E![t0, ..., tk]` over bare-identifier types expands to a `powerset!` call that parses to the empty powerset and the list |
| Resolution.NotationResolves | powerset-enum-attr/src/powerset_enum_impl.rs:181-189 | `E![t0, ..., tk]` over distinct payload types named by bare identifiers denotes the instantiation naming exactly them |
| Resolution.TableOfGood | powerset-enum-attr/src/powerset_enum_impl.rs:34-41 | a supported declaration with distinct, parameter-free payloads gives a table the resolution lemmas apply to |
| Resolution.TestsErrorTable | powerset-enum/tests/tests.rs:13-20 | the test enum is supported, and its table holds `Exception1..4` at positions 0..3 |
| Resolution.TestsErrorNotation | powerset-enum/tests/tests.rs:28 | `Error![Exception1, Exception4, Exception3]` is `Error<Exception1, !, Exception3, Exception4>` |
| Resolution.TestsErrorNotationParses | powerset-enum/tests/tests.rs:28 | `Error![Exception1, Exception4, Exception3]` matches the notation's first arm, and its `powerset!` call parses to the empty powerset and those three types |
| Traits.RemovePossibilityFromResult | powerset-enum-traits/src/lib.rs:11-24 | `Ok(t)` becomes `Ok(Ok(t))` and nothing else does. An error that narrows to `w` becomes `Ok(Err(w))`. An error holding the removed variant's payload `v` becomes `Err(v)`, and only such an error does |
| Traits.RemovePossibilityRoundTrip | powerset-enum-traits/src/lib.rs:14-23 | when the error narrowing loses nothing, widening the lifted result gives back the original |
| Traits.Extract | powerset-enum-traits/src/lib.rs:31-36 | `extract` is the receiver's `remove_possibility` |
| Traits.CauseError | powerset-enum/tests/tests.rs:35-43 | the test function fails exactly for 1..4 and otherwise returns its argument |
| Traits.ExtractVariantCases | powerset-enum/tests/tests.rs:46-51 | extracting a variant gives its payload, the same error for another variant, and `Ok(Ok(n))` for a success |
| Traits.ExtractTested | powerset-enum/tests/tests.rs:48-50 | the three extractions of the test suite |

## Left out

- Token emission (`quote!`), `syn` parsing of the declaration and spans are abstracted. An error carries a span kind (the generics, or the variant's position) and its message.
- The proc-macro entry points in `powerset-enum-attr/src/lib.rs` (parsing and turning errors into `compile_error!`) are plumbing and not part of this model.
- The generators return `Result` in the source but never fail. The model's generators are total functions.
- `gen_enum_from_trait_impls` is computed but not emitted. Its parameter lists are modelled, but `PowersetEnumImpl.PowersetEnumImpl` does not emit it.
- The `upcast` method and the per-enum `WithoutVariant` impls that the tests and examples use are not generated by this revision. Enum narrowing is therefore only a function parameter of `Traits.RemovePossibilityFromResult`, plus the concrete `Traits.RemoveVariant` for the test enum.
- Macro hygiene is not modelled: a payload type spelled like a generated parameter (`T0`) is a named type, distinct from the parameter.
- Rust trait resolution is modelled only for `WithVariant` projections over the generated impls. Coherence, the never type's semantics and `exhaustive_patterns` are out of scope.
- Pairwise distinctness of payload types is documented but never checked. The resolution lemmas take it as a precondition (`Resolution.GoodTable`).
- `PowersetMacroImpl.ParseListItem`: list items are accepted as bare ASCII identifiers only, as for generic parameters. A keyword is accepted as if it were an identifier and a non-ASCII identifier is rejected; the other syntax that `syn::GenericParam` accepts (lifetimes, bounds, `const` parameters) is not modelled.
- `Resolution.ResolveListed`: resolution is proved only for payload types that mention no generic parameter.
- The examples and `powerset-enum-examples/src/lib.rs` (file I/O, serialisation, regular expressions, printing, temporary files) are not part of this model. `powerset-enum/src/lib.rs` only re-exports and documents.
