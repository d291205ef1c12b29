# Verified model of the OpenJD expression crate

A Dafny 4.11 model of the core of `openjd-expr`, and of the stdout filter of `openjd-sessions`, with
proofs of what the code is meant to guarantee. `dafny verify dfyconfig.toml` checks all of it.

| part | files | main results |
|---|---|---|
| Symbolic integer ranges | `IntRange`, `RangeExpr`, `RangeBuild`, `RangeSlice`, `RangeText`, `RangeGrammar`, `RangeRoundTrip`, `RangeCanonical` | every operation on chunks agrees with the flattened ascending list, inside i64 and u64; the parser reads exactly a grammar; print and parse round trip; values determine the chunks built from them |
| Types | `ExprType`, `UnionLaws`, `TypeText`, `TypeRoundTrip`, `Satisfies` | unions are canonical; print and parse round trip with its exact depth condition; laws of `satisfies` |
| Matching a call | `Unification`, `MatchRule`, `MatchLaws`, `MatchSound` | exactly when an argument matches and two bindings reconcile; exactly when one set of bindings serves every parameter, by least common widenings; exactly when a call matches in every order; complete without ranges |
| Values and coercion | `ExprValue`, `MakeList`, `ListRule`, `Coercion`, `CoercedValue`, `CoercionSound`, `CoercionTight`, `EmptyLists` | which value coercion gives, as a relation, and exactly when it gives one; the type-level coercion covers what the value-level one does, accepts nothing that no value reaches, and promises exactly what values come out as |
| Dispatch | `Dispatch`, `DispatchRule` | the overload picked and the values passed, by an order-of-preference rule; exactly when unresolved placeholders pick the overload the values pick |
| Equality and hashing | `Equality`, `EqualityLaws`, `PathLists` | equality is sameness of content; exactly when equalities chain and when equal values hash alike; what the order is, and its laws |
| Format strings | `FormatString`, `FormatResolve` | segments tile the input; the exact condition of the escape round trip; validation foretells resolution, and its bounds are attained |
| Redaction | `Redaction`, `ActionFilter`, `DirectiveRule` | what each line calls back and exactly what it records; over every run no recorded secret is in a later line, and exactly which secrets that holds for; callbacks are not masked |
| Symbol table | `SymbolTable` | failed sets change nothing; merge and listing laws |
| Edit distance | `EditDistance` | the two-row loop is the least number of edits |
| Literal printers | `Literals` | Python and JSON literals decode to what was printed |

`Common`, `Sorting` and `Decimal` hold what these share.

How things are modelled:

- Doubles are reals. Number parsing, rounding of integers to doubles, the text of floats, case
  folding, JSON decoding and the printability table are function parameters (`Host` records, `table`).
- Strings are sequences of Unicode scalar values. Positions count characters; where the source counts
  bytes (limits, charges, output bounds) the model counts UTF-8 bytes explicitly.
- `usize` is 64 bits wide, and additions the source saturates are saturated.
- The expression parser is a predicate on text and the evaluator a function from text to a value or
  an error. The theorem about validation assumes only that filling in unresolved symbols keeps
  answers that were already concrete; the escape round trip assumes that the two interpolations the
  escaper writes evaluate to the braces they spell, and that the unbalanced text `{ "}" + "}"` does
  not parse.
- Hash maps and sets are Dafny maps and sets. Loops over them take elements in any order, so what is
  proved of them does not depend on the order.
- Nested symbol tables are owned by value, as in the source. Setting writes the visited tables back
  after the walk, also when it fails, and a failed walk is proved to have changed nothing.

Places where a natural claim is too strong. Each has the exact condition proved, and a lemma with an
input for which the claim fails:

- A type satisfies itself only if it is usable throughout: `int | list[noreturn]` denotes values and
  does not (`SatisfiesSelf`; `PartlyUnusable`).
- An empty list is promised any list target that denotes values. What it becomes fails to satisfy the
  promise exactly when the element type is `range_expr`, a union without `nulltype`, or a list that
  does not satisfy itself (`EmptyListPromise`; `EmptyRangesUnkept`, `EmptyPartlyUnkept`). A list that
  is not empty fails exactly when its elements leave an untyped empty list in front that the element
  type does not accept (`NestedListPromise`; `NestedEmptyUnkept`).
- The type level accepts a union for the sake of a member that has no values: `int | list[noreturn]`
  toward `list[int]`, which no value of it reaches. It accepts exactly what some value reaches when every
  member has values, and in general some value gets through exactly when a member with values is
  accepted (`ReachedExactly`, `AcceptedExactly`; `AcceptedUnreached`).
- Two types with a common widening reconcile, except where a range meets the empty list
  (`UnifyExactly`; `RangeAgainstEmpty`).
- Placeholders can pick an overload that the values they stand for do not, exactly when nothing
  matches exactly and the first overload they coerce to takes `any` (`ChoiceUnchanged`;
  `ChoiceChanges`).
- A matched call need not serve all its parameters. Implicit rules do not chain, and a range reconciled
  by way of a list of ints can end up bound to a list of floats. What the arguments bind widens to the
  final bindings exactly when none has a range where another, binding the same variable, has a list of
  floats (`CallServes`, `WidensComposed`; `RangeLeftBehind`).
- Reordering its parameters can change whether a call matches. It matches in every order exactly when
  what the arguments bind reconciles two by two, which without ranges follows from matching in one
  order; the bindings never differ (`AlwaysMatches`, `SameBindings`, `OrderFree`; `OrderMatters`).
- Equality is transitive exactly where no range ends up against one cut into other chunks or against
  a list that is not of ints (`EqualsLaws`; `RangesNotTransitive`). A list of ints equals a range
  over the same values and hashes differently (`EqualHash`; `RangeHashesApart`).
- A lone `{` directly before `}}` makes escaped text open an interpolation too early, and nothing else
  does (`EscapeRoundTrip`, `EscapeAndResolve`; `EscapeFails`).
- Validation charges a lone expression for its text and resolution does not, so only there can the
  budget fail a string that resolves (`LoneExpressionCharged`, `ChargeForetold`;
  `LoneExpressionOverBudget`).
- Masking goes on one byte after an occurrence. Where a recorded value begins with a longer character
  and occurs in the line, the source panics; exactly there the model has no result
  (`ApplyRedaction`; `TwoByteValuePanics`).
- A recorded value is masked away whatever else is recorded exactly when it neither starts nor ends with
  `*` and does not hold a whole mask (`HiddenExactly`; `Exposed`). Callbacks are never masked
  (`SecretHandedOn`; `StatusHandsOn`).
- The line shown for a redacted_env directive is not masked again, so it contains an earlier secret
  exactly when the part before its mask does (`ShownSecrets`; `EarlierSecretShown`).
- Listing the leaves of a symbol table drops leading empty components, so rebuilding a table from its
  listing loses exactly the leaves that start with one, or by key, in any table, those no other leaf is
  listed under (`RebuildReproduces`, `RebuildKeys`; `RebuildLoses`).
- A list of paths of several formats need not be stored separator-normalized, as hashing takes it to be;
  it is exactly when all are normalized for the first one's format (`BuiltPathsNormal`; `FormatsMixed`).

Where the code and its comments disagree the model follows the code. The comment on
`validate_expressions` says the evaluated bytes are charged exactly as resolution charges them; for a
lone expression resolution charges nothing.

## Model

| member | source | states |
|---|---|---|
| IntRanges.New | crates/openjd-expr/src/range_expr.rs:161-198 | A chunk is built exactly when the step is non-zero, runs toward the end and nothing reaches 2^62; the error kind says which of these failed; the result is a well-formed ascending chunk. |
| IntRanges.NewHolds | crates/openjd-expr/src/range_expr.rs:161-198 | Whatever the direction of the request, the chunk holds exactly the values of the progression asked for. |
| IntRanges.LenU64 | crates/openjd-expr/src/range_expr.rs:213-216 | The arithmetic length is the length of the expanded chunk and fits 63 bits. |
| IntRanges.Contains | crates/openjd-expr/src/range_expr.rs:223-230 | Membership by remainder is membership in the expanded chunk. |
| IntRanges.Nth | crates/openjd-expr/src/range_expr.rs:232-235 | The k-th value by arithmetic is the k-th value of the expanded chunk, without overflow. |
| IntRanges.ValueAt | crates/openjd-expr/src/range_expr.rs:264-271 | Bounds-checked indexing of a chunk. |
| RangeExprs.Len | crates/openjd-expr/src/range_expr.rs:501-510 | The packed length field counts the flattened list whatever the display flag is. |
| RangeExprs.IsEmpty | crates/openjd-expr/src/range_expr.rs:512-515 | Empty exactly when the flattened list is. |
| RangeExprs.WithContiguous | crates/openjd-expr/src/range_expr.rs:350-361 | Setting the display flag changes neither the list nor its length. |
| RangeExprs.ContainsValue | crates/openjd-expr/src/range_expr.rs:517-524 | One chunk, found as the partition point of the chunk ends, decides membership in the whole flattened list. |
| RangeExprs.ValueAtIndex | crates/openjd-expr/src/range_expr.rs:526-538 | Indexing through the cumulative table is indexing the flattened list, and None past its end. |
| RangeExprs.PartitionSearch | crates/openjd-expr/src/range_expr.rs:517-538 | On a sequence its predicate divides in two, as both callers are shown to give, halving finds the first element that fails it. |
| RangeExprs.Get | crates/openjd-expr/src/range_expr.rs:540-552 | Python-style indexing, negative indices included, on the flattened list. |
| RangeExprs.FlattenSorted | crates/openjd-expr/src/range_expr.rs:289-310 | Chunks in order flatten to one strictly ascending list between the first start and the last end. |
| RangeExprs.SumLengths | crates/openjd-expr/src/range_expr.rs:713-715 | The summed lengths are the length of the flattened list; the sum does not overflow on ordered chunks. |
| RangeExprs.BuildCumulative | crates/openjd-expr/src/range_expr.rs:717-725 | Entry i of the table is the length of the flattened first i + 1 chunks. |
| RangeBuild.ScanRun | crates/openjd-expr/src/range_expr.rs:363-435 | The inner scan covers equally spaced values and stops exactly at the first one that breaks the spacing. |
| RangeBuild.NextChunk | crates/openjd-expr/src/range_expr.rs:363-435 | The next chunk starts at the current value and covers equally spaced values only, with a step inside the bound; the value after it does not continue its progression. |
| RangeBuild.Chunk | crates/openjd-expr/src/range_expr.rs:363-435 | Greedy chunking of ascending values: the chunks are in order, flatten back to exactly the values, and none could have been longer. |
| RangeBuild.FromValues | crates/openjd-expr/src/range_expr.rs:363-435 | Succeeds exactly when every value is inside the bound, and then holds exactly the distinct input values, in chunks that could not have been longer. |
| RangeBuild.Renormalize | crates/openjd-expr/src/range_expr.rs:437-499 | Every chunk is built again; fails exactly when one of them is not acceptable. |
| RangeBuild.OrderedIffApart | crates/openjd-expr/src/range_expr.rs:437-499 | After sorting by start, neighbours that do not touch are all that pairwise disjointness takes. |
| RangeBuild.MergeLast | crates/openjd-expr/src/range_expr.rs:437-499 | One merge step adds the next chunk's values, keeps track of whether chunks overlap, and leaves no two neighbours that could still be joined. |
| RangeBuild.MergeAdjacent | crates/openjd-expr/src/range_expr.rs:437-499 | Merging changes neither the list nor whether chunks overlap, and leaves no two neighbours that could still be joined. |
| RangeBuild.HasOverlap | crates/openjd-expr/src/range_expr.rs:437-499 | The final scan finds an overlap exactly when the chunks are not in order. |
| RangeBuild.FromRanges | crates/openjd-expr/src/range_expr.rs:437-499 | Accepts exactly 1 to 10,000 acceptable chunks with pairwise disjoint intervals, and then holds their union with no two neighbours that could still be joined. |
| RangeCanonical.SameChunks | crates/openjd-expr/src/range_expr.rs:363-435 | Chunks that are as long as possible, with step 1 for single values, are determined by their list. |
| RangeCanonical.CanonicalUnique | crates/openjd-expr/src/range_expr.rs:363-435 | So whatever from_values builds over the same set of values, from whatever order and repeats, has the same chunks. |
| RangeCanonical.CutTwoWays | crates/openjd-expr/src/range_expr.rs:437-499 | Elsewhere one list can be cut in several ways: any two values more than one apart are one stepped chunk or two single ones, and neither form merges into the other. |
| RangeSlicing.Slice | crates/openjd-expr/src/range_expr.rs:585-701 | For every start and stop and exactly the positive steps: the result is well formed, and the element at position k of the list is in it exactly when k is at least start, below stop and a multiple of step past the first; all arithmetic stays inside i64 and u64. |
| RangeSlicing.SelectedExactly | crates/openjd-expr/src/range_expr.rs:585-610 | Clamping start and stop to the list selects the same positions. |
| RangeSlicing.SliceChunk | crates/openjd-expr/src/range_expr.rs:611-690 | One chunk's share of a slice, in order and inside the chunk; two pieces only when exactly two of its values are selected. |
| RangeSlicing.StridePieces | crates/openjd-expr/src/range_expr.rs:640-690 | Striding through a chunk gives at most two chunks holding exactly the strided values; two only for two values. |
| RangeSlicing.WideStride | crates/openjd-expr/src/range_expr.rs:655-680 | A spacing at or past 2^62 leaves room for two values only, so the two-singleton case is never more. |
| RangeSlicing.ClampedStep | crates/openjd-expr/src/range_expr.rs:596-599 | Clamping the step to the length selects the same elements. |
| RangeSlicing.SelectedChunk | crates/openjd-expr/src/range_expr.rs:585-701 | Adding one chunk's share extends the selection to the end of that chunk. |
| RangeText.ParseInteger | crates/openjd-expr/src/range_expr.rs:881-911 | Reads an integer exactly where the reference reader does, and stops where it stops. |
| RangeText.ParsePiece | crates/openjd-expr/src/range_expr.rs:747-879 | One comma-separated piece, as the reference reader reads it. |
| RangeText.ParseChunks | crates/openjd-expr/src/range_expr.rs:747-879 | All pieces of the text, as the reference reader reads them. |
| RangeText.ParseRangeExpr | crates/openjd-expr/src/range_expr.rs:747-879 | Succeeds exactly on text that reads as 1 to 10,000 acceptable disjoint pieces, and then holds the values the text denotes. |
| RangeGrammar.ReadsExactly | crates/openjd-expr/src/range_expr.rs:747-911 | The texts accepted, and what they are read as: between commas stand sub-ranges, each a value, `start-end` or `start-end:step` in decimal with blanks around every number and sign; at most ten thousand; nothing else is read. |
| RangeGrammar.WrittenRead | crates/openjd-expr/src/range_expr.rs:747-879 | Whatever blanks and leading zeros a sub-range is written with, it is read as what it means. |
| RangeRoundTrip.PrintParse | crates/openjd-expr/src/range_expr.rs:273-286 | The printed form of every non-empty expression, flag on or off, parses exactly when it has at most 10,000 pieces, and denotes the same list. |
| RangeRoundTrip.AscendingUnique | crates/openjd-expr/src/range_expr.rs:727-745 | Strictly ascending lists with the same values are the same list, so a text denotes one list. |
| RangeRoundTrip.Reparse | crates/openjd-expr/src/range_expr.rs:727-879 | Print and parse: succeeds under the same condition and gives an expression with the same flattened elements. |
| ExprTypes.MakeList | crates/openjd-expr/src/types.rs:118-134 | The list constructor keeps types normalized: unresolved stays at the root. |
| ExprTypes.MakeUnresolved | crates/openjd-expr/src/types.rs:140-149 | The unresolved constructor never nests. |
| UnionLaws.SpliceLoop | crates/openjd-expr/src/types.rs:327-364 | The first loop of union normalization: nested unions spliced in, noreturn dropped, any ends it. |
| UnionLaws.HoistLoop | crates/openjd-expr/src/types.rs:327-364 | The second loop separates unresolved members from the others. |
| UnionLaws.NormalizeUnion | crates/openjd-expr/src/types.rs:327-364 | The whole loop form of union normalization is the recursive one the laws are proved of. |
| UnionLaws.UnionHolds | crates/openjd-expr/src/types.rs:327-364 | A union is normalized; it is any when asked for, otherwise unresolved exactly when an argument is, and holds exactly the atoms of its arguments. |
| UnionLaws.NormalDetermined | crates/openjd-expr/src/types.rs:327-364 | A normalized type is determined by its atoms and whether it is unresolved. |
| UnionLaws.UnionCanonical | crates/openjd-expr/src/types.rs:327-364 | Unions of arguments with the same atoms are equal. |
| UnionLaws.UnionOrderFree | crates/openjd-expr/src/types.rs:327-364 | A union does not depend on the order of its arguments. |
| UnionLaws.SameTypesSameUnion | crates/openjd-expr/src/types.rs:327-364 | Nor on how often one is given. |
| UnionLaws.UnionSingle | crates/openjd-expr/src/types.rs:327-364 | The union of one normalized type is that type. |
| UnionLaws.UnionTwice | crates/openjd-expr/src/types.rs:327-364 | Union is idempotent. |
| UnionLaws.UnionAssociative | crates/openjd-expr/src/types.rs:327-364 | Building part of a union first makes no difference. |
| UnionLaws.SubstituteNormal | crates/openjd-expr/src/types.rs:508-518 | Substituting normalized bindings into a normalized type gives a normalized type: flat duplicate-free unions, unresolved at the root only. |
| TypeText.SplitUnionLoop | crates/openjd-expr/src/types.rs:694-720 | The bracket-depth loop splits where the recursive reference splits. |
| TypeRoundTrip.RebuildUnion | crates/openjd-expr/src/types.rs:750-808 | Rebuilding a normalized union from its members in any order gives it back. |
| TypeRoundTrip.PrintParse | crates/openjd-expr/src/types.rs:616-808 | At any depth and limit, the printed form of a normalized type reads back as the type exactly when its nesting stays within the limit. |
| TypeRoundTrip.ParseShown | crates/openjd-expr/src/types.rs:616-720 | Parsing printed text gives the type back when its nesting is at most 10 and fails otherwise; optional types, unions with nulltype and unresolved included. |
| TypeRoundTrip.NamesRead | crates/openjd-expr/src/types.rs:616-692 | The fourteen names are written and read as the types they name, and `list[...]` as the list of the type inside. |
| TypeRoundTrip.ShowInjective | crates/openjd-expr/src/types.rs:750-808 | Different normalized types print differently, whatever their depth. |
| Satisfaction.SatisfiesTransitive | crates/openjd-expr/src/types.rs:428-460 | Satisfaction is transitive, on all types. |
| Satisfaction.SatisfiesReflexive | crates/openjd-expr/src/types.rs:428-460 | Every type usable throughout satisfies itself. |
| Satisfaction.SatisfiesSelf | crates/openjd-expr/src/types.rs:428-487 | A normalized type satisfies itself if and only if it is usable throughout, up to union members that are special cases of others. |
| Satisfaction.SatisfiesSelfPlain | crates/openjd-expr/src/types.rs:428-487 | A normalized type without any inside satisfies itself if and only if every part of it denotes values. |
| Satisfaction.PartlyUnusable | crates/openjd-expr/src/types.rs:475-487 | Denoting values is not enough: a union with an unusable member denotes values and does not satisfy itself. |
| Satisfaction.UnionTarget | crates/openjd-expr/src/types.rs:428-460 | Satisfying a member satisfies the union. |
| Satisfaction.SatisfiesAtoms | crates/openjd-expr/src/types.rs:428-460 | A normalized source satisfies a target exactly when all its atoms do; a source without atoms, `noreturn` resolved or not, satisfies any alone. |
| Satisfaction.UnionSource | crates/openjd-expr/src/types.rs:428-460 | The union of A and B satisfies C exactly when both A and B do, `noreturn` adding nothing; a union of nothing else satisfies any alone. |
| Unification.MergeBindings | crates/openjd-expr/src/types.rs:248-259 | One parameter's bindings merge, in whatever order the map is walked, exactly when every shared variable reconciles. |
| Unification.MatchCallLoop | crates/openjd-expr/src/types.rs:187-207 | The loop over parameters and arguments, with its strong and weak maps, is the fold the theorems are about. |
| Unification.UnifyWidens | crates/openjd-expr/src/types.rs:276-323 | Both types widen to the type they reconcile to, by the rules int to float, path to string, range_expr to list[int], lists element by element and the empty list to any list. |
| Unification.UnifyLeast | crates/openjd-expr/src/types.rs:276-323 | The reconciled type is below every type both widen to by these rules, and does not depend on their order. |
| Unification.MatchWidens | crates/openjd-expr/src/types.rs:522-593 | Bindings to which what a parameter bound widens make the argument type widen to the substituted parameter, by the same rules. |
| MatchSoundness.WidensComposed | crates/openjd-expr/src/types.rs:261-275 | The rules do not chain: two widenings compose if and only if they do not take a range to a list of floats. |
| MatchSoundness.BindingServes | crates/openjd-expr/src/types.rs:187-207 | In a matched call, what an argument binds a variable to widens to the final binding if and only if it does not clash, a range against a list of floats at the same place, with what another argument binds it to. |
| MatchSoundness.CallServes | crates/openjd-expr/src/types.rs:187-207 | So everything the arguments bind widens to the final bindings if and only if no two of them clash. |
| MatchSoundness.MatchCallSound | crates/openjd-expr/src/types.rs:187-207 | Whenever a call on types of concrete values matches without a clash, every argument type widens to its substituted parameter, and strong bindings override weak empty-list ones. |
| MatchSoundness.RangeLeftBehind | crates/openjd-expr/src/types.rs:187-207 | With a clash it need not: (range_expr, list[int], list[float]) matches three T parameters and binds T to list[float], to which the range does not widen. |
| MatchLaws.SameBindings | crates/openjd-expr/src/types.rs:187-207 | Two orders of the same parameters that both match bind every variable alike, ranges or not. |
| MatchLaws.AlwaysMatches | crates/openjd-expr/src/types.rs:187-207 | A call matches in every order of its parameters if and only if every argument matches its parameter and what they bind reconciles two by two. |
| MatchLaws.UnifyThree | crates/openjd-expr/src/types.rs:276-323 | Types that reconcile pairwise reconcile together. |
| MatchLaws.UnifyComplete | crates/openjd-expr/src/types.rs:276-323 | Two types without ranges that have a common widening reconcile, and their reconciliation has no range. |
| MatchRules.MatchExactly | crates/openjd-expr/src/types.rs:522-593 | An argument type of a concrete value matches a parameter exactly when some reading of the variables makes the parameter take it. |
| MatchRules.MatchTakes | crates/openjd-expr/src/types.rs:522-593 | What the match binds is such a reading. |
| MatchRules.TakenMatches | crates/openjd-expr/src/types.rs:522-593 | Without unions in the parameter, every such reading contains what the match binds. |
| MatchRules.UnionMatches | crates/openjd-expr/src/types.rs:522-593 | A union argument matches exactly when one of its members matches the parameter, or a member of it. |
| MatchRules.EmptyListYields | crates/openjd-expr/src/types.rs:187-207 | An empty list given for a list[T] parameter, wherever it stands, decides neither whether a call matches nor what anything else binds a variable to. |
| MatchRules.EmptyListMatches | crates/openjd-expr/src/types.rs:187-207 | Such a call binds what it binds without the empty list, and the variable, bound by nothing else, to nulltype. |
| MatchRules.UnifyExactly | crates/openjd-expr/src/types.rs:276-323 | Two types of concrete values reconcile exactly when both widen to some type, except where a range meets the empty list's type. |
| MatchRules.RangeAgainstEmpty | crates/openjd-expr/src/types.rs:276-323 | A range and the empty list both widen to list[int] and do not reconcile. |
| MatchLaws.MatchCallComplete | crates/openjd-expr/src/types.rs:187-207 | For argument types without ranges: if any bindings at all suit every parameter, the call matches and binds each variable at most as widely. |
| MatchLaws.OrderFree | crates/openjd-expr/src/types.rs:187-207 | For argument types without ranges the outcome and the bindings do not depend on the order of the parameters. |
| MatchLaws.OrderMatters | crates/openjd-expr/src/types.rs:276-323 | With a range they do: (range_expr, list[int], list[float]) matches three T parameters and (range_expr, list[float], list[int]) does not. |
| ListBuilding.Rewrite | crates/openjd-expr/src/value.rs:568-582 | A loop over the elements rewrites each in place. |
| ListBuilding.FindSibling | crates/openjd-expr/src/value.rs:559-566 | The first typed sibling decides what untyped empty lists become. |
| ListBuilding.FillInPlace | crates/openjd-expr/src/value.rs:554-584 | Filling the empty lists in place gives the filled vector of the specification. |
| ListBuilding.MakeList | crates/openjd-expr/src/value.rs:525-740 | The in-place construction of a list, with its promotions in order, gives what the coercion proofs use; None for its errors and for the mix it does not expect. |
| Coercion.Destinations | crates/openjd-expr/src/value.rs:919-975 | The conversion destinations are exactly the usable members of the target. |
| Coercion.DestinationsOrdered | crates/openjd-expr/src/value.rs:919-940 | They come in the order they are to be tried: scalars before lists, then by the rank of the source type, then in the order of the normalized union. |
| Coercion.CoercePrefers | crates/openjd-expr/src/value.rs:864-903 | Coercion gives the most preferred conversion that succeeds: every destination not after it in that order fails. |
| CoercedValues.ConvertsExactly | crates/openjd-expr/src/value.rs:1048-1095 | Toward a scalar type a conversion gives w exactly when w is of that type and restates the value: a bool as true or false, an int as its float or its digits, a float as the int equal to it or its text, a path or range as its text, a text as what it parses to or spells. |
| CoercedValues.ListsExactly | crates/openjd-expr/src/value.rs:1097-1125 | A range converts to a list type exactly when that takes ints and there are at most ten million values, and then to the list of its values. |
| CoercedValues.CoercesEach | crates/openjd-expr/src/value.rs:1127-1143 | Coercing the elements of a list coerces each in its place, and succeeds exactly when all do. |
| CoercedValues.RebuildsExactly | crates/openjd-expr/src/value.rs:1127-1143 | A list converts exactly when each of its elements coerces and the outcomes make a list, which is then the conversion. |
| CoercedValues.PreferenceRanks | crates/openjd-expr/src/value.rs:977-1007 | The order of preference among scalar types: for text int, float, bool, range, path; for a number the other kind of number before text. |
| CoercedValues.ScalarCoercion | crates/openjd-expr/src/value.rs:864-1068 | A scalar that does not satisfy the target becomes w exactly when w restates it in a type on offer and no more preferred type on offer can be reached; so it is rejected exactly when none can. |
| CoercedValues.RangeSpoken | crates/openjd-expr/src/value.rs:864-1068 | A range becomes its text where the target offers text. |
| CoercedValues.RangeListed | crates/openjd-expr/src/value.rs:1097-1125 | Otherwise it becomes the list of its values, exactly when a list of ints is on offer and there are at most ten million. |
| CoercedValues.ListCoercion | crates/openjd-expr/src/value.rs:864-1143 | A list that does not satisfy the target is rebuilt as a list type on offer, and none that its innermost elements prefer could be built. |
| CoercedValues.ListRejected | crates/openjd-expr/src/value.rs:864-1143 | It is rejected exactly when no list type on offer can be built. |
| CoercedValues.CoerceBecomes | crates/openjd-expr/src/value.rs:864-1143 | For every value and target, what coercion returns is the value, a restatement of it, the list of its range, or a list of what its elements become, one by one and in order. |
| Coercion.ToVec | crates/openjd-expr/src/range_expr.rs:568-572 | Expanding a range gives the flattened list; every value fits i64. |
| ListBuilding.MakeListKeeps | crates/openjd-expr/src/value.rs:525-740 | A built list has exactly the given elements in their order, each kept or promoted; only untyped empty lists are first given a type. |
| ListRules.MakesBools | crates/openjd-expr/src/value.rs:525-740 | Booleans make a list of exactly those booleans. |
| ListRules.MakesInts | crates/openjd-expr/src/value.rs:525-740 | Ints make a list of exactly those ints. |
| ListRules.MakesFloats | crates/openjd-expr/src/value.rs:606-623 | Numbers with a float among them make a list of floats, each int as its float. |
| ListRules.MakesStrings | crates/openjd-expr/src/value.rs:657-719 | Strings and paths with a string among them make a list of strings, each path as its own text. |
| ListRules.MakesPaths | crates/openjd-expr/src/value.rs:720-736 | Paths alone make a list of paths in the first one's format. |
| ListRules.MakesLists | crates/openjd-expr/src/value.rs:552-656 | Lists make a list of lists of the first one's type: ints beside floats come out as floats, otherwise paths beside strings as strings, an untyped empty list as an empty list of its first typed sibling's type, and every other list as it is. |
| ListRules.RefusesExactly | crates/openjd-expr/src/value.rs:525-740 | A list is refused exactly for an element that is a list of lists or unresolved, a third kind among ints and floats, a null in front, or, where no promotion applies, a scalar in front and another kind after it. |
| CoercionSound.MakeListFits | crates/openjd-expr/src/value.rs:525-740 | A list built from elements fitting U fits list[U]. |
| CoercionSound.CoerceFits | crates/openjd-expr/src/value.rs:864-1143 | What a value is coerced to is concrete and fits the target. |
| CoercionSound.EraseWider | crates/openjd-expr/src/types.rs:497-505 | Reading type variables as any only widens a constraint. |
| CoercionSound.FitsSatisfies | crates/openjd-expr/src/types.rs:428-460 | Fitting is satisfaction once no untyped empty list is involved and the target is usable throughout. |
| CoercionSound.ConvertTypeCovers | crates/openjd-expr/src/value.rs:1240-1268 | What a value converts to, its type converts to, and the promised type covers the result, except exactly for a string toward string, which has a row only in the value table. |
| CoercionSound.CoercionMirrored | crates/openjd-expr/src/value.rs:864-1268 | For every concrete value, every constraint its type satisfies and every variable-free target: if the value coerces, the result fits the target, the type-level coercion of the constraint succeeds, and its result covers the result's type. |
| CoercionTight.SatisfiedKept | crates/openjd-expr/src/value.rs:1203-1219 | A type, a union included, that satisfies the target is promised itself. |
| CoercionTight.PlainPromise | crates/openjd-expr/src/value.rs:1226-1268 | A source that is no union and does not satisfy the target is promised exactly the types its values may come out as: the scalar types on offer it restates as, the lists on offer for a list, list[int] for a range. |
| CoercionTight.PlainRejected | crates/openjd-expr/src/value.rs:1226-1268 | It is rejected exactly when there are none. |
| CoercionTight.AnyPromise | crates/openjd-expr/src/value.rs:1188-1199 | From any exactly the usable parts of the target are promised. |
| CoercionTight.UnionPromise | crates/openjd-expr/src/value.rs:1203-1214 | A union is promised exactly what its members are promised between them, and rejected exactly when they all are. |
| CoercionTight.PromiseFits | crates/openjd-expr/src/value.rs:1154-1238 | Whatever the source, variables and unresolved included, the promised type fits the target. |
| CoercionTight.ReachedExactly | crates/openjd-expr/src/value.rs:864-1238 | For types without variables: some value of the source type, on some platform, coerces to the target exactly when a part of the source that has values is accepted. |
| CoercionTight.AcceptedExactly | crates/openjd-expr/src/value.rs:864-1238 | So where every part of the source has values, the type level accepts exactly what some value reaches. |
| CoercionTight.ListInVain | crates/openjd-expr/src/value.rs:1203-1214 | A scalar type beside a list type without values is accepted toward a list type that none of its values reaches. |
| CoercionTight.AcceptedUnreached | crates/openjd-expr/src/value.rs:1203-1214 | It happens for int | list[noreturn] toward list[int]. |
| CoercionSound.CoercionSatisfies | crates/openjd-expr/src/value.rs:1154-1238 | For every value without an empty list in it the result satisfies the target and the promised type, in the strict sense. |
| CoercionSound.EmptyListPromise | crates/openjd-expr/src/value.rs:585-605 | An empty list coerces to every list target that denotes values; the result satisfies the promised type if and only if the list did already or the element type is not range_expr, not a union without nulltype, and not a list that fails to satisfy itself. |
| CoercionSound.EmptyRangesUnkept | crates/openjd-expr/src/value.rs:585-605 | The promise fails for the empty list toward list[range_expr]. |
| CoercionSound.EmptyPartlyUnkept | crates/openjd-expr/src/value.rs:585-605 | It fails toward list[list[int | list[noreturn]]]. |
| EmptyLists.NestedListPromise | crates/openjd-expr/src/value.rs:525-740 | A list that is not empty, coerced toward any list target, satisfies it if and only if it did already, or its coerced elements leave no untyped empty list in front, or such a list satisfies the element type. |
| EmptyLists.NestedEmptyUnkept | crates/openjd-expr/src/value.rs:525-740 | It does not for [[]] toward list[list[range_expr]]. |
| Dispatch.TryCoerceTypes | crates/openjd-expr/src/function_library.rs:522-543 | Pushes exactly the coerced types, or fails where one argument type has no rule. |
| Dispatch.TryCoerceArgs | crates/openjd-expr/src/function_library.rs:546-582 | Pushes exactly the coerced values, and fails where one has no rule or nothing changes. |
| Dispatch.CallCoerced | crates/openjd-expr/src/function_library.rs:209-233 | Phase two picks the first overload whose coercion succeeds, on types with an unresolved argument and on values without. |
| Dispatch.CallInner | crates/openjd-expr/src/function_library.rs:167-262 | The three sequential phases pick what the specification says and pass on the coerced arguments. |
| DispatchRules.TypesAdapt | crates/openjd-expr/src/function_library.rs:522-543 | Argument types coerce to parameter types exactly when each is equal to its parameter, meets any or a type with variables and stays as it is, or is an int for a float or a path for a string outside a fixed receiver and becomes the parameter's type. |
| DispatchRules.ArgsAdapt | crates/openjd-expr/src/function_library.rs:546-582 | Argument values coerce exactly when each has its parameter's type or is an int for a float or a path for a string outside a fixed receiver, and one differs. |
| DispatchRules.ChoiceExactly | crates/openjd-expr/src/function_library.rs:167-262 | A call picks, exactly: the first overload without variables that matches; failing those the first without variables where every argument has its parameter's type or is an int for a float or a path for a string outside a fixed receiver, and one differs; failing those the first with variables that matches, as it stands or so adapted. With placeholders an any parameter takes everything and none need differ. |
| DispatchRules.PassedExactly | crates/openjd-expr/src/function_library.rs:546-605 | Each value passed on is its argument, the float of its int, or its path's own text, as the chosen overload's types ask. |
| Dispatch.CoercionsAgree | crates/openjd-expr/src/function_library.rs:522-582 | Where an overload is not an exact match, value coercion accepts exactly what type coercion accepts without an any parameter, and gives values of the promised types. |
| Dispatch.ChoiceUnchanged | crates/openjd-expr/src/function_library.rs:167-262 | Replacing arguments by placeholders of their types changes the choice if and only if no overload matches their types and the first overload without type variables that they coerce to takes any. |
| Dispatch.ChoiceChanges | crates/openjd-expr/src/function_library.rs:167-262 | It does change for one overload taking any and float, called with a string and an int. |
| Dispatch.ChoiceIndependent | crates/openjd-expr/src/function_library.rs:167-262 | In a library without any parameters, placeholders and values pick the same overload in the same phase, and find none in the same cases. |
| ValueEquality.IntFloatExact | crates/openjd-expr/src/value.rs:127-168 | Integer against float equality and ordering are those of the reals. |
| ValueEquality.PrimitiveListsEq | crates/openjd-expr/src/value.rs:100-116 | Answers list equality within the budget, charged one per comparison made; runs out exactly when those exceed it. |
| ValueEquality.EqualsCharged | crates/openjd-expr/src/value.rs:1681-1753 | Gives the answer of equals exactly when the comparisons it takes fit the budget, and charges exactly those. |
| EqualityLaws.ComparedExactly | crates/openjd-expr/src/value.rs:100-116 | The comparisons made are those up to and including the first pair that differs, and none for lists of different lengths. |
| EqualityLaws.WalkedExactly | crates/openjd-expr/src/value.rs:1712-1730 | The same for lists walked value by value, each pair one step and what comparing the two takes. |
| ValueEquality.ShortcutsAgree | crates/openjd-expr/src/value.rs:1696-1730 | The same-variant shortcuts decide what the generic element walk decides. |
| ValueEquality.EqualsContent | crates/openjd-expr/src/value.rs:1681-1753 | Equality is sameness of content, numbers by real value and text without its kind, unless a list of ints meets a range. |
| ValueEquality.EqualsEquivalence | crates/openjd-expr/src/value.rs:1681-1753 | On values without ranges equality is reflexive, symmetric and transitive. |
| EqualityLaws.EqualsExactly | crates/openjd-expr/src/value.rs:1681-1753 | Any two values are equal exactly when they hold the same values in the same places, ranges written out, and nowhere does a range stand against another cut or against a list that is not of ints. |
| EqualityLaws.EqualsLaws | crates/openjd-expr/src/value.rs:1681-1753 | On all values equality is reflexive and symmetric, and a chain of two equalities closes if and only if its ends do not clash in that way. |
| EqualityLaws.RangesNotTransitive | crates/openjd-expr/src/value.rs:1732-1749 | It does not close for 1-3:2, [1, 3] and 1,3, nor for 1-3:2, [1, 3] and [1.0, 3.0]. |
| EqualityLaws.CanonicalRangesEqual | crates/openjd-expr/src/value.rs:1732-1749 | Ranges built from values are equal, and feed the hasher alike, exactly when they hold the same values. |
| ValueEquality.FeedContent | crates/openjd-expr/src/value.rs:338-438 | What is fed to the hasher depends on content alone, for stored paths that are separator-normalized. |
| PathLists.BuiltPathsNormal | crates/openjd-expr/src/value.rs:720-736 | A list built from paths stores them separator-normalized if and only if they are normalized for the format of the first. |
| PathLists.OneFormatNormal | crates/openjd-expr/src/value.rs:720-736 | Normalized paths of one format always are. |
| PathLists.FormatsMixed | crates/openjd-expr/src/value.rs:720-736 | A POSIX path after a Windows one need not be. |
| ValueEquality.EqualHash | crates/openjd-expr/src/value.rs:338-438 | Equal values feed the hasher the same data if and only if no list of ints stands against a range in them. |
| EqualityLaws.RangeHashesApart | crates/openjd-expr/src/value.rs:338-438 | Every range equals the list of its values and feeds the hasher otherwise. |
| ValueEquality.CompareAgrees | crates/openjd-expr/src/value.rs:1757-1803 | Where two values compare at all, they compare as equal exactly when they are equal. |
| EqualityLaws.CompareReversed | crates/openjd-expr/src/value.rs:1757-1803 | Comparing the other way round gives the reverse, or fails as well. |
| EqualityLaws.CompareNumbers | crates/openjd-expr/src/value.rs:127-168 | Numbers, int or float, compare as reals. |
| EqualityLaws.ScalarsOrdered | crates/openjd-expr/src/value.rs:1757-1803 | False comes before true, and text, a path's own included, is ordered by the first character that differs, a prefix first. |
| EqualityLaws.ListsOrdered | crates/openjd-expr/src/value.rs:1776-1795 | Lists compare as the first elements that do not compare as equal, and by length when there are none. |
| EqualityLaws.ComparableKinds | crates/openjd-expr/src/value.rs:1757-1803 | Of values that are not both lists, exactly two numbers, two booleans or two texts compare. |
| EqualityLaws.CompareTransitive | crates/openjd-expr/src/value.rs:1757-1803 | Where a is at most b and b at most c, a and c compare, and a is at most c; strictly so if either step is. |
| FormatStrings.FindPair | crates/openjd-expr/src/format_string.rs:754-823 | The first doubled brace, or none. |
| FormatStrings.ReadStep | crates/openjd-expr/src/format_string.rs:754-823 | One turn of the parsing loop, errors included. |
| FormatStrings.ParseSegments | crates/openjd-expr/src/format_string.rs:754-823 | The loop over the input gives the segments of the recursive form, or its error. |
| FormatStrings.ParseFormat | crates/openjd-expr/src/format_string.rs:94-114 | The same under the caps of 1 MiB and 1,000 segments. |
| FormatStrings.SegmentsTile | crates/openjd-expr/src/format_string.rs:754-823 | For every accepted input the segments cover it exactly and in order; literals hold no doubled brace, are never adjacent and do not run into the braces after them; an interpolation runs to the first closing pair and keeps its trimmed, accepted text. |
| FormatStrings.TilesParse | crates/openjd-expr/src/format_string.rs:754-823 | Segments that tile the input in this way are the ones found, so an input is rejected exactly when nothing tiles it. |
| FormatStrings.Escaping | crates/openjd-expr/src/format_string.rs:1052-1067 | The escaping loop for given replacement texts. |
| FormatStrings.EscapeFormatString | crates/openjd-expr/src/format_string.rs:1052-1067 | The loop with the two interpolations the source writes. |
| FormatStrings.EscapeReadsBack | crates/openjd-expr/src/format_string.rs:1052-1067 | For any pair of interpolations that read back as the braces: escaped text parses and renders to the original exactly when no lone `{` stands before `}}`. |
| FormatStrings.EscapeRoundTrip | crates/openjd-expr/src/format_string.rs:1052-1067 | Escaped text parses if and only if no lone `{` stands directly before `}}` in the original and the text and its segments are within the caps; the segments then render as the original. |
| FormatStrings.EscapeShape | crates/openjd-expr/src/format_string.rs:1052-1067 | Without such a brace the escaped text has one expression for each doubled brace, and one literal for each run between them. |
| FormatStrings.EscapeFails | crates/openjd-expr/src/format_string.rs:1052-1067 | For `{}}` it does not parse. |
| FormatResolution.AddSegment | crates/openjd-expr/src/format_string.rs:181-203 | One segment of resolution: text appended and bytes charged, or the error. |
| FormatResolution.ResolveString | crates/openjd-expr/src/format_string.rs:169-204 | Resolution to text succeeds exactly when every expression evaluates and the charged bytes stay within the limit, and then gives the concatenation. |
| FormatResolution.EscapeAndResolve | crates/openjd-expr/src/format_string.rs:1052-1067 | Escaping, parsing and resolving give the string back if and only if no lone `{` stands directly before `}}`, the caps are met and two bytes for each doubled brace are within the limit; nothing else ever comes out. |
| FormatResolution.Resolve | crates/openjd-expr/src/format_string.rs:206-220 | A lone expression keeps its typed value; anything else resolves to text. |
| FormatResolution.ValidateValue | crates/openjd-expr/src/format_string.rs:356-458 | One expression of validation keeps the running state true of the segments seen, or is over budget. |
| FormatResolution.ValidateLiteral | crates/openjd-expr/src/format_string.rs:325-338 | One literal does, too, the cap on the concatenation included. |
| FormatResolution.Validate | crates/openjd-expr/src/format_string.rs:280-485 | Validation succeeds exactly when every expression evaluates and the known bytes stay within the limit; it returns the saturated minimum length, the determined value if there is one, and the static type. |
| FormatResolution.PrefixFilled | crates/openjd-expr/src/format_string.rs:280-485 | However unknown symbols are filled in, resolution renders and charges at least what validation counted, and exactly that where everything was known. |
| FormatResolution.ValidationSound | crates/openjd-expr/src/format_string.rs:280-485 | For every filling-in of unknown symbols, any resolution has at least the promised number of characters, a promised value is exactly what resolution returns, and it has the promised type, as has all text with more than a lone expression in it. |
| FormatResolution.LengthAttained | crates/openjd-expr/src/format_string.rs:280-485 | The promised length is attained: with the empty string for every unknown expression the string resolves, to exactly that many characters. |
| FormatResolution.PassesExactly | crates/openjd-expr/src/format_string.rs:280-485 | A string that is not a lone expression passes validation exactly when it resolves with nothing in place of each unknown. |
| FormatResolution.LonePasses | crates/openjd-expr/src/format_string.rs:280-485 | A lone expression passes exactly when it evaluates and its text, if known, is within the budget. |
| FormatResolution.ValueExactly | crates/openjd-expr/src/format_string.rs:280-485 | A value is promised exactly when every expression evaluates to a known value and the text is at most 10 MiB, or is a lone expression's. |
| FormatResolution.TypeForetold | crates/openjd-expr/src/format_string.rs:356-380 | Of a lone unknown expression the promised type is the one the unknown is constrained to. |
| FormatResolution.ChargedForText | crates/openjd-expr/src/format_string.rs:169-204 | What resolution charges is the UTF-8 length of the text it renders less that of the literals. |
| FormatResolution.ShownInPlace | crates/openjd-expr/src/format_string.rs:181-203 | Each expression's text stands where the expression stood: nothing for null, strings and paths their own, anything else its display form. |
| FormatResolution.ChargeForetold | crates/openjd-expr/src/format_string.rs:421-447 | For every string that is not a lone expression, over budget at validation means resolution fails. |
| FormatResolution.LoneExpressionCharged | crates/openjd-expr/src/format_string.rs:206-220 | A lone expression with a known value always resolves, and passes validation exactly when its text is within the limit. |
| FormatResolution.LoneExpressionOverBudget | crates/openjd-expr/src/format_string.rs:206-220 | A one-byte value under a limit of 0 fails validation and resolves. |
| Redaction.FindFrom | crates/openjd-sessions/src/action_filter.rs:251-254 | The first occurrence from a position on, or none. |
| Redaction.Occurrences | crates/openjd-sessions/src/action_filter.rs:244-256 | Every occurrence of one value, overlapping ones included; no result exactly when the byte step after an occurrence would split a character. |
| Redaction.AllOccurrences | crates/openjd-sessions/src/action_filter.rs:244-256 | The same for all recorded values, whatever order the set is walked in. |
| Redaction.MergeOverlapping | crates/openjd-sessions/src/action_filter.rs:261-271 | Merging sorted intervals covers the same positions with separated intervals. |
| Redaction.ReplaceMerged | crates/openjd-sessions/src/action_filter.rs:273-279 | Replacing from the last interval back gives the line with each maximal covered run masked once and all else kept in order. |
| Redaction.ApplyRedaction | crates/openjd-sessions/src/action_filter.rs:233-280 | The whole pass: a recorded line becomes the mask; otherwise exactly the maximal covered runs are masked; None exactly for the panic. |
| Redaction.TwoByteValuePanics | crates/openjd-sessions/src/action_filter.rs:244-256 | A recorded two-byte character in a line gives no result. |
| Redaction.MaskedHides | crates/openjd-sessions/src/action_filter.rs:233-280 | No recorded value is left in a masked line that neither starts nor ends with `*` and holds no mask. |
| Redaction.RedactedHides | crates/openjd-sessions/src/action_filter.rs:233-280 | Nor in any line that comes out of redaction, and no recorded line or value without a mask in it comes out as a line. |
| Redaction.NothingToHide | crates/openjd-sessions/src/action_filter.rs:233-280 | A line that is not recorded and in which no recorded value occurs comes out as it is. |
| Redaction.HiddenExactly | crates/openjd-sessions/src/action_filter.rs:233-280 | A value is hidden in every line, whatever else is recorded, if and only if it neither starts nor ends with `*` and holds no mask. |
| Redaction.LineHiddenExactly | crates/openjd-sessions/src/action_filter.rs:233-280 | A recorded line never comes out as a line, whatever else is recorded, if and only if it holds no mask. |
| Redaction.Exposed | crates/openjd-sessions/src/action_filter.rs:233-280 | With one more value recorded next to it, a line that does not hold the value comes out with a mask where the value has stars; likewise for a recorded line. |
| ActionFilters.ActionFilter.constructor | crates/openjd-sessions/src/action_filter.rs:101-110 | A new filter has no secrets and log level INFO. |
| ActionFilters.ActionFilter.AddRedactedValues | crates/openjd-sessions/src/action_filter.rs:118-124 | Seeding adds exactly the non-empty values. |
| ActionFilters.ActionFilter.FilterMessage | crates/openjd-sessions/src/action_filter.rs:130-229 | The new state and everything returned for one message, by the step the run theorems are about. |
| ActionFilters.ActionFilter.RecordSecrets | crates/openjd-sessions/src/action_filter.rs:390-478 | What a redacted_env directive records, well formed or not. |
| ActionFilters.ActionFilter.RecordParts | crates/openjd-sessions/src/action_filter.rs:405-416 | First and last lines of a value go to the values, those between to the lines. |
| ActionFilters.SecretsGrow | crates/openjd-sessions/src/action_filter.rs:130-229 | Over every run the secret sets only grow. |
| ActionFilters.NoSecretLater | crates/openjd-sessions/src/action_filter.rs:130-280 | Over every run, once a value that neither starts nor ends with `*` and holds no mask is recorded, no later line of this session other than a redacted_env directive contains it; and no recorded line or value without a mask comes out as a line. |
| ActionFilters.ValueRecorded | crates/openjd-sessions/src/action_filter.rs:390-440 | A redacted_env directive with a well-formed assignment records its whole value and all lines of it. |
| ActionFilters.ValueHidden | crates/openjd-sessions/src/action_filter.rs:390-478 | After that, no later line contains such a value, or is one of its lines when that line holds no mask. |
| ActionFilters.ShownPrefix | crates/openjd-sessions/src/action_filter.rs:481-497 | The line shown for a redacted_env directive is the original up to the first `=`, or its name, followed by the mask. |
| ActionFilters.ShownSecrets | crates/openjd-sessions/src/action_filter.rs:481-497 | Over every run, the line shown for a redacted_env directive contains a secret that does not end with `*` exactly when the directive up to its first `=` does, whether or not it was recorded before. |
| ActionFilters.NameShown | crates/openjd-sessions/src/action_filter.rs:481-497 | In every run, a directive whose variable name contains a secret shows it. |
| ActionFilters.EarlierSecretShown | crates/openjd-sessions/src/action_filter.rs:481-497 | A run of two directives in which the value recorded by the first is shown as the name in the second. |
| ActionFilters.SecretHandedOn | crates/openjd-sessions/src/action_filter.rs:130-229 | Callbacks are not masked: over every run one of a message's callbacks carries a secret exactly when the directive itself hands it on, stated directive by directive. |
| ActionFilters.StatusHandsOn | crates/openjd-sessions/src/action_filter.rs:130-229 | A status that repeats a recorded value is masked in the line and hands the value to its callback. |
| DirectiveRules.DirectiveExactly | crates/openjd-sessions/src/action_filter.rs:42-65 | A line is a directive exactly when it is openjd_, one of the seven names, a colon and a space, and a payload. |
| DirectiveRules.NameExactly | crates/openjd-sessions/src/action_filter.rs:85-86 | A variable name is a letter or underscore followed by letters, digits and underscores. |
| DirectiveRules.ReadsExactly | crates/openjd-sessions/src/action_filter.rs:302-351 | After any blanks an assignment reads exactly as a name, `=` and a value on one line without NUL; or in quotation marks as what the text decodes to, split at its first `=`. |
| DirectiveRules.TextAnswered | crates/openjd-sessions/src/action_filter.rs:130-164 | A status or failure calls back under its own kind with its payload. |
| DirectiveRules.ProgressAnswered | crates/openjd-sessions/src/action_filter.rs:287-300 | A progress calls back its number if that is from 0 to 100, and is otherwise only shown as wrong. |
| DirectiveRules.EnvAnswered | crates/openjd-sessions/src/action_filter.rs:353-360 | An assignment calls back its name and value. |
| DirectiveRules.EnvRefused | crates/openjd-sessions/src/action_filter.rs:165-176 | One that does not parse cancels the action with the reason. |
| DirectiveRules.UnsetAnswered | crates/openjd-sessions/src/action_filter.rs:362-372 | An unset calls back the variable's name, or cancels the action. |
| DirectiveRules.LevelAnswered | crates/openjd-sessions/src/action_filter.rs:374-388 | One of the four log levels takes effect and is called back; anything else changes nothing. |
| DirectiveRules.RedactedAnswered | crates/openjd-sessions/src/action_filter.rs:390-497 | A redacted assignment calls back its name and value, one that does not parse cancels the action unless redactions are enabled, and the line ends, masked, at its first `=` or the directive's name. |
| DirectiveRules.OtherPassed | crates/openjd-sessions/src/action_filter.rs:212-229 | A line that is no directive is passed on as it is, masked. |
| DirectiveRules.OtherRefused | crates/openjd-sessions/src/action_filter.rs:67-80 | Unless, in any case and after blanks, it begins with one of the three environment commands, alone or before a colon or a space: then it cancels the action. |
| DirectiveRules.NothingRecorded | crates/openjd-sessions/src/action_filter.rs:130-229 | Only redacted_env directives of this session record anything, and lines of other sessions are left alone. |
| DirectiveRules.RecordsExactly | crates/openjd-sessions/src/action_filter.rs:405-416 | Over every run, a redacted assignment records exactly its value with the value's first and last lines, and separately the lines between; nothing empty. |
| DirectiveRules.SalvagedExactly | crates/openjd-sessions/src/action_filter.rs:445-454 | Over every run, a redacted_env directive whose assignment does not parse records exactly the text after the line's first `=`, or without one the payload from its first character that is not blank; nothing empty. |
| DirectiveRules.SalvagedHidden | crates/openjd-sessions/src/action_filter.rs:445-478 | So no later line of this session contains that text when it can be hidden, or is that text when it holds no mask. |
| EditDistance.FillRow | crates/openjd-expr/src/edit_distance.rs:22-29 | One pass of the inner loop fills the row of distances to the next prefix. |
| EditDistance.ComputeDistance | crates/openjd-expr/src/edit_distance.rs:9-33 | The two swapped rows compute the recursive Levenshtein distance. |
| EditDistance.DistanceMetric | crates/openjd-expr/src/edit_distance.rs:9-33 | The distance is symmetric, zero exactly on equal strings, obeys the triangle inequality and lies between the difference and the maximum of the lengths. |
| EditDistance.DistanceLeast | crates/openjd-expr/src/edit_distance.rs:9-33 | It is the length of a shortest sequence of single-character insertions, deletions and substitutions. |
| EditDistance.SuggestClosest | crates/openjd-expr/src/edit_distance.rs:40-67 | The message names exactly the kept symbols at distance at most 5 that no kept symbol is nearer than, sorted when there are several. |
| EditDistance.SkipIsHarmless | crates/openjd-expr/src/edit_distance.rs:45-49 | The length skip never drops a symbol nearer than 5: when one exists, the names are the nearest of all available symbols. |
| SymbolTables.JoinSplit | crates/openjd-expr/src/symbol_table.rs:163 | Splitting a key at dots and joining gives the key back, with dot-free components. |
| SymbolTables.SplitJoin | crates/openjd-expr/src/symbol_table.rs:163 | Joining dot-free components and splitting gives them back. |
| SymbolTables.SymbolTable.constructor | crates/openjd-expr/src/symbol_table.rs:108-112 | A new table is empty. |
| SymbolTables.SymbolTable.Get | crates/openjd-expr/src/symbol_table.rs:208-219 | The walk finds what the path leads to. |
| SymbolTables.WalkDown | crates/openjd-expr/src/symbol_table.rs:176-190 | The walk to the last component, creating missing tables, stops only at a value in the way, and then has created nothing. |
| SymbolTables.SymbolTable.SetValue | crates/openjd-expr/src/symbol_table.rs:162-200 | Succeeds exactly when the path is not a table and runs through no value; a failed set leaves the whole table unchanged and names the component in the way. |
| SymbolTables.SetSucceeds | crates/openjd-expr/src/symbol_table.rs:162-200 | The recursive form succeeds under the same condition. |
| SymbolTables.SetChangesOnlyThere | crates/openjd-expr/src/symbol_table.rs:162-200 | A successful set changes the value at its own path and at no other. |
| SymbolTables.SetKeyOnly | crates/openjd-expr/src/symbol_table.rs:158-200 | The same in terms of dotted keys. |
| SymbolTables.FromPairs | crates/openjd-expr/src/symbol_table.rs:119-128 | Sets the pairs in turn, stopping at the first conflict. |
| SymbolTables.MergeEntries | crates/openjd-expr/src/symbol_table.rs:280-296 | Merging key by key, in whatever order, gives the recursive merge. |
| SymbolTables.SymbolTable.MergeFrom | crates/openjd-expr/src/symbol_table.rs:280-296 | The table becomes its merge with the other one. |
| SymbolTables.MergeLookup | crates/openjd-expr/src/symbol_table.rs:280-296 | After merging, a path has the other table's value where it has one, nothing where the other has a table there or a value above it, and the old value elsewhere. |
| SymbolTables.DotFreeKept | crates/openjd-expr/src/symbol_table.rs:162-296 | Setting and merging keep components free of dots. |
| SymbolTables.KeyPathsAny | crates/openjd-expr/src/symbol_table.rs:265-277 | The listing does not depend on the order the map is walked in. |
| SymbolTables.CollectPaths | crates/openjd-expr/src/symbol_table.rs:265-277 | Collecting appends exactly the paths of the listing. |
| SymbolTables.SymbolTable.AllPaths | crates/openjd-expr/src/symbol_table.rs:258-263 | The sorted listing of all leaf paths. |
| SymbolTables.LeafNamed | crates/openjd-expr/src/symbol_table.rs:265-277 | In a table without dots inside components the listing names a leaf exactly when the leaf has one component or a non-empty first one. |
| SymbolTables.RebuildReproduces | crates/openjd-expr/src/symbol_table.rs:258-277 | In such a table, re-setting the listed leaves in an empty table succeeds and reproduces every lookup if and only if no leaf of several components starts with an empty one. |
| SymbolTables.KeyListed | crates/openjd-expr/src/symbol_table.rs:258-277 | In any table the listing has a key exactly when some leaf is listed under it. |
| SymbolTables.KeyReproduced | crates/openjd-expr/src/symbol_table.rs:119-277 | In any table and for any list of paths, re-setting the values found under them succeeds, and the lookup of a key is reproduced if and only if the key, when it has a value, is on the list. |
| SymbolTables.RebuildKeys | crates/openjd-expr/src/symbol_table.rs:119-277 | Rebuilding any table from its listing reproduces the lookup of every key if and only if each key with a value that starts with a dot is what some leaf is listed under. |
| SymbolTables.RebuildLoses | crates/openjd-expr/src/symbol_table.rs:258-277 | A table with one leaf under the empty key loses it. |
| PythonLiterals.SelectQuote | crates/openjd-expr/src/py_escape.rs:65-80 | Double quotes exactly when the value has a single and no double one. |
| PythonLiterals.WriteChar | crates/openjd-expr/src/py_escape.rs:36-50 | One character appended in its escaped form. |
| PythonLiterals.WriteLiteral | crates/openjd-expr/src/py_escape.rs:33-53 | For every string the text appended is a Python literal for it, with no unescaped delimiter and nothing unprintable, at most four times its UTF-8 length plus the quotes, and escaped only where there is need. |
| PythonLiterals.LiteralReadsBack | crates/openjd-expr/src/py_escape.rs:33-106 | Reading the literal by section 2.4.1.1 of the Python 3.12 Language Reference gives the string back. |
| PythonLiterals.CodePointReads | crates/openjd-expr/src/py_escape.rs:97-106 | The narrowest numeric escape reads back as its character. |
| JsonLiterals.WriteUnits | crates/openjd-expr/src/json_escape.rs:40-45 | The inner loop writes one escape per UTF-16 unit. |
| JsonLiterals.WriteChar | crates/openjd-expr/src/json_escape.rs:28-47 | One character appended in its escaped form, in either mode. |
| JsonLiterals.WriteEscaped | crates/openjd-expr/src/json_escape.rs:27-49 | For every string and both modes the text appended reads back up to the first quotation mark after it, is at most six times the UTF-8 length, and is ASCII in the ASCII mode. |
| JsonLiterals.BodyReads | crates/openjd-expr/src/json_escape.rs:27-49 | Reading the body by section 7 of RFC 8259 gives the string back; no quotation mark inside it is bare. |
| JsonLiterals.UnitsRead | crates/openjd-expr/src/json_escape.rs:40-45 | A surrogate pair reads back as the character it was made from. |

## Left out

- Signatures as nested types, and types with the wrong number of parameters: they can only be built by hand, and a signature appears here as the parameter and return types of an overload.
- IEEE-754 rounding, NaN and infinities, preserved float spellings and `format_float`.
- The expression parser, the evaluator and the function implementations: they are parameters.
- Error message texts, spans and carets; the model keeps which error it is.
- `derive_return_type`, which tries overloads in another order than `call_inner` does.
- The rendering of unresolved values, ranges and lists as display text: a parameter.
- Iteration and memory estimates of ranges and values (`iter`, `heap_size`), and clamps for a 32-bit `usize`.
- Path mapping, URI paths, budgeted vectors, profiles and capabilities: sound but easier.
- Serialization of symbol tables and ranges beyond the listing of leaves.
- `copy_symbol_value`, which stores a dotted key unsplit, and `set_table` with such a key, as operations: `DotFreeKept` shows that setting and merging keep components without dots, and `RebuildKeys` holds of tables with them too.
- `redact_openjd_redacted_env_requests`, the command-line counterpart of the filter.
- Process, file and user handling of the sessions crate; command-line, JavaScript and Python bindings.
- PythonLiterals.LiteralReadsBack: the reader has no table of character names, so `\N{...}` reads as nothing; the printer never writes it.
- CoercionSound.CoercionSatisfies: for values without empty lists; with them, `EmptyListPromise` and `NestedListPromise` give the exact condition toward list targets, and toward a union only `CoercionMirrored` applies.
