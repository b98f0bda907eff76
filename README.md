# Dotted Version Vector Sets in Dafny

A model of the `tsdvv` library: a TypeScript port of the Erlang `dvvset`
Dotted Version Vector Set. A clock is a pair. The first part is a list of
entries `(id, counter, values)`, kept sorted by id, with the values of each
entry most-recent-first. The second part is a list of anonymous values,
which are values not yet given a dot. The library stamps new events on a
replica id (`event`, `create`, `update`). It merges concurrent replicas
(`sync`, built from `_sync`, `_sync2` and `_merge`). It compares causal
histories (`less`, `equal`). It answers queries (`join`, `size`, `ids`,
`values`).

Modules, in dependency order:

- `Wrappers`: the `Option` type.
- `Order`: `cmp_fun` (src/utils/index.ts).
  - On strings it is modelled as `StrGreater`, a recursive lexicographic comparison.
  - `StrGreater` is proved equal to the usual "common prefix, then a larger character or a longer string" definition.
  - It is proved to be a strict total order.
- `Clocks`: the data model (src/lib/Clock.ts).
  - Datatypes for entries and clocks.
  - The `Sorted` and `Bounded` invariants (`|values| <= counter`).
  - `Find`.
  - `ClockCell`, a class holding the pair in a mutable `list` field, as the source's `Clock` object does.
- `Dvv`: every operation of src/lib/Dvv.ts.
  - The recursions are functions.
  - `event` comes twice. `EventAsWritten` is line 164 as the source has it: the tail entries leave the list (see Findings). `Event` is the corrected definition. `CreateAsWritten` and `UpdateAsWritten` are the source's `create` and `update` over the first. `Create` and `Update`, over the second, are what the rest of the model uses.
  - The loops are methods proved equal to those functions: the loop in `new_with_history`, the `Set` loops in `defineValues`, and the `reduce` loops in `join`, `size` and `values`.
- `Causality`: proves that `_greater`/`less` on sorted lists is strict covering. One list covers another when it has every id of the other with a counter at least as large. `less` is then irreflexive, asymmetric and transitive.
- `Merging`: properties of `_merge`, `_sync2`, `_sync` and `sync`.
  - Sortedness is kept and the ids are the union.
  - The result is the least common cover.
  - Argument order changes neither ids nor counters.
  - Syncing a clock with itself keeps its entries, and returns the whole clock when its anonymous values have no repeats.
  - Well-formedness is kept.
  - Grouping changes neither ids, counters nor value counts, but it can change the anonymous values.
- `Stamping`: properties of `event`, `create` and `update`.
  - For the corrected `event`: the doc comment's promise holds, i.e. `update` gives a clock causally newer than both arguments.
  - For `event` as written: the two definitions agree when no entry before the last carries the stamped id. The promise therefore holds when that id is the greatest one so far, as in every test. Concrete clocks show it failing otherwise.
- `Queries`: the `join` round trip through `new_with_history`, and what `equal` compares.
- `Examples`: the scenarios of tests/dvv.test.ts as lemmas about concrete clocks.

Ids are strings, values are an arbitrary type `V`, and counters are
unbounded integers. `event` places a new id before the first entry whose id
is *longer*, not by the id order (src/lib/Dvv.ts:168). So `event` is guaranteed
to keep the entries sorted when two conditions hold: every id has the same
length as the stamped id, and the stamped id is either present already or
greater than every id (`Stamping.EventSorted`).
`Examples.EventIgnoresIdOrder` shows one failure for each condition:
`[b]` becomes `[b, a]`, breaking the second, and `[bb]` becomes `[c, bb]`,
breaking the first. The theorems about `event`, `create` and `update`
assume ids of equal length, as every scenario in the test file has. The anonymous values of
`sync`'s concurrent case are the duplicate-free union in first-occurrence
order, clock1's first, as the source's `Set` yields them.

## Model

| member | source | states |
|---|---|---|
| Order.CmpFun | src/utils/index.ts:4-11 | on two strings it is lexicographic "greater than"; on two numbers it is `>`; a string against a number is false in both directions |
| Order.StrGreaterIsLex | src/utils/index.ts:5-7 | the recursive id comparison holds exactly when there is a common prefix after which the first string is longer or has the larger character |
| Order.StrGreaterIrreflexive | src/utils/index.ts:5-7 | no id is greater than itself |
| Order.StrGreaterAsymmetric | src/utils/index.ts:5-7 | if a > b then not b > a |
| Order.StrGreaterTransitive | src/utils/index.ts:5-7 | a > b and b > c give a > c |
| Order.StrGreaterTrichotomous | src/utils/index.ts:5-7 | two ids are equal or one is greater than the other |
| Order.CmpFunStrictTotalOrder | src/utils/index.ts:4-11 | on all-string or all-number arguments `cmp_fun` is irreflexive, asymmetric, transitive and total |
| Clocks.ClockCell.constructor | src/lib/Clock.ts:12-14 | the object holds exactly the pair (entries, values) |
| Clocks.ClockCell.GetEntries | src/lib/Clock.ts:16-18 | returns the first component of the pair |
| Clocks.ClockCell.GetValues | src/lib/Clock.ts:20-22 | returns the second component of the pair |
| Clocks.ClockCell.GetList | src/lib/Clock.ts:24-26 | the pair whose components the two getters return |
| Clocks.ClockCell.SetList | src/lib/Clock.ts:28-30 | replaces the whole pair and changes nothing else |
| Dvv.NewDvv | src/lib/Dvv.ts:12-14 | a well-formed clock with no history and the single anonymous value |
| Dvv.NewList | src/lib/Dvv.ts:19-21 | a well-formed clock with no history and the given anonymous values |
| Dvv.FromContext | src/lib/Dvv.ts:32-38 | builds entries whose causal context is exactly the given one, each with no values |
| Dvv.NewListWithHistory | src/lib/Dvv.ts:29-47 | `new_list_with_history` on a list: the loop of `new_with_history` builds one empty-valued entry per dot, in order, and the list becomes the anonymous values |
| Dvv.NewWithHistory | src/lib/Dvv.ts:23-40 | `new_with_history` on one value: the same entries, and that value as the only anonymous value |
| Dvv.Context | src/lib/Dvv.ts:113-118 | one dot per entry, in order, carrying that entry's id and counter |
| Dvv.Join | src/lib/Dvv.ts:113-118 | the `reduce`/`push` loop returns exactly the causal context of the entries |
| Dvv.Ids | src/lib/Dvv.ts:190-192 | the list of the entries' ids, position by position |
| Dvv.Flatten | src/lib/Dvv.ts:199-205 | every flattened value comes from some entry, and every entry's values occur in it |
| Dvv.ValueCount | src/lib/Dvv.ts:180-185 | the number of entry values is the length of their flattening |
| Dvv.Size | src/lib/Dvv.ts:180-185 | the loop gives the anonymous count plus the sum of the value-list lengths, which is the length of `values(c)` |
| Dvv.Values | src/lib/Dvv.ts:198-206 | the loop returns the anonymous values followed by every entry's values in entry order |
| Dvv.Event | src/lib/Dvv.ts:157-175 | `event` with line 164 corrected: ids of the result are the old ids plus `id`; entries of other ids are unchanged; `|values| <= counter` is kept; at most one entry is added |
| Dvv.EventAsWritten | src/lib/Dvv.ts:157-175 | `event` as written: every id of the result is an old id or `id`; `id` is present; at most one entry is added |
| Dvv.Create | src/lib/Dvv.ts:125-131 | `create` on the corrected `event`: no anonymous values remain; ids are the old ones plus `id`; `|values| <= counter` is kept |
| Dvv.CreateAsWritten | src/lib/Dvv.ts:125-131 | `create` as written: no anonymous values remain; every id is an old one or `id`, and `id` is present |
| Dvv.Update | src/lib/Dvv.ts:144-155 | `update` on the corrected `event`: every surviving anonymous value comes from the second clock; ids are the union of both plus `id`; `|values| <= counter` is kept |
| Dvv.UpdateAsWritten | src/lib/Dvv.ts:144-155 | `update` as written: every surviving anonymous value comes from the second clock; every id is one of either clock or `id`, and `id` is present |
| Dvv.Merge | src/lib/Dvv.ts:95-108 | counter is the max, ties to the first side; values are a prefix of the winning side's values; the dropped count is the larger of the two dropped counts |
| Dvv.MergeEntries | src/lib/Dvv.ts:89-90 | the merge of two heads with the same id: keeps the first head's id, takes the larger counter and the larger dropped count; `Merging.Sync2Find` places it in `_sync2`'s result |
| Dvv.Sync2 | src/lib/Dvv.ts:74-93 | ids are the union of both lists; `|values| <= counter` is kept; no longer than both lists together |
| Dvv.SyncValues | src/lib/Dvv.ts:62-68 | `defineValues`: every surviving value comes from one of the clocks, and for concurrent clocks every value of either is kept; `Merging.SyncCommutes` shows the argument order does not change which values survive |
| Dvv.Dedup | src/lib/Dvv.ts:65-68 | exactly the elements of the input, each once |
| Dvv.AddEach | src/lib/Dvv.ts:66-67 | one loop adding each element not yet present extends the duplicate-free list of the values seen so far |
| Dvv.InsertionOrderedUnion | src/lib/Dvv.ts:65-68 | the two loops filling the `Set` give the duplicate-free union in first-occurrence order |
| Dvv.DefineValues | src/lib/Dvv.ts:61-69 | if `less(c1, c2)` the values of c2, if `less(c2, c1)` those of c1, otherwise the ordered union |
| Dvv.SyncPair | src/lib/Dvv.ts:57-72 | ids are the union of both clocks; every surviving value comes from one of them |
| Dvv.Sync | src/lib/Dvv.ts:53-55 | the reversed fold over a non-empty list: ids are those of all clocks; every value comes from one of them |
| Dvv.Greater | src/lib/Dvv.ts:243-264 | `_greater`; its meaning on sorted lists, strict covering, is the contract of `Causality.GreaterIsStrictCover` |
| Dvv.Less | src/lib/Dvv.ts:271-273 | `less`; that it holds exactly when the second clock strictly covers the first is the contract of `Causality.LessIsStrictCover` |
| Dvv.EqualVec | src/lib/Dvv.ts:221-229 | `_equal`; that it holds exactly when ids and counters agree in order is the contract of `Queries.EqualVecIsSameContext` |
| Dvv.Equal | src/lib/Dvv.ts:212-219 | `equal`; that it compares the causal contexts only is the contract of `Queries.EqualIsSameContext` |
| Causality.FindSorted | src/lib/Clock.ts:4 | in a sorted list, looking an entry's id up returns that entry |
| Causality.InIdsIffFound | src/lib/Dvv.ts:190-192 | an id is listed by `ids` exactly when an entry carries it |
| Causality.CoversReflexive | src/lib/Dvv.ts:243-264 | a sorted list covers itself |
| Causality.CoversTransitive | src/lib/Dvv.ts:243-264 | covering is transitive |
| Causality.GreaterIsStrictCover | src/lib/Dvv.ts:243-264 | on sorted lists `_greater` holds exactly when the first list covers the second and, unless a difference was already seen, is not covered back |
| Causality.LessIsStrictCover | src/lib/Dvv.ts:266-273 | `less(c1, c2)` holds exactly when c2 covers c1 and c1 does not cover c2 |
| Causality.GreaterSelf | src/lib/Dvv.ts:243-264 | comparing a list with itself returns the `strict` flag |
| Causality.LessIrreflexive | src/lib/Dvv.ts:266-273 | no clock is older than itself |
| Causality.LessAsymmetric | src/lib/Dvv.ts:266-273 | `less` never holds both ways between sorted clocks |
| Causality.LessTransitive | src/lib/Dvv.ts:266-273 | `less` is transitive on sorted clocks |
| Causality.LessImpliesCounters | src/lib/Dvv.ts:243-273 | if c1 is older than c2, every id of c1 occurs in c2 with a counter at least as large |
| Causality.GreaterAppend | src/lib/Dvv.ts:243-264 | an extra entry with an id the other side lacks makes the first list strictly greater exactly when it already covered the other |
| Merging.MergeSelf | src/lib/Dvv.ts:95-101 | merging an entry with itself returns it |
| Merging.MergeSymmetricOffTie | src/lib/Dvv.ts:95-108 | with different counters the argument order does not matter |
| Merging.MergeHistorySymmetric | src/lib/Dvv.ts:95-108 | id, counter and value count do not depend on argument order, and `|values| <= counter` is kept |
| Merging.Sync2Self | src/lib/Dvv.ts:89-101 | merging a list with itself returns it unchanged |
| Merging.Sync2Commutes | src/lib/Dvv.ts:74-93 | ids, counters and value counts do not depend on argument order |
| Merging.Sync2Sorted | src/lib/Dvv.ts:74-93 | two sorted lists merge into a sorted list |
| Merging.Sync2Find | src/lib/Dvv.ts:74-93 | an id on one side only keeps its entry unchanged; an id on both sides gets the merge of the two entries |
| Merging.Sync2Covers | src/lib/Dvv.ts:74-93 | the merge covers both inputs |
| Merging.Sync2IsLeastCover | src/lib/Dvv.ts:74-93 | any list covering both inputs covers their merge |
| Merging.DedupAbsorbs | src/lib/Dvv.ts:65-68 | adding values already present does not change the ordered union |
| Merging.DedupDistinct | src/lib/Dvv.ts:65-68 | a list without repetitions is its own ordered union |
| Merging.SyncIdempotent | src/lib/Dvv.ts:53-72 | syncing a clock with itself keeps its entries and deduplicates its values, so a duplicate-free clock comes back unchanged |
| Merging.SyncCommutes | src/lib/Dvv.ts:53-72 | for sorted clocks `sync([a,b])` and `sync([b,a])` have the same ids and counters, the same values when one is older, and the same value set otherwise |
| Merging.SyncWellFormed | src/lib/Dvv.ts:53-72 | syncing well-formed clocks gives a well-formed clock |
| Merging.MergeHist | src/lib/Dvv.ts:95-108 | the counter and dropped count of a merged entry are the pointwise maxima of the two sides' |
| Merging.Sync2HistAt | src/lib/Dvv.ts:74-108 | for every id, the counter and dropped count after `_sync2` are the pointwise maxima of what the two lists hold for it |
| Merging.SameHistOfSorted | src/lib/Clock.ts:4 | two sorted lists that hold the same counter and dropped count for every id have the same ids, counters and value counts in order |
| Merging.Sync2Associative | src/lib/Dvv.ts:74-93 | on sorted lists, `_sync2` is associative in ids, counters and value counts |
| Merging.SyncAssociativeHistory | src/lib/Dvv.ts:53-72 | for sorted clocks, `sync([sync([a,b]),c])` and `sync([a,sync([b,c])])` have the same ids, counters and value counts |
| Merging.SyncNotAssociativeOnValues | src/lib/Dvv.ts:62-68 | for concrete clocks A, B, C with A older than C, the two groupings keep different anonymous values: `[vc,vb,va]` against `[vc,vb]` |
| Stamping.EventStamps | src/lib/Dvv.ts:157-175 | with equal-length ids, the entry for `id` is the old one with counter + 1 and the value in front, or `(id, 1, [v])` if there was none |
| Stamping.EventAppends | src/lib/Dvv.ts:167-174 | with equal-length ids, a new id is appended at the end |
| Stamping.EventBumpsHead | src/lib/Dvv.ts:159-165 | for the corrected `event`: when the head id is `id`, its counter grows by 1, the value is prepended and the tail stays in the list |
| Stamping.EventSorted | src/lib/Dvv.ts:157-175 | with equal-length ids, sortedness is kept when `id` is present or greater than every id |
| Stamping.EventDominates | src/lib/Dvv.ts:157-175 | for the corrected `event`: stamping a list with the same causal context as `v` gives strictly more history than `v` |
| Stamping.CreateAfterJoinIsNewer | src/lib/Dvv.ts:120-131 | for the corrected `event`: `create(new_with_history(join(c), vs), id)` is causally newer than `c` |
| Stamping.CreateWellFormed | src/lib/Dvv.ts:125-131 | `create` keeps a clock well-formed when the id fits the order |
| Stamping.UpdateIsNewer | src/lib/Dvv.ts:133-155 | for the corrected `event`, with sorted equal-length ids: the result of `update` is causally newer than both arguments |
| Stamping.UpdateWellFormed | src/lib/Dvv.ts:144-155 | `update` keeps clocks well-formed when the id fits the order |
| Stamping.EventAsWrittenKeeps | src/lib/Dvv.ts:157-175 | every entry the as-written `event` keeps for another id is the old entry for that id |
| Stamping.EventAsWrittenStamps | src/lib/Dvv.ts:157-175 | with equal-length ids, the as-written `event` still gives `id` the old entry with counter + 1 and the value in front, or `(id, 1, [v])` |
| Stamping.EventAsWrittenAgrees | src/lib/Dvv.ts:157-175 | if no entry before the last carries `id`, the as-written and corrected `event` are equal |
| Stamping.EventAsWrittenShrinks | src/lib/Dvv.ts:164 | with equal-length ids, if an entry before the last carries `id`, the as-written `event` returns fewer entries than it got: this is exactly when it differs from the corrected one |
| Stamping.TopIsLast | src/utils/index.ts:5-7 | in a sorted list, an id equal to or above every id can only be carried by the last entry |
| Stamping.AtTopOfSync2 | src/lib/Dvv.ts:74-93 | an id equal to or above every id of both inputs is so for their merge |
| Stamping.CreateAsWrittenAfterJoinIsNewer | src/lib/Dvv.ts:120-131 | the source's `create` after `join(c)` is newer than `c` when `id` is equal to or above every id of `c` |
| Stamping.UpdateAsWrittenIsNewer | src/lib/Dvv.ts:133-155 | the source's `update` is newer than both arguments when `id` is equal to or above every id of both |
| Stamping.EventAsWrittenDropsTail | src/lib/Dvv.ts:164 | stamping `a` on `[(a,1,[]), (b,1,[])]` leaves only `[(a,2,[v])]`, with ids `[a]`; the correction keeps `(b,1,[])` |
| Stamping.UpdateAsWrittenNotNewer | src/lib/Dvv.ts:144-164 | the source's `update` of `([(a,1,[]),(b,1,[])], [v])` with server clock `[(a,1,[x]),(b,1,[y])]` on `a` gives `[(a,2,[v])]`, which is not newer than the server clock; the corrected `update` is |
| Stamping.CreateAsWrittenNotNewer | src/lib/Dvv.ts:125-164 | the source's `create` of `a` on the history of `[(a,1,[v1]),(b,1,[v2])]` gives `[(a,2,[v])]`, which is not newer than that clock |
| Queries.JoinIsSorted | src/lib/Dvv.ts:27-31 | the context of a well-formed clock meets the sorted-context precondition of `new_with_history` |
| Queries.HistoryRoundTrip | src/lib/Dvv.ts:29-40 | `new_with_history(join(c))` has the ids and counters of `c`, in order, with empty value lists |
| Queries.FromContextWellFormed | src/lib/Dvv.ts:29-40 | a sorted context with non-negative counters gives a well-formed clock |
| Queries.EqualVecIsSameContext | src/lib/Dvv.ts:221-229 | `_equal` holds exactly when both lists have the same ids and counters in order |
| Queries.EqualIsSameContext | src/lib/Dvv.ts:208-219 | `equal` ignores anonymous values and value lists, comparing the causal contexts |
| Queries.EqualIsEquivalence | src/lib/Dvv.ts:208-229 | `equal` is reflexive, symmetric and transitive |
| Queries.EqualIntended | src/lib/Dvv.ts:231-240 | the comparison of the commented-out alternative, which also compares the heads' value counts; that it holds exactly when ids, counters and value counts agree is the contract of `Queries.EqualIntendedIsSameHistory` |
| Queries.EqualIgnoresValueLengths | src/lib/Dvv.ts:227 | two clocks that differ only in an entry's value count compare equal |
| Queries.EqualIntendedIsSameHistory | src/lib/Dvv.ts:221-229 | the corrected comparison holds exactly when ids, counters and value counts agree pairwise |
| Queries.EqualIntendedSeesValueLengths | src/lib/Dvv.ts:227 | the corrected comparison separates the two clocks above |
| Examples.EventExamples | tests/dvv.test.ts:156-168 | bumping `a` and appending `b` give the expected lists |
| Examples.EventIgnoresIdOrder | src/lib/Dvv.ts:167-174 | `event` makes `[b, a]` from `[b]` and `[c, bb]` from `[bb]`, neither sorted |
| Examples.SyncUpdateExample | tests/dvv.test.ts:139-154 | Mary's and Peter's writes give the expected clocks |
| Examples.UpdateSameId | tests/dvv.test.ts:35-41 | a second write on `a` replaces the first value |
| Examples.UpdateNewId | tests/dvv.test.ts:36-42 | a write on `b` is appended after `a` |
| Examples.SyncDiscardsOutdated | tests/dvv.test.ts:55-72 | syncing W and Z in either order gives `[(a, 2, [v2])]` |
| Examples.SyncInterleaves | tests/dvv.test.ts:106-120 | syncing A and X in either order gives `[a, x]` |
| Examples.LessClocksAB | tests/dvv.test.ts:172-173 | clocks `A` and `B` of test_less are what `create` builds |
| Examples.LessClocksB2B3 | tests/dvv.test.ts:174-175 | clocks `B2` and `B3` are what `create` builds on `A`'s context |
| Examples.LessClockC | tests/dvv.test.ts:177 | clock `C` is what `update` builds from `B`'s context and `A` |
| Examples.LessClockDMerge | tests/dvv.test.ts:178 | the merge inside the `update` that builds `D` |
| Examples.LessClockDStamp | tests/dvv.test.ts:178 | the stamp inside the `update` that builds `D` |
| Examples.LessClockD | tests/dvv.test.ts:178 | clock `D` is what `update` builds from `C`'s context and `B2` |
| Examples.LessHolds | tests/dvv.test.ts:180-185 | the six `less` outcomes the test expects to be true |
| Examples.LessFails | tests/dvv.test.ts:187-193 | the seven `less` outcomes the test expects to be false |
| Examples.EqualExamples | tests/dvv.test.ts:196-205 | `A` equals `B` and does not equal `C` |
| Examples.EqualExamplesFromB | tests/dvv.test.ts:196-205 | `B` equals `A` and does not equal `C` |
| Examples.QueryExamples | tests/dvv.test.ts:207-231 | the expected ids and size of the test clock, and the join of `[(a,1,[]), (b,1,[v2])]` |
| Examples.JoinClockA1 | tests/dvv.test.ts:10-12 | `create(new_dvv(v1), a)` is `[(a, 1, [v1])]` |
| Examples.JoinClockB1 | tests/dvv.test.ts:13-15 | `update` of `B` against `A1` on `b` gives `[(a, 1, []), (b, 1, [v2])]` |
| Examples.JoinExamples | tests/dvv.test.ts:10-30 | with `A`, `A1` and `B1` built by `new_dvv`, `create`, `new_with_history` and `update`, their joins are `[]`, `[(a,1)]` and `[(a,1), (b,1)]` |
| Examples.SizeOfNewList | tests/dvv.test.ts:207-212 | `new_list([v1])` has size 1 |
| Examples.ValuesOfA | tests/dvv.test.ts:214-221 | `values(A)` is `[v1, v0, v5, v3]`, with the same multiset as the expected sorted `[v0, v1, v3, v5]` |
| Examples.ValuesOfB | tests/dvv.test.ts:214-221 | `values(B)` is `[v0, v555, v3]`, with the same multiset as the expected sorted `[v0, v3, v555]` |
| Examples.ValuesOfC | tests/dvv.test.ts:214-221 | `values(C)` is `[v1, v6]` |

## Left out

- Composite (array) ids: the array branches of `cmp_fun` (src/utils/index.ts:13-24) and `event`'s `Array.isArray` test on the head id (src/lib/Dvv.ts:168). On arrays `cmp_fun` is not a strict order. Ids are strings only.
- Order.CmpFun: models strings and numbers only. Arrays are not modelled. The final length comparison of mixed non-array values (src/utils/index.ts:26) is modelled only for a string against a number, where it gives false. `Scalar` numbers are mathematical integers, not JavaScript doubles.
- Ids compare character by character. A Dafny `char` is a Unicode scalar value, while the source's `.length` and `>` (src/utils/index.ts:5-7, src/lib/Dvv.ts:168) work on UTF-16 code units. The two agree on characters of the Basic Multilingual Plane. Outside it, the source counts and orders the two surrogates of each character, and the model does not, so lengths and the id order can differ there.
- The defensive sort in `new_with_history` (src/lib/Dvv.ts:31). It compares whole `[id, counter]` pairs, for which `cmp_fun` always answers true, so the order it produces depends on the JavaScript engine. `NewListWithHistory` instead requires a context already sorted by id and keeps its order; `Queries.JoinIsSorted` shows `join` always provides one.
- The in-place `sort` and `reverse` of the caller's array (src/lib/Dvv.ts:31, 54). Inputs are immutable sequences. `Sync` keeps only the reversed fold order.
- `new_list`/`new_list_with_history` wrapping a non-array value in a list, and `new_with_history` storing a bare value. Anonymous values are always a `seq<V>`, and `NewDvv`/`NewWithHistory` take the single-value case.
- Dvv.Create, Dvv.Update: require a non-empty anonymous list. The source stamps `[]` or `undefined` when it is empty (src/lib/Dvv.ts:126-128, 150-152). The model does not cover an array value being concatenated instead of prepended (src/lib/Dvv.ts:160-162).
- Unreachable defensive paths are not modelled: the `getList.length !== 2` checks (src/lib/Dvv.ts:58-59), `equal`'s throws and its non-pair fallback (src/lib/Dvv.ts:213-218), and `join`'s falsy-entry skip (src/lib/Dvv.ts:115). A `Clock` is always a pair here.
- The getters' `?? []` fallbacks (src/lib/Clock.ts:17, 21) never fire, because the field always holds a pair.
- The `Set`'s SameValueZero equality is modelled as `==` on `V`. `reduce` throwing on an empty list becomes the precondition `|cs| > 0` of `Sync`.
- Counters are unbounded integers. JavaScript numbers are doubles, so counters beyond 2^53 are not modelled.
- Stamping.EventSorted, Stamping.UpdateIsNewer, Stamping.CreateAfterJoinIsNewer: state dominance only for ids of the stamped id's length, and sortedness only when, in addition, the stamped id is present or greater than every id. Outside these conditions `event` can break the id order (`Examples.EventIgnoresIdOrder`: `[b]` to `[b, a]` has equal lengths but a smaller new id; `[bb]` to `[c, bb]` has unequal lengths), and `_sync2` and `_greater` then give no guarantee.
- Dvv.EventAsWritten: the source keeps the dropped tail entries as extra slots of the bumped entry (src/lib/Dvv.ts:164). `ids`, `join`, `size`, `values`, `less` and `equal` read only the first three slots, so those slots are invisible to them. `_sync2` does pass them on, though (src/lib/Dvv.ts:89-90). When the entry is copied unchanged, the slots stay inside it. When it is merged as `head2`, only its counter and values are read, so the slots are dropped. When it is merged as `head1`, the call appends `head2`'s counter and values after the extra slots, so the first two extra slots take the places of `counter2` and `values2` and `head2`'s own counter and values are never read. With one extra slot, `values2` is then a number and `_merge` calls `slice` on it, which throws a `TypeError`. With two or more, the merged counter is an array. The model drops the slots, so none of these later outcomes is captured.
- Dvv.CreateAsWritten, Dvv.UpdateAsWritten: do not keep `|values| <= counter` as their contract. Only the corrected versions state it.
- Stamping.EventBumpsHead: states what the corrected `event` does. As written, the tail is dropped from the list: `Stamping.EventAsWrittenDropsTail`, `Stamping.EventAsWrittenShrinks`.
- Stamping.EventDominates: is stated of the corrected `event` only. As written, stamping an id that an entry before the last carries loses the later entries, and the result is not newer: `Stamping.CreateAsWrittenNotNewer`.
- Stamping.CreateAfterJoinIsNewer: is stated of the corrected `event`. For the source's `create`, `Stamping.CreateAsWrittenAfterJoinIsNewer` proves it only when `id` is equal to or above every id of `c`, and `Stamping.CreateAsWrittenNotNewer` shows that it fails otherwise.
- Stamping.UpdateIsNewer: is stated of the corrected `event`. For the source's `update`, `Stamping.UpdateAsWrittenIsNewer` proves it only when `id` is equal to or above every id of both clocks, and `Stamping.UpdateAsWrittenNotNewer` shows that it fails otherwise.
- Merging.SyncCommutes: for concurrent clocks, states only that both argument orders keep the same anonymous values. The order of those values can differ.
- Dvv.Sync: is associative only in the causal history, on sorted clocks (`Merging.SyncAssociativeHistory`). On the anonymous values it is not (`Merging.SyncNotAssociativeOnValues`), because `defineValues` (src/lib/Dvv.ts:62-68) keeps the union of two concurrent clocks' values, and a later sync with a clock that covers only one of them cannot drop the covered side's values. See "## Findings".

## Findings

| source | as written | input that shows it | evidently intended | confidence | as-written member | corrected member |
|---|---|---|---|---|---|---|
| src/lib/Dvv.ts:164 | the bumped triple is concatenated with the tail inside the outer brackets, so the result has ONE entry and the tail entries become extra slots of it, invisible to `ids`, `join`, `less`, `size` and `values` | `event([("a",1,[]),("b",1,[])], "a", "v")` gives `[("a",2,["v"], ...)]`, whose ids are `["a"]`. Then `update` of `([("a",1,[]),("b",1,[])], ["v"])` with server clock `[("a",1,["x"]),("b",1,["y"])]` on `a` is not newer than the server clock | bumped entry followed by the tail, `[bumped].concat(vector.slice(1))`, as in the Erlang original | high, not executed | Stamping.UpdateAsWrittenNotNewer | Stamping.UpdateIsNewer |
| src/lib/Dvv.ts:227 | compares the value-list length of `vector1`'s head with itself, which is always equal, so value counts are never compared | `[("a", 2, ["v2","v1"])]` against `[("a", 2, ["v2"])]`: `_equal` answers true | compare the two heads' value-list lengths, as the commented-out alternative at line 236 and the Erlang original do | high, not executed | Queries.EqualIgnoresValueLengths | Queries.EqualIntendedIsSameHistory |
| src/lib/Dvv.ts:62-68 | for concurrent clocks `defineValues` keeps the union of both value lists, and a later sync with a clock that covers only one side keeps that union, so `sync` is not associative on the anonymous values, although the design of the library treats `sync` as an associative reduction of a list of clocks | A = `([("x",1,[])], ["va"])`, B = `([("y",1,[])], ["vb"])`, C = `([("x",1,[]),("z",1,[])], ["vc"])`: `sync([sync([A,B]),C])` keeps `[vc,vb,va]`, `sync([A,sync([B,C])])` keeps `[vc,vb]`, and A is older than C | associativity of the causal history, which holds; on values the pairwise rule, shared with the Erlang original, cannot be associative without a dot per value | certain for the values, unclear whether the authors meant more than the history; not executed | Merging.SyncNotAssociativeOnValues | Merging.SyncAssociativeHistory |

`Dvv.Create` and `Dvv.Update` use the corrected `Dvv.Event`, so every
theorem about them describes the evidently intended stamping. The source's
versions are `Dvv.EventAsWritten`, `Dvv.CreateAsWritten` and
`Dvv.UpdateAsWritten`. In every scenario of tests/dvv.test.ts the stamped
id is new or carried only by the last entry, so by
`Stamping.EventAsWrittenAgrees` both give the same clocks there.
`Dvv.Equal` keeps the as-written check, because that is the library's
observable behaviour, and no other operation calls `equal`.
`Queries.EqualIntended` is the corrected comparison.
No corrected `sync` is introduced for the third row. `Dvv.Sync` stays as
written, and `Merging.SyncAssociativeHistory` proves the part of the
promise that its definition supports: the causal history is the same for
either grouping.
