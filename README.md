# Dynamic-query filters, modelled in Dafny

This project models the filter engine of `bevy_mod_dynamic_query` (src/filters.rs).
A query filter is a disjunction of conjunctions. Each conjunction is a list of predicates on
component ids: With, Changed, Added and Without.

- **Encoding.** A predicate is packed into one `u32` (`Filter`): the kind goes in the two high
  bits and the component id in the low 30.
- **Construction.** `Filters::new` encodes every row, sorts it with `sort_unstable`, and refuses
  the whole disjunction when a row holds two filters with the same `id()`. `new_unchecked`
  stores the rows as given; `try_from` is `new` with an error type.
- **Partitioning.** Because the derived `Ord` is the order of the raw `u32`, a sorted row is a
  With block, then a Changed block, an Added block and a Without block. `filters` and
  `tick_filters` find the block boundaries by binary-searching for a sentinel value
  `new(K, 0) - 1`.
- **Matching.**
  - `Conjunction::includes_archetype` combines the fetch test, `all_included` (a bit set filled
    by a `position` search per archetype component) and `any_excluded` (a `binary_search_by_key`
    per component).
  - `TickConjunction::within_tick` runs the same structural test, then asks whether every
    Changed and Added component's tick is newer than the window.

Modules:

| file | module | contents |
|---|---|---|
| prelude.dfy | `Prelude` | `u32`, `Option`, `Result` |
| world.dfy | `World` | the game world as the filters see it: an archetype's component ids, an entity's tick store, the tick comparison as a parameter |
| ctor_dsl.dfy | `CtorDsl` | the DSL input: `AndFilter`, `AndFilters`, `OrFilters` |
| filter_encoding.dfy | `FilterEncoding` | `FilterKind`, `Filter::new` / `id` / `kind`, the sentinels, and the ordering facts |
| slice.dfy | `Slice` | `sort_unstable` (in place on an array), its specification `Sort`, and `binary_search` |
| filters.dfy | `Filters` | construction, partitioning, the matchers and the conjunction views |
| properties.dfy | `FilterProperties` | lemmas that relate several operations, and the consequences of the findings |

How the parts are modelled:

- `duplicates_in`, `all_included`, `any_excluded`, `Filters::new`, the binary searches and the
  sort are imperative in the source. They are Dafny methods with loops and invariants, each
  proved against a specification:
  - `DistinctIds` for `duplicates_in`, and `Sort` for the sort;
  - the kind blocks `WithKindIn`, for the two partitioning functions;
  - `StructuralMatch` and `TickMatch`, for the matchers.
- The one-line matchers `includes_archetype` and `TickConjunction::within_tick` call the
  partitioning binary searches, so they are methods too.
- `ChangedFilter` / `AddedFilter::within_tick` are iterator `.all` chains, so they are recursive
  functions.

## Model

| member | source | states |
|---|---|---|
| FilterEncoding.FilterKind.Discriminant | src/filters.rs:16-23 | the `#[repr(u32)]` discriminant of every kind fits in the two kind bits |
| FilterEncoding.FilterKind.FromU32 | src/filters.rs:31-41 | `from_u32` inverts the discriminant on 0..3; other values are excluded, as by `unreachable!()` |
| FilterEncoding.Filter.Id | src/filters.rs:46-49 | `id()` is at most `MASK`, and a `u32` below bit 31 is its own `id()` |
| FilterEncoding.IdIsMasked | src/filters.rs:46-49 | `id()` is the `u32` modulo 2^31: `& MASK` keeps the low 31 bits, so bit 30 survives |
| FilterEncoding.Filter.Kind | src/filters.rs:51-54 | `kind()` is the kind whose range of 2^30 values holds the `u32` |
| FilterEncoding.Filter.New | src/filters.rs:55-60 | for an id below 2^30, `kind()` of `new(kind, id)` is `kind`, and the low 30 bits are the id |
| FilterEncoding.IdOfNew | src/filters.rs:43-60 | `id()` of `new(kind, id)` is the id for With and Added, but the id plus 2^30 for Changed and Without |
| FilterEncoding.CorrectedId | src/filters.rs:26-28 | a 30-bit mask always yields an id below 2^30 |
| FilterEncoding.CorrectedRoundTrip | src/filters.rs:26-28 | with a 30-bit mask, decoding inverts `new`, and `new` inverts decoding, for every `u32` |
| FilterEncoding.NewOrder | src/filters.rs:24-29 | comparing encoded filters is comparing (kind discriminant, id) lexicographically, in both directions |
| FilterEncoding.Filter.LastBefore | src/filters.rs:138-143 | the sentinel `new(K, 0)` minus one has the previous kind and all 30 id bits set, and lies below every filter of kind K |
| FilterEncoding.SentinelSeparates | src/filters.rs:157-164 | any filter other than the sentinel of K lies below it if and only if its kind comes before K |
| FilterEncoding.SentinelCollision | src/filters.rs:136-143 | the sentinel `new(K, 0) - 1` is the encodable filter `new(K - 1, 2^30 - 1)` |
| FilterEncoding.NotSentinel | src/filters.rs:162-164 | a filter whose id is below 2^30 - 1 is never a sentinel |
| FilterEncoding.FirstOfKindSeparates | src/filters.rs:137-138 | any filter lies below `new(K, 0)` if and only if its kind comes before K, with no exception |
| FilterEncoding.IdMonotoneWithinKind | src/filters.rs:227 | within one kind, a filter with a smaller or equal `u32` never has a larger `id()`, so a sorted Without block is sorted by id |
| Slice.Insert | src/filters.rs:102 | insertion adds exactly one copy of the element |
| Slice.InsertSorted | src/filters.rs:102 | insertion into an ascending sequence keeps it ascending |
| Slice.Sort | src/filters.rs:102 | the result is a permutation of the input |
| Slice.SortSorted | src/filters.rs:102 | the result of `Sort` is ascending, so it is the sorted permutation |
| Slice.SortedUnique | src/filters.rs:102 | two ascending permutations of the same filters are equal, so any sort yields `Sort` |
| Slice.Swap | src/filters.rs:102 | exchanges two slots and changes nothing else |
| Slice.SortUnstable | src/filters.rs:102 | sorting in place leaves the array ascending and a permutation of its old contents |
| Slice.BinarySearch | src/filters.rs:145-147 | `Ok(i)` has the target at i; `Err(i)` means the target is absent, i is within bounds, and every key before i is smaller and every key from i on is larger |
| Slice.LowerBound | src/filters.rs:163 | the count of keys below the target is an index where every key before it is smaller and every key from it on is at least the target, whether or not the target occurs |
| Filters.FromAndFilter | src/filters.rs:62-71 | each DSL variant becomes a filter of the matching kind that carries its id in the low 30 bits |
| Filters.FromAndFilters | src/filters.rs:101 | the mapped row has one filter per DSL filter, in order, each of the matching kind with its id in the low 30 bits |
| Filters.DuplicatesIn | src/filters.rs:132-135 | true if and only if two filters of the slice have the same `id()` |
| Filters.WithKindIn | src/filters.rs:79-82 | a block holds exactly the filters of the given kinds |
| Filters.BlockIsWithKindIn | src/filters.rs:153-154 | a contiguous run covering exactly the filters of some kinds is their block |
| Filters.WithKindInDistinct | src/filters.rs:87-88 | a block of a row with distinct ids has distinct ids |
| Filters.AbsentFromComponents | src/filters.rs:145-151 | an absent sentinel's value is not among the search keys |
| Filters.ComponentsAscending | src/filters.rs:145-147 | a sorted row has ascending search keys |
| Filters.KindBoundary | src/filters.rs:145-151 | the insertion point of the sentinel of K separates the filters whose kind precedes K from the rest |
| Filters.InclusiveSplit | src/filters.rs:165-166 | cutting at that point for Without gives the With/Changed/Added block and the Without block, which together make up the row |
| Filters.TickSplit | src/filters.rs:153-155 | the three insertion points are ordered, and the slices between them are the Changed block and the Added block |
| Filters.SplitFilters | src/filters.rs:157-167 | on a sorted row without the Without sentinel, the two halves concatenate to the row and are exactly its inclusive and exclusive blocks |
| Filters.TickFilters | src/filters.rs:136-156 | on a sorted row without sentinels, the two slices are exactly its Changed block and its Added block |
| Filters.KindStart | src/filters.rs:137-138 | the insertion point of `new(K, 0)` separates the filters whose kind precedes K from the rest |
| Filters.SplitFiltersAtKind | src/filters.rs:157-167 | cutting at `new(Without, 0)` gives the inclusive and exclusive blocks of every sorted row, with no sentinel precondition |
| Filters.TickFiltersAtKind | src/filters.rs:136-156 | cutting at the start of each kind gives the Changed and Added blocks of every sorted row |
| Filters.Position | src/filters.rs:215 | `position` returns the first index whose `id()` matches, or none if no filter matches |
| Filters.CountOnes | src/filters.rs:219 | the count of set bits is at most the length, and equals it if and only if every bit is set |
| Filters.AllIncluded | src/filters.rs:210-220 | true if and only if the ids are distinct and every filter's `id()` is an archetype component; a repeated id makes it false, and an empty slice makes it true |
| Filters.Ids | src/filters.rs:227 | the keys of `binary_search_by_key` are one `id()` per filter |
| Filters.WithoutIdsAscending | src/filters.rs:227 | a sorted Without block has ascending `id()` keys |
| Filters.AnyExcluded | src/filters.rs:222-230 | true if and only if some archetype component equals the `id()` of some filter; false when either side is empty |
| Filters.StructuralParts | src/filters.rs:173-178 | `all_included` of the prefix and not `any_excluded` of the suffix is the structural test |
| Filters.ExclusiveSearchable | src/filters.rs:175 | the suffix that `filters` returns meets the sortedness `binary_search_by_key` requires |
| Filters.ChangedWithinTick | src/filters.rs:232-239 | true if and only if every Changed filter's last-changed tick is newer than the window |
| Filters.AddedWithinTick | src/filters.rs:241-248 | true if and only if every Added filter's added tick is newer than the window |
| Filters.TickLookupsDefined | src/filters.rs:236-237 | once the structural test passed on a consistent entity, every tick lookup finds its component |
| Filters.TickParts | src/filters.rs:201-205 | after the structural test, the entity test is the conjunction of the Changed and Added block tests |
| Filters.Conjunction.IncludesArchetype | src/filters.rs:168-179 | the result is the fetch test and the structural test together |
| Filters.TickConjunction.WithinTick | src/filters.rs:187-206 | false whenever the structural test fails, before any tick is read and without the fetch test; otherwise whether every Changed and Added tick is within the window. The Changed and Added sentinels must be absent only when the structural test passes, since only then does `tick_filters` run |
| Filters.SortRow | src/filters.rs:100-105 | one row of `new` is the sorted mapped row, reported as a duplicate if and only if two of its ids are equal |
| Filters.SortRows | src/filters.rs:100-107 | the loop of `new` gives `None` if and only if some sorted row has a repeated `id()`; otherwise one sorted row per input, in order, each with distinct ids |
| Filters.BuiltRows | src/filters.rs:100-108 | rows that are the sorted mapped rows, each with distinct ids, are ascending permutations of their inputs with distinct ids |
| Filters.Filters.NewUnchecked | src/filters.rs:85-96 | rows are stored unchanged, in order, one per input row |
| Filters.Filters.New | src/filters.rs:97-109 | `None` if and only if some sorted row has a repeated `id()`; otherwise one row per input, in order, each the sorted permutation of its mapped input with distinct ids |
| Filters.Filters.TryFrom | src/filters.rs:126-131 | `Ok` exactly when `new` would give `Some`, holding the same rows |
| Filters.Filters.Conjunctions | src/filters.rs:110-116 | one view per row, in row order, each with the shared fetches |
| Filters.Filters.TickConjunctions | src/filters.rs:117-124 | one view per row, in row order, each with the same tick window |
| FilterProperties.EmptyBlock | src/filters.rs:153-154 | a row with no filter of some kinds has an empty block for them |
| FilterProperties.WithKindInCons | src/filters.rs:79-82 | a block of a row with a head is the head, if it has the kind, followed by the block of the tail |
| FilterProperties.SortedKinds | src/filters.rs:24-29 | along the `u32` order the kind discriminants never decrease |
| FilterProperties.BlocksConsWith | src/filters.rs:24-29 | a With filter before a tail goes at the front of the tail's blocks |
| FilterProperties.BlocksConsChanged | src/filters.rs:24-29 | a Changed filter before a tail with no With filter goes at the front of its blocks |
| FilterProperties.BlocksConsAdded | src/filters.rs:24-29 | an Added filter before a tail of Added and Without filters goes at the front of its blocks |
| FilterProperties.BlocksConsWithout | src/filters.rs:24-29 | a Without filter before a tail of Without filters goes at the front of its blocks |
| FilterProperties.BlocksCons | src/filters.rs:24-29 | a filter whose kind is at most every kind of the tail goes at the front of the tail's blocks |
| FilterProperties.KindBlocks | src/filters.rs:136-167 | every sorted row is its With block, then its Changed, Added and Without blocks |
| FilterProperties.StructuralMatchOfCheckedRow | src/filters.rs:170-179 | on a row `new` accepted, the structural test is plain inclusion of the With/Changed/Added ids and exclusion of the Without ids |
| FilterProperties.NoSentinelsBelowLastId | src/filters.rs:162 | rows whose ids are below 2^30 - 1 contain no sentinel, before or after sorting |
| FilterProperties.ChangedNeverMatches | src/filters.rs:43-49 | as written, no archetype whose ids fit in 30 bits passes the structural test of a row with a Changed filter |
| FilterProperties.WithoutNeverExcludes | src/filters.rs:43-49 | as written, no Without filter's `id()` is an archetype component that fits in 30 bits |
| FilterProperties.SameIdAcrossKindsAccepted | src/filters.rs:132-135 | as written, `new` accepts With(c) together with Changed(c), though both carry the same 30-bit id |
| FilterProperties.ChangedWithoutSameIdRejected | src/filters.rs:132-135 | as written, `new` still rejects Changed(c) together with Without(c), whose `id()`s are both c + 2^30 |

## Left out

- bevy_ecs types are replaced by stand-ins:
  - `Archetype` is a sequence of component ids.
  - `UnsafeEntityCell` is that archetype plus a map from component id to its added and
    last-changed ticks.
  - `ComponentId` is a natural number.
  - `Tick` is a `u32`.
- `EntityCell.Valid` stands in for the `prod_unchecked_unwrap` at lines 237 and 246. It says
  every archetype component has ticks, which is a precondition of `WithinTick`.
- `Tick::is_newer_than` lives in bevy and its body is not shown, so it is a function parameter.
  Tick wrap-around is therefore left to it and not modelled.
- `Fetches::all_included` (fetches.rs) is not part of this model, so it is a function parameter
  over the archetype.
- `DebugUnchecked::prod_unchecked_unwrap` becomes a precondition. A sentinel present in the row
  would make a search return `Ok`, and these preconditions exclude that case.
- `JaggedArray` and its builder become a sequence of rows. `rows_iter` and the lazy iterators of
  `conjunctions` and `tick_conjunctions` become sequences.
- `FixedBitSet` becomes a `bool` array, and `HashSet` becomes a `set`.
- ctor_dsl is modelled only as its four DSL variants. Its constructors are not part of this model.
- FilterEncoding.Filter.New: requires the id below 2^30. The source's `id.index() as u32`
  truncation, and the `|` with bits that overlap the kind, are not modelled for larger ids.
- Filters.Filters.New: maps every row with `Filter::from` before the loop that sorts and checks
  the rows. The source maps each row as the loop reaches it. The mapping is pure, so the
  stored rows and the result are the same.
- Slice.SortUnstable: insertion sort stands in for Rust's pattern-defeating quicksort. Only the
  result is modelled, and `SortedUnique` shows that every sort gives the same result.
- Filters.AnyExcluded: the source `binary_search_by_key` may land on any of several equal keys.
  Only Ok versus Err is modelled, which is all `is_ok()` reads.
- Filters.Conjunction.IncludesArchetype and Filters.TickConjunction.WithinTick: these use the
  sentinel searches of the code, not the corrected split.
  - Both require the Without sentinel to be absent, as `filters` always runs.
  - `WithinTick` requires the Changed and Added sentinels to be absent only when the structural
    test passes, since only then does `tick_filters` run.
- Evaluating the disjunction (one matching conjunction suffices) lives in the iterator and
  query modules, which are not part of this model.
- src/lib.rs holds only module wiring and an `assert_invariant` macro, so there is no logic to
  model.

## Findings

The intended design promises an exact encode/decode round trip, and that two filters on one
component are rejected as duplicates whatever their kinds. The intended design also has the
sentinel searches always land between two kind blocks. The code does none of this exactly:

- the mask makes `id()` wrong for Changed and Without filters (first row);
- the sentinel of a kind can itself be a filter of the row (second row).

The model follows the code as written and proves the corrected behaviour beside it.

| source | as written | input that shows it | evidently intended | confidence | as-written member | corrected member |
|---|---|---|---|---|---|---|
| src/filters.rs:43-49 | `MASK = 0x7fff_ffff` keeps bit 30, which is the low bit of the kind, so `id()` of a Changed or Without filter is its id plus 2^30 | `new(Changed, 5).id()` is 2^30 + 5. As a result a Changed filter never matches an archetype (`ChangedNeverMatches`), a Without filter never excludes one (`WithoutNeverExcludes`), and `[With(5), Changed(5)]` passes the duplicate check (`SameIdAcrossKindsAccepted`), while `[Changed(5), Without(5)]` is still rejected, as both `id()`s are 2^30 + 5 (`ChangedWithoutSameIdRejected`) | `MASK = 0x3fff_ffff`, so that `id(new(k, c)) == c` for every kind | not executed | FilterEncoding.IdOfNew | FilterEncoding.CorrectedRoundTrip |
| src/filters.rs:136-164 | the sentinel `new(K, 0) - 1` equals the encodable filter `new(K - 1, 2^30 - 1)`; with that filter in the row, `binary_search` returns `Ok` and `prod_unchecked_unwrap` is undefined | a row holding `Added(2^30 - 1)` (component `3 * 2^30 - 1`) makes the Without search of `filters` find it | cut where each kind starts (`partition_point` below `new(K, 0)`), which is correct for every sorted row | not executed | FilterEncoding.SentinelCollision | Filters.SplitFiltersAtKind |
