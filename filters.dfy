/**
 * The filter-matching engine of src/filters.rs: checked and unchecked
 * construction of a disjunction of sorted conjunctions, the sentinel searches
 * that split a conjunction into kind blocks, and the archetype-level and
 * entity-level matchers.
 */
module Filters {
  import opened Prelude
  import opened World
  import CtorDsl
  import opened FilterEncoding
  import opened Slice

  /** `Fetches::all_included` over an archetype; fetches.rs is not part of this model. */
  type Fetches = Archetype -> bool

  // ---------------------------------------------------------------------------
  // From DSL filters to encoded filters

  /** The kind each DSL variant stands for. */
  function DslKind(a: CtorDsl.AndFilter): FilterKind {
    match a
    case With(_) => FilterKind.With
    case Without(_) => FilterKind.Without
    case Changed(_) => FilterKind.Changed
    case Added(_) => FilterKind.Added
  }

  /** `impl From<AndFilter> for Filter`. */
  function FromAndFilter(a: CtorDsl.AndFilter): (f: Filter)
    requires a.id < ID_BOUND
    ensures f.Kind() == DslKind(a) && CorrectedId(f) == a.id
  {
    match a
    case With(id) => Filter.New(FilterKind.With, id)
    case Without(id) => Filter.New(FilterKind.Without, id)
    case Changed(id) => Filter.New(FilterKind.Changed, id)
    case Added(id) => Filter.New(FilterKind.Added, id)
  }

  /** Every id of the row fits under the kind bits. */
  ghost predicate Encodable(row: CtorDsl.AndFilters) {
    forall i :: 0 <= i < |row| ==> row[i].id < ID_BOUND
  }

  /** `filters.into_iter().map(Filter::from)`. */
  function FromAndFilters(row: CtorDsl.AndFilters): (fs: seq<Filter>)
    requires Encodable(row)
    ensures |fs| == |row|
    ensures forall i :: 0 <= i < |row| ==> fs[i].Kind() == DslKind(row[i]) && CorrectedId(fs[i]) == row[i].id
  {
    seq(|row|, i requires 0 <= i < |row| => FromAndFilter(row[i]))
  }

  // ---------------------------------------------------------------------------
  // Duplicates

  /** No two filters of `fs` have the same `id()`. */
  ghost predicate DistinctIds(fs: seq<Filter>) {
    forall p, q :: 0 <= p < q < |fs| ==> fs[p].Id() != fs[q].Id()
  }

  /** `duplicates_in`: inserts each `id()` into a set and stops at the first one already there. */
  method DuplicatesIn(fs: seq<Filter>) returns (duplicate: bool)
    ensures duplicate <==> !DistinctIds(fs)
  {
    var encountered: set<ComponentId> := {};
    for i := 0 to |fs|
      invariant encountered == set k | 0 <= k < i :: fs[k].Id()
      invariant DistinctIds(fs[..i])
    {
      if fs[i].Id() in encountered {
        return true;
      }
      encountered := encountered + {fs[i].Id()};
    }
    assert fs[..|fs|] == fs;
    return false;
  }

  // ---------------------------------------------------------------------------
  // Kind blocks

  /** The filters of `fs` whose kind is in `kinds`, in their order in `fs`. */
  function WithKindIn(fs: seq<Filter>, kinds: set<FilterKind>): (r: seq<Filter>)
    ensures forall f :: f in r <==> f in fs && f.Kind() in kinds
  {
    if fs == [] then []
    else
      assert fs == [fs[0]] + fs[1..];
      (if fs[0].Kind() in kinds then [fs[0]] else []) + WithKindIn(fs[1..], kinds)
  }

  /** The With, Changed and Added filters: what `all_included` tests. */
  function Inclusive(fs: seq<Filter>): seq<Filter> {
    WithKindIn(fs, {FilterKind.With, FilterKind.Changed, FilterKind.Added})
  }

  /** The Without filters: what `any_excluded` tests. */
  function Exclusive(fs: seq<Filter>): seq<Filter> {
    WithKindIn(fs, {FilterKind.Without})
  }

  /** A contiguous run holding exactly the filters of some kinds is their `WithKindIn`. */
  lemma {:induction false} BlockIsWithKindIn(fs: seq<Filter>, a: nat, b: nat, kinds: set<FilterKind>)
    requires a <= b <= |fs|
    requires forall k :: 0 <= k < |fs| ==> (a <= k < b <==> fs[k].Kind() in kinds)
    ensures fs[a..b] == WithKindIn(fs, kinds)
    decreases |fs|
  {
    if fs != [] {
      var tail := fs[1..];
      var a', b' := if a > 0 then a - 1 else 0, if b > 0 then b - 1 else 0;
      assert forall k :: 0 <= k < |tail| ==> (a' <= k < b' <==> tail[k].Kind() in kinds) by {
        forall k | 0 <= k < |tail| ensures (a' <= k < b' <==> tail[k].Kind() in kinds) {
          assert tail[k] == fs[k + 1];
        }
      }
      BlockIsWithKindIn(tail, a', b', kinds);
      assert fs[0].Kind() in kinds <==> a == 0 < b;
      BlockStep(fs, a, b, tail[a'..b']);
    }
  }

  /** One step of `BlockIsWithKindIn`: the run of `fs` is the head, if it is in the run, before the run of the tail. */
  lemma BlockStep(fs: seq<Filter>, a: nat, b: nat, rest: seq<Filter>)
    requires 0 < |fs| && a <= b <= |fs|
    requires rest == fs[1..][(if a > 0 then a - 1 else 0)..(if b > 0 then b - 1 else 0)]
    ensures fs[a..b] == (if a == 0 < b then [fs[0]] else []) + rest
  {
    if a == 0 < b {
      assert fs[a..b] == [fs[0]] + fs[1..][0..b - 1];
    }
  }

  /** A subsequence of a sequence with distinct ids has distinct ids. */
  lemma {:induction false} WithKindInDistinct(fs: seq<Filter>, kinds: set<FilterKind>)
    requires DistinctIds(fs)
    ensures DistinctIds(WithKindIn(fs, kinds))
    decreases |fs|
  {
    if fs != [] {
      var tail := fs[1..];
      assert DistinctIds(tail) by {
        forall p, q | 0 <= p < q < |tail| ensures tail[p].Id() != tail[q].Id() {
          assert tail[p] == fs[p + 1] && tail[q] == fs[q + 1];
        }
      }
      WithKindInDistinct(tail, kinds);
      var rest := WithKindIn(tail, kinds);
      if fs[0].Kind() in kinds {
        var r := [fs[0]] + rest;
        forall p, q | 0 <= p < q < |r| ensures r[p].Id() != r[q].Id() {
          if p == 0 {
            assert r[q] in tail;
            var m :| 0 <= m < |tail| && tail[m] == r[q];
            assert fs[m + 1] == r[q];
          } else {
            assert r[p] == rest[p - 1] && r[q] == rest[q - 1];
          }
        }
      }
    }
  }

  /** Only the kind bits decide whether a filter lies below the sentinel. */
  ghost predicate NoSentinels(fs: seq<Filter>) {
    && Filter.LastBefore(FilterKind.Changed) !in fs
    && Filter.LastBefore(FilterKind.Added) !in fs
    && Filter.LastBefore(FilterKind.Without) !in fs
  }

  /** `filters.binary_search` compares the raw `u32`s. */
  function Components(fs: seq<Filter>): (keys: seq<int>)
    ensures |keys| == |fs|
  {
    seq(|fs|, i requires 0 <= i < |fs| => fs[i].component as int)
  }

  /** A filter missing from a conjunction has its raw value missing from the keys. */
  lemma AbsentFromComponents(fs: seq<Filter>, g: Filter)
    requires g !in fs
    ensures g.component as int !in Components(fs)
  {
    forall k | 0 <= k < |fs| ensures Components(fs)[k] != g.component as int {
      assert fs[k] == Filter(fs[k].component);
    }
  }

  /** The raw values of a sorted conjunction are the ascending keys its binary search needs. */
  lemma ComponentsAscending(fs: seq<Filter>)
    requires Sorted(fs)
    ensures Ascending(Components(fs))
  {
  }

  /**
   * The insertion point of the sentinel of `kind` separates the filters whose
   * kind precedes `kind` from the others.
   */
  lemma KindBoundary(fs: seq<Filter>, kind: FilterKind, i: nat)
    requires kind != FilterKind.With && i <= |fs|
    requires forall k :: 0 <= k < i ==> Components(fs)[k] < Filter.LastBefore(kind).component as int
    requires forall k :: i <= k < |fs| ==> Filter.LastBefore(kind).component as int < Components(fs)[k]
    ensures forall k :: 0 <= k < |fs| ==> (k < i <==> fs[k].Kind().Discriminant() < kind.Discriminant())
  {
    forall k | 0 <= k < |fs| ensures k < i <==> fs[k].Kind().Discriminant() < kind.Discriminant() {
      assert Components(fs)[k] == fs[k].component as int;
      SentinelSeparates(fs[k], kind);
    }
  }

  /** Cutting at the first Without filter gives the inclusive and the exclusive blocks. */
  lemma InclusiveSplit(fs: seq<Filter>, i: nat)
    requires i <= |fs|
    requires forall k :: 0 <= k < |fs| ==> (k < i <==> fs[k].Kind().Discriminant() < 3)
    ensures fs[..i] == Inclusive(fs) && fs[i..] == Exclusive(fs)
    ensures Inclusive(fs) + Exclusive(fs) == fs
  {
    assert fs[..i] + fs[i..] == fs;
    var inclusiveKinds := {FilterKind.With, FilterKind.Changed, FilterKind.Added};
    forall k | 0 <= k < |fs| ensures 0 <= k < i <==> fs[k].Kind() in inclusiveKinds {
      var kind := fs[k].Kind();
    }
    BlockIsWithKindIn(fs, 0, i, inclusiveKinds);
    forall k | 0 <= k < |fs| ensures i <= k < |fs| <==> fs[k].Kind() in {FilterKind.Without} {
      var kind := fs[k].Kind();
    }
    BlockIsWithKindIn(fs, i, |fs|, {FilterKind.Without});
  }

  /** Cutting at the first Changed, Added and Without filters gives the Changed and Added blocks. */
  lemma TickSplit(fs: seq<Filter>, a: nat, b: nat, c: nat)
    requires a <= |fs| && b <= |fs| && c <= |fs|
    requires forall k :: 0 <= k < |fs| ==> (k < a <==> fs[k].Kind().Discriminant() < 1)
    requires forall k :: 0 <= k < |fs| ==> (k < b <==> fs[k].Kind().Discriminant() < 2)
    requires forall k :: 0 <= k < |fs| ==> (k < c <==> fs[k].Kind().Discriminant() < 3)
    ensures a <= b <= c
    ensures fs[a..b] == WithKindIn(fs, {FilterKind.Changed})
    ensures fs[b..c] == WithKindIn(fs, {FilterKind.Added})
  {
    assert b < |fs| ==> fs[b].Kind().Discriminant() >= 2;
    assert c < |fs| ==> fs[c].Kind().Discriminant() >= 3;
    forall k | 0 <= k < |fs| ensures a <= k < b <==> fs[k].Kind() in {FilterKind.Changed} {
      var kind := fs[k].Kind();
    }
    BlockIsWithKindIn(fs, a, b, {FilterKind.Changed});
    forall k | 0 <= k < |fs| ensures b <= k < c <==> fs[k].Kind() in {FilterKind.Added} {
      var kind := fs[k].Kind();
    }
    BlockIsWithKindIn(fs, b, c, {FilterKind.Added});
  }

  /**
   * `filters`: `split_at` the insertion point of `new(Without, 0) - 1`. A
   * sentinel already in the conjunction makes the search return `Ok`, which
   * `prod_unchecked_unwrap` leaves undefined: that is a precondition here.
   */
  method SplitFilters(fs: seq<Filter>) returns (inclusive: seq<Filter>, exclusive: seq<Filter>)
    requires Sorted(fs)
    requires Filter.LastBefore(FilterKind.Without) !in fs
    ensures inclusive + exclusive == fs
    ensures inclusive == Inclusive(fs) && exclusive == Exclusive(fs)
  {
    var lastInclusive := Filter.LastBefore(FilterKind.Without);
    ComponentsAscending(fs);
    AbsentFromComponents(fs, lastInclusive);
    var search := BinarySearch(Components(fs), lastInclusive.component as int);
    var firstExclusive := search.error;
    KindBoundary(fs, FilterKind.Without, firstExclusive);
    InclusiveSplit(fs, firstExclusive);
    inclusive, exclusive := fs[..firstExclusive], fs[firstExclusive..];
  }

  /**
   * `tick_filters`: the insertion points of the sentinels of Changed, Added and
   * Without bound the Changed block and the Added block.
   */
  method TickFilters(fs: seq<Filter>) returns (changed: seq<Filter>, added: seq<Filter>)
    requires Sorted(fs)
    requires NoSentinels(fs)
    ensures changed == WithKindIn(fs, {FilterKind.Changed})
    ensures added == WithKindIn(fs, {FilterKind.Added})
  {
    var lastWith := Filter.LastBefore(FilterKind.Changed);
    var lastChanged := Filter.LastBefore(FilterKind.Added);
    var lastAdded := Filter.LastBefore(FilterKind.Without);
    ComponentsAscending(fs);
    AbsentFromComponents(fs, lastWith);
    AbsentFromComponents(fs, lastChanged);
    AbsentFromComponents(fs, lastAdded);
    var searchChanged := BinarySearch(Components(fs), lastWith.component as int);
    var searchAdded := BinarySearch(Components(fs), lastChanged.component as int);
    var searchWithout := BinarySearch(Components(fs), lastAdded.component as int);
    var firstChanged := searchChanged.error;
    var firstAdded := searchAdded.error;
    var firstWithout := searchWithout.error;
    KindBoundary(fs, FilterKind.Changed, firstChanged);
    KindBoundary(fs, FilterKind.Added, firstAdded);
    KindBoundary(fs, FilterKind.Without, firstWithout);
    TickSplit(fs, firstChanged, firstAdded, firstWithout);
    changed := fs[firstChanged..firstAdded];
    added := fs[firstAdded..firstWithout];
  }

  /** The insertion point of `new(kind, 0)` separates the filters whose kind precedes `kind`. */
  lemma KindStart(fs: seq<Filter>, kind: FilterKind, i: nat)
    requires i <= |fs|
    requires forall k :: 0 <= k < i ==> Components(fs)[k] < Filter.New(kind, 0).component as int
    requires forall k :: i <= k < |fs| ==> Filter.New(kind, 0).component as int <= Components(fs)[k]
    ensures forall k :: 0 <= k < |fs| ==> (k < i <==> fs[k].Kind().Discriminant() < kind.Discriminant())
  {
    forall k | 0 <= k < |fs| ensures k < i <==> fs[k].Kind().Discriminant() < kind.Discriminant() {
      assert Components(fs)[k] == fs[k].component as int;
      FirstOfKindSeparates(fs[k], kind);
    }
  }

  /**
   * `filters` corrected: cutting at the first filter not below `new(Without, 0)`
   * needs no sentinel and so no precondition beyond sortedness.
   */
  method SplitFiltersAtKind(fs: seq<Filter>) returns (inclusive: seq<Filter>, exclusive: seq<Filter>)
    requires Sorted(fs)
    ensures inclusive + exclusive == fs
    ensures inclusive == Inclusive(fs) && exclusive == Exclusive(fs)
  {
    var firstWithout := Filter.New(FilterKind.Without, 0);
    ComponentsAscending(fs);
    var firstExclusive := LowerBound(Components(fs), firstWithout.component as int);
    KindStart(fs, FilterKind.Without, firstExclusive);
    InclusiveSplit(fs, firstExclusive);
    inclusive, exclusive := fs[..firstExclusive], fs[firstExclusive..];
  }

  /** `tick_filters` corrected in the same way: the kind starts cut the Changed and Added blocks. */
  method TickFiltersAtKind(fs: seq<Filter>) returns (changed: seq<Filter>, added: seq<Filter>)
    requires Sorted(fs)
    ensures changed == WithKindIn(fs, {FilterKind.Changed})
    ensures added == WithKindIn(fs, {FilterKind.Added})
  {
    ComponentsAscending(fs);
    var firstChanged := LowerBound(Components(fs), Filter.New(FilterKind.Changed, 0).component as int);
    var firstAdded := LowerBound(Components(fs), Filter.New(FilterKind.Added, 0).component as int);
    var firstWithout := LowerBound(Components(fs), Filter.New(FilterKind.Without, 0).component as int);
    KindStart(fs, FilterKind.Changed, firstChanged);
    KindStart(fs, FilterKind.Added, firstAdded);
    KindStart(fs, FilterKind.Without, firstWithout);
    TickSplit(fs, firstChanged, firstAdded, firstWithout);
    changed := fs[firstChanged..firstAdded];
    added := fs[firstAdded..firstWithout];
  }

  // ---------------------------------------------------------------------------
  // Archetype-level matching

  /** `iter().position(|x| x.id() == id)`: the first filter with that id. */
  function Position(fs: seq<Filter>, id: ComponentId): (r: Option<nat>)
    ensures r.Some? ==> r.value < |fs| && fs[r.value].Id() == id
    ensures r.Some? ==> forall m :: 0 <= m < r.value ==> fs[m].Id() != id
    ensures r.None? ==> forall m :: 0 <= m < |fs| ==> fs[m].Id() != id
    decreases |fs|
  {
    if fs == [] then None
    else if fs[0].Id() == id then Some(0)
    else
      match Position(fs[1..], id)
      case None => None
      case Some(i) => Some(i + 1)
  }

  /** `FixedBitSet::count_ones(..)`. */
  function CountOnes(bits: seq<bool>): (n: nat)
    ensures n <= |bits|
    ensures n == |bits| <==> forall k :: 0 <= k < |bits| ==> bits[k]
  {
    if bits == [] then 0
    else (if bits[0] then 1 else 0) + CountOnes(bits[1..])
  }

  /** No filter before position `k` has the id of the filter at `k`. */
  ghost predicate FirstOfId(fs: seq<Filter>, k: nat)
    requires k < |fs|
  {
    forall m :: 0 <= m < k ==> fs[m].Id() != fs[k].Id()
  }

  /**
   * `InclusiveFilter::all_included`: for each archetype component, marks the
   * first filter with that id; true when every filter got marked. A repeated
   * id among the filters leaves its later copies unmarked.
   */
  method AllIncluded(inclusive: seq<Filter>, ids: seq<ComponentId>) returns (r: bool)
    ensures r <==> DistinctIds(inclusive) && forall f :: f in inclusive ==> f.Id() in ids
  {
    var found := new bool[|inclusive|](_ => false);
    for j := 0 to |ids|
      invariant forall k :: 0 <= k < |inclusive| ==>
        (found[k] <==> FirstOfId(inclusive, k) && inclusive[k].Id() in ids[..j])
    {
      var idx := Position(inclusive, ids[j]);
      if idx.Some? {
        found[idx.value] := true;
      }
      forall k | 0 <= k < |inclusive|
        ensures found[k] <==> FirstOfId(inclusive, k) && inclusive[k].Id() in ids[..j + 1]
      {
        assert ids[..j + 1] == ids[..j] + [ids[j]];
        if FirstOfId(inclusive, k) && inclusive[k].Id() == ids[j] {
          assert idx.Some?;
          assert !(idx.value < k) && !(k < idx.value);
        }
      }
    }
    assert ids[..|ids|] == ids;
    r := CountOnes(found[..]) == |inclusive|;
    assert r <==> forall k :: 0 <= k < |inclusive| ==> FirstOfId(inclusive, k) && inclusive[k].Id() in ids;
  }

  /** The `id()`s of a slice, the keys of `binary_search_by_key(&id, Filter::id)`. */
  function Ids(fs: seq<Filter>): (keys: seq<int>)
    ensures |keys| == |fs|
  {
    seq(|fs|, i requires 0 <= i < |fs| => fs[i].Id() as int)
  }

  /** A sorted run of Without filters is also sorted by `id()`. */
  lemma WithoutIdsAscending(fs: seq<Filter>)
    requires Sorted(fs)
    requires forall f :: f in fs ==> f.Kind() == FilterKind.Without
    ensures Ascending(Ids(fs))
  {
    forall i, j | 0 <= i < j < |fs| ensures Ids(fs)[i] <= Ids(fs)[j] {
      IdMonotoneWithinKind(fs[i], fs[j]);
    }
  }

  /**
   * `ExclusiveFilter::any_excluded`: binary-searches every archetype component
   * among the filters by `id()` and ors the hits together.
   */
  method AnyExcluded(exclusive: seq<Filter>, ids: seq<ComponentId>) returns (found: bool)
    requires Ascending(Ids(exclusive))
    ensures found <==> exists f :: f in exclusive && f.Id() in ids
  {
    found := false;
    for j := 0 to |ids|
      invariant found <==> exists f :: f in exclusive && f.Id() in ids[..j]
    {
      var search := BinarySearch(Ids(exclusive), ids[j]);
      assert ids[..j + 1] == ids[..j] + [ids[j]];
      if search.Ok? {
        assert exclusive[search.value] in exclusive && exclusive[search.value].Id() in ids[..j + 1];
      } else {
        forall f | f in exclusive ensures f.Id() != ids[j] {
          var k :| 0 <= k < |exclusive| && exclusive[k] == f;
          assert Ids(exclusive)[k] == f.Id();
        }
      }
      found := found || search.Ok?;
    }
    assert ids[..|ids|] == ids;
  }

  /**
   * The archetype-level test a conjunction stands for: every With, Changed and
   * Added filter names a distinct component of the archetype, and no Without
   * filter does (all as `id()` computes ids).
   */
  ghost predicate StructuralMatch(fs: seq<Filter>, components: seq<ComponentId>) {
    && DistinctIds(Inclusive(fs))
    && (forall f :: f in fs && f.Kind() != FilterKind.Without ==> f.Id() in components)
    && (forall f :: f in fs && f.Kind() == FilterKind.Without ==> f.Id() !in components)
  }

  /**
   * The two halves `filters` returns, tested by `all_included` and
   * `any_excluded`, make up `StructuralMatch`.
   */
  lemma StructuralParts(fs: seq<Filter>, components: seq<ComponentId>, included: bool, excluded: bool)
    requires included <==> DistinctIds(Inclusive(fs)) && forall f :: f in Inclusive(fs) ==> f.Id() in components
    requires excluded <==> exists f :: f in Exclusive(fs) && f.Id() in components
    ensures StructuralMatch(fs, components) <==> included && !excluded
  {
  }

  /** The matcher preconditions of a sorted conjunction, for the Without block. */
  lemma ExclusiveSearchable(fs: seq<Filter>, inclusive: seq<Filter>, exclusive: seq<Filter>)
    requires Sorted(fs)
    requires inclusive + exclusive == fs && exclusive == Exclusive(fs)
    ensures Ascending(Ids(exclusive))
  {
    assert exclusive == fs[|inclusive|..];
    WithoutIdsAscending(exclusive);
  }

  // ---------------------------------------------------------------------------
  // Entity-level matching

  /** `ChangedFilter::within_tick`: every component's last-changed tick is newer than the window. */
  function ChangedWithinTick(changed: seq<Filter>, entity: EntityCell, lastRun: Tick, thisRun: Tick, isNewer: IsNewerThan): (r: bool)
    requires forall f :: f in changed ==> f.Id() in entity.ticks
    ensures r <==> forall f :: f in changed ==> isNewer(entity.ticks[f.Id()].changed, lastRun, thisRun)
  {
    if changed == [] then true
    else
      assert changed == [changed[0]] + changed[1..];
      isNewer(entity.ticks[changed[0].Id()].changed, lastRun, thisRun)
      && ChangedWithinTick(changed[1..], entity, lastRun, thisRun, isNewer)
  }

  /** `AddedFilter::within_tick`: every component's added tick is newer than the window. */
  function AddedWithinTick(added: seq<Filter>, entity: EntityCell, lastRun: Tick, thisRun: Tick, isNewer: IsNewerThan): (r: bool)
    requires forall f :: f in added ==> f.Id() in entity.ticks
    ensures r <==> forall f :: f in added ==> isNewer(entity.ticks[f.Id()].added, lastRun, thisRun)
  {
    if added == [] then true
    else
      assert added == [added[0]] + added[1..];
      isNewer(entity.ticks[added[0].Id()].added, lastRun, thisRun)
      && AddedWithinTick(added[1..], entity, lastRun, thisRun, isNewer)
  }

  /**
   * The entity-level test a conjunction stands for: the structural test on the
   * entity's archetype (without the fetch test), then every Changed filter's
   * last-changed tick and every Added filter's added tick newer than the window.
   */
  ghost predicate TickMatch(fs: seq<Filter>, entity: EntityCell, lastRun: Tick, thisRun: Tick, isNewer: IsNewerThan) {
    && StructuralMatch(fs, entity.archetype.components)
    && (forall f :: f in fs && f.Kind() == FilterKind.Changed ==>
          f.Id() in entity.ticks && isNewer(entity.ticks[f.Id()].changed, lastRun, thisRun))
    && (forall f :: f in fs && f.Kind() == FilterKind.Added ==>
          f.Id() in entity.ticks && isNewer(entity.ticks[f.Id()].added, lastRun, thisRun))
  }

  /**
   * Once the structural test passed on a valid entity, every Changed and Added
   * filter names a component whose ticks the store has.
   */
  lemma TickLookupsDefined(fs: seq<Filter>, entity: EntityCell)
    requires entity.Valid()
    requires forall f :: f in fs && f.Kind() != FilterKind.Without ==> f.Id() in entity.archetype.components
    ensures forall f :: f in WithKindIn(fs, {FilterKind.Changed}) ==> f.Id() in entity.ticks
    ensures forall f :: f in WithKindIn(fs, {FilterKind.Added}) ==> f.Id() in entity.ticks
  {
  }

  /** After the structural test, `TickMatch` is the conjunction of the two block tests. */
  lemma TickParts(fs: seq<Filter>, entity: EntityCell, lastRun: Tick, thisRun: Tick, isNewer: IsNewerThan,
                  changedOk: bool, addedOk: bool)
    requires entity.Valid() && StructuralMatch(fs, entity.archetype.components)
    requires changedOk <==> forall f :: f in WithKindIn(fs, {FilterKind.Changed}) ==>
      f.Id() in entity.ticks && isNewer(entity.ticks[f.Id()].changed, lastRun, thisRun)
    requires addedOk <==> forall f :: f in WithKindIn(fs, {FilterKind.Added}) ==>
      f.Id() in entity.ticks && isNewer(entity.ticks[f.Id()].added, lastRun, thisRun)
    ensures TickMatch(fs, entity, lastRun, thisRun, isNewer) <==> changedOk && addedOk
  {
  }

  // ---------------------------------------------------------------------------
  // Conjunction views

  /** `Conjunction`: one stored row, paired with the query's fetches. */
  datatype Conjunction = Conjunction(filters: seq<Filter>, fetches: Fetches) {

    /** `Conjunction::includes_archetype`: the fetch test, all filters included and none excluded. */
    method IncludesArchetype(archetype: Archetype) returns (r: bool)
      requires Sorted(filters)
      requires Filter.LastBefore(FilterKind.Without) !in filters
      ensures r == (fetches(archetype) && StructuralMatch(filters, archetype.components))
    {
      var inclusive, exclusive := SplitFilters(filters);
      ExclusiveSearchable(filters, inclusive, exclusive);
      var includeFilter := AllIncluded(inclusive, archetype.components);
      var excludeFilter := AnyExcluded(exclusive, archetype.components);
      var fetchArchetype := fetches(archetype);
      StructuralParts(filters, archetype.components, includeFilter, excludeFilter);
      r := fetchArchetype && includeFilter && !excludeFilter;
    }
  }

  /** `TickConjunction`: one stored row, paired with the query's tick window. */
  datatype TickConjunction = TickConjunction(filters: seq<Filter>, lastRun: Tick, thisRun: Tick) {

    /**
     * `TickConjunction::within_tick`: false, before any tick is looked up, when
     * the entity's archetype fails the structural test; otherwise whether every
     * Changed and every Added filter is within the window.
     */
    method WithinTick(entity: EntityCell, isNewer: IsNewerThan) returns (r: bool)
      requires Sorted(filters) && Filter.LastBefore(FilterKind.Without) !in filters
      requires StructuralMatch(filters, entity.archetype.components) ==> NoSentinels(filters)
      requires entity.Valid()
      ensures !StructuralMatch(filters, entity.archetype.components) ==> !r
      ensures r == TickMatch(filters, entity, lastRun, thisRun, isNewer)
    {
      var components := entity.archetype.components;
      var inclusive, exclusive := SplitFilters(filters);
      ExclusiveSearchable(filters, inclusive, exclusive);
      var includeFilter := AllIncluded(inclusive, components);
      var excludeFilter := AnyExcluded(exclusive, components);
      StructuralParts(filters, components, includeFilter, excludeFilter);
      if !includeFilter || excludeFilter {
        return false;
      }
      var changed, added := TickFilters(filters);
      TickLookupsDefined(filters, entity);
      var changedOk := ChangedWithinTick(changed, entity, lastRun, thisRun, isNewer);
      var addedOk := AddedWithinTick(added, entity, lastRun, thisRun, isNewer);
      TickParts(filters, entity, lastRun, thisRun, isNewer, changedOk, addedOk);
      r := changedOk && addedOk;
    }
  }

  // ---------------------------------------------------------------------------
  // The disjunction

  /** What `Filters::new` establishes of every stored conjunction. */
  ghost predicate CheckedRow(fs: seq<Filter>) {
    Sorted(fs) && DistinctIds(fs)
  }

  /**
   * One row of `Filters::new`: copied into a slice, sorted in place, then
   * checked for two filters with the same `id()`.
   */
  method SortRow(row: seq<Filter>) returns (sorted: seq<Filter>, duplicate: bool)
    ensures sorted == Sort(row)
    ensures Sorted(sorted) && multiset(sorted) == multiset(row)
    ensures duplicate <==> !DistinctIds(sorted)
  {
    var filters := new Filter[|row|](k requires 0 <= k < |row| => row[k]);
    assert filters[..] == row;
    SortUnstable(filters);
    SortSorted(row);
    SortedUnique(filters[..], Sort(row));
    sorted := filters[..];
    duplicate := DuplicatesIn(sorted);
  }

  /**
   * The loop of `Filters::new`: sorts each mapped row in turn and stops with
   * `None` at the first row holding two filters with the same `id()`.
   */
  method SortRows(mapped: seq<seq<Filter>>) returns (rows: Option<seq<seq<Filter>>>)
    ensures rows.None? <==> exists i :: 0 <= i < |mapped| && !DistinctIds(Sort(mapped[i]))
    ensures rows.Some? ==> |rows.value| == |mapped|
    ensures rows.Some? ==> forall i :: 0 <= i < |mapped| ==>
      rows.value[i] == Sort(mapped[i]) && DistinctIds(rows.value[i])
  {
    var builder: seq<seq<Filter>> := [];
    for i := 0 to |mapped|
      invariant |builder| == i
      invariant forall j :: 0 <= j < i ==> builder[j] == Sort(mapped[j])
      invariant forall j :: 0 <= j < i ==> DistinctIds(builder[j])
    {
      var sorted, duplicate := SortRow(mapped[i]);
      if duplicate {
        return None;
      }
      builder := builder + [sorted];
    }
    return Some(builder);
  }

  /** Rows that are the sorted mapped rows, each with distinct ids, are checked permutations of them. */
  lemma BuiltRows(rows: seq<seq<Filter>>, dsl: CtorDsl.OrFilters)
    requires |rows| == |dsl|
    requires forall i :: 0 <= i < |dsl| ==> Encodable(dsl[i])
    requires forall i :: 0 <= i < |dsl| ==> rows[i] == Sort(FromAndFilters(dsl[i]))
    requires forall i :: 0 <= i < |dsl| ==> DistinctIds(rows[i])
    ensures forall i :: 0 <= i < |dsl| ==>
      && CheckedRow(rows[i])
      && multiset(rows[i]) == multiset(FromAndFilters(dsl[i]))
  {
    forall i | 0 <= i < |dsl|
      ensures CheckedRow(rows[i]) && multiset(rows[i]) == multiset(FromAndFilters(dsl[i]))
    {
      var row := FromAndFilters(dsl[i]);
      assert rows[i] == Sort(row);
      SortSorted(row);
    }
  }

  /** `Filters`: the jagged array of conjunctions, one row each. */
  datatype Filters = Filters(rows: seq<seq<Filter>>) {

    /**
     * `Filters::new_unchecked`: stores each row as given. Its safety contract
     * asks for sorted rows without duplicate inclusive filters.
     */
    static method NewUnchecked(dsl: CtorDsl.OrFilters) returns (r: Filters)
      requires forall i :: 0 <= i < |dsl| ==> Encodable(dsl[i])
      requires forall i :: 0 <= i < |dsl| ==>
        Sorted(FromAndFilters(dsl[i])) && DistinctIds(Inclusive(FromAndFilters(dsl[i])))
      ensures |r.rows| == |dsl|
      ensures forall i :: 0 <= i < |dsl| ==> r.rows[i] == FromAndFilters(dsl[i])
    {
      var builder: seq<seq<Filter>> := [];
      for i := 0 to |dsl|
        invariant |builder| == i
        invariant forall j :: 0 <= j < i ==> builder[j] == FromAndFilters(dsl[j])
      {
        builder := builder + [FromAndFilters(dsl[i])];
      }
      return Filters(builder);
    }

    /**
     * `Filters::new`: sorts each row and gives up with `None` on the first row
     * holding two filters with the same `id()`.
     */
    static method New(dsl: CtorDsl.OrFilters) returns (r: Option<Filters>)
      requires forall i :: 0 <= i < |dsl| ==> Encodable(dsl[i])
      ensures r.None? <==> exists i :: 0 <= i < |dsl| && !DistinctIds(Sort(FromAndFilters(dsl[i])))
      ensures r.Some? ==> |r.value.rows| == |dsl|
      ensures r.Some? ==> forall i :: 0 <= i < |dsl| ==>
        && r.value.rows[i] == Sort(FromAndFilters(dsl[i]))
        && CheckedRow(r.value.rows[i])
        && multiset(r.value.rows[i]) == multiset(FromAndFilters(dsl[i]))
    {
      var rows := SortRows(seq(|dsl|, i requires 0 <= i < |dsl| => FromAndFilters(dsl[i])));
      if rows.None? {
        return None;
      }
      BuiltRows(rows.value, dsl);
      return Some(Filters(rows.value));
    }

    /** `impl TryFrom<OrFilters> for Filters`: `new` with `None` turned into `Err(())`. */
    static method TryFrom(dsl: CtorDsl.OrFilters) returns (r: Result<Filters, ()>)
      requires forall i :: 0 <= i < |dsl| ==> Encodable(dsl[i])
      ensures r.Ok? <==> forall i :: 0 <= i < |dsl| ==> DistinctIds(Sort(FromAndFilters(dsl[i])))
      ensures r.Ok? ==> |r.value.rows| == |dsl|
      ensures r.Ok? ==> forall i :: 0 <= i < |dsl| ==> r.value.rows[i] == Sort(FromAndFilters(dsl[i]))
    {
      var checked := New(dsl);
      r := if checked.Some? then Ok(checked.value) else Err(());
    }

    /** `Filters::conjunctions`: one view per row, in order, all sharing `fetches`. */
    function Conjunctions(fetches: Fetches): (cs: seq<Conjunction>)
      ensures |cs| == |rows|
      ensures forall i :: 0 <= i < |cs| ==> cs[i].filters == rows[i] && cs[i].fetches == fetches
    {
      seq(|rows|, i requires 0 <= i < |rows| => Conjunction(rows[i], fetches))
    }

    /** `Filters::tick_conjunctions`: one view per row, in order, all with the same window. */
    function TickConjunctions(lastRun: Tick, thisRun: Tick): (cs: seq<TickConjunction>)
      ensures |cs| == |rows|
      ensures forall i :: 0 <= i < |cs| ==>
        cs[i].filters == rows[i] && cs[i].lastRun == lastRun && cs[i].thisRun == thisRun
    {
      seq(|rows|, i requires 0 <= i < |rows| => TickConjunction(rows[i], lastRun, thisRun))
    }
  }
}
