/**
 * Properties of the filter engine that relate several of its operations:
 * the kind blocks of a sorted conjunction, what checked construction buys the
 * matchers, and what the 31-bit `MASK` does to matching.
 */
module FilterProperties {
  import opened Prelude
  import opened World
  import CtorDsl
  import opened FilterEncoding
  import opened Slice
  import opened Filters

  /** A sequence with no filter of the given kinds has an empty block for them. */
  lemma {:induction false} EmptyBlock(fs: seq<Filter>, kinds: set<FilterKind>)
    requires forall f :: f in fs ==> f.Kind() !in kinds
    ensures WithKindIn(fs, kinds) == []
    decreases |fs|
  {
    if fs != [] {
      assert fs[0] in fs;
      EmptyBlock(fs[1..], kinds);
    }
  }

  /** `WithKindIn` of a sequence with a head. */
  lemma WithKindInCons(h: Filter, t: seq<Filter>, kinds: set<FilterKind>)
    ensures WithKindIn([h] + t, kinds) == (if h.Kind() in kinds then [h] else []) + WithKindIn(t, kinds)
  {
    assert ([h] + t)[1..] == t;
  }

  /** Along a sorted conjunction the kind discriminants never decrease. */
  lemma SortedKinds(f: Filter, g: Filter)
    requires f.component <= g.component
    ensures f.Kind().Discriminant() <= g.Kind().Discriminant()
  {
  }

  /** The four kind blocks of `fs`, in discriminant order. */
  function Blocks(fs: seq<Filter>): seq<Filter> {
    WithKindIn(fs, {FilterKind.With}) + WithKindIn(fs, {FilterKind.Changed})
    + WithKindIn(fs, {FilterKind.Added}) + WithKindIn(fs, {FilterKind.Without})
  }

  /** `[h] + w + c + a + x`, regrouped. */
  lemma Regroup(h: Filter, w: seq<Filter>, c: seq<Filter>, a: seq<Filter>, x: seq<Filter>)
    ensures ([h] + w) + c + a + x == [h] + (w + c + a + x)
    ensures w + ([h] + c) + a + x == [h] + (w + c + a + x) <== w == []
    ensures w + c + ([h] + a) + x == [h] + (w + c + a + x) <== w == [] && c == []
    ensures w + c + a + ([h] + x) == [h] + (w + c + a + x) <== w == [] && c == [] && a == []
  {
    assert ([h] + w) + c == [h] + (w + c);
    assert ([h] + (w + c)) + a == [h] + ((w + c) + a);
    assert ([h] + ((w + c) + a)) + x == [h] + (((w + c) + a) + x);
  }

  /** `BlocksCons` for a head that is a With filter. */
  lemma BlocksConsWith(h: Filter, t: seq<Filter>)
    requires h.Kind() == FilterKind.With
    ensures Blocks([h] + t) == [h] + Blocks(t)
  {
    var w, c, a, x := WithKindIn(t, {FilterKind.With}), WithKindIn(t, {FilterKind.Changed}),
                      WithKindIn(t, {FilterKind.Added}), WithKindIn(t, {FilterKind.Without});
    assert WithKindIn([h] + t, {FilterKind.With}) == [h] + w by { WithKindInCons(h, t, {FilterKind.With}); }
    assert WithKindIn([h] + t, {FilterKind.Changed}) == c by { WithKindInCons(h, t, {FilterKind.Changed}); }
    assert WithKindIn([h] + t, {FilterKind.Added}) == a by { WithKindInCons(h, t, {FilterKind.Added}); }
    assert WithKindIn([h] + t, {FilterKind.Without}) == x by { WithKindInCons(h, t, {FilterKind.Without}); }
    Regroup(h, w, c, a, x);
  }

  /** `BlocksCons` for a head that is a Changed filter. */
  lemma BlocksConsChanged(h: Filter, t: seq<Filter>)
    requires h.Kind() == FilterKind.Changed
    requires forall g :: g in t ==> g.Kind() != FilterKind.With
    ensures Blocks([h] + t) == [h] + Blocks(t)
  {
    var w, c, a, x := WithKindIn(t, {FilterKind.With}), WithKindIn(t, {FilterKind.Changed}),
                      WithKindIn(t, {FilterKind.Added}), WithKindIn(t, {FilterKind.Without});
    assert w == [] by { EmptyBlock(t, {FilterKind.With}); }
    assert WithKindIn([h] + t, {FilterKind.With}) == [] by { EmptyBlock([h] + t, {FilterKind.With}); }
    assert WithKindIn([h] + t, {FilterKind.Changed}) == [h] + c by { WithKindInCons(h, t, {FilterKind.Changed}); }
    assert WithKindIn([h] + t, {FilterKind.Added}) == a by { WithKindInCons(h, t, {FilterKind.Added}); }
    assert WithKindIn([h] + t, {FilterKind.Without}) == x by { WithKindInCons(h, t, {FilterKind.Without}); }
    Regroup(h, w, c, a, x);
  }

  /** `BlocksCons` for a head that is an Added filter. */
  lemma BlocksConsAdded(h: Filter, t: seq<Filter>)
    requires h.Kind() == FilterKind.Added
    requires forall g :: g in t ==> g.Kind() != FilterKind.With && g.Kind() != FilterKind.Changed
    ensures Blocks([h] + t) == [h] + Blocks(t)
  {
    var w, c, a, x := WithKindIn(t, {FilterKind.With}), WithKindIn(t, {FilterKind.Changed}),
                      WithKindIn(t, {FilterKind.Added}), WithKindIn(t, {FilterKind.Without});
    assert w == [] by { EmptyBlock(t, {FilterKind.With}); }
    assert c == [] by { EmptyBlock(t, {FilterKind.Changed}); }
    assert WithKindIn([h] + t, {FilterKind.With}) == [] by { EmptyBlock([h] + t, {FilterKind.With}); }
    assert WithKindIn([h] + t, {FilterKind.Changed}) == [] by { EmptyBlock([h] + t, {FilterKind.Changed}); }
    assert WithKindIn([h] + t, {FilterKind.Added}) == [h] + a by { WithKindInCons(h, t, {FilterKind.Added}); }
    assert WithKindIn([h] + t, {FilterKind.Without}) == x by { WithKindInCons(h, t, {FilterKind.Without}); }
    Regroup(h, w, c, a, x);
  }

  /** `BlocksCons` for a head that is a Without filter. */
  lemma BlocksConsWithout(h: Filter, t: seq<Filter>)
    requires h.Kind() == FilterKind.Without
    requires forall g :: g in t ==> g.Kind() == FilterKind.Without
    ensures Blocks([h] + t) == [h] + Blocks(t)
  {
    var w, c, a, x := WithKindIn(t, {FilterKind.With}), WithKindIn(t, {FilterKind.Changed}),
                      WithKindIn(t, {FilterKind.Added}), WithKindIn(t, {FilterKind.Without});
    assert w == [] by { EmptyBlock(t, {FilterKind.With}); }
    assert c == [] by { EmptyBlock(t, {FilterKind.Changed}); }
    assert a == [] by { EmptyBlock(t, {FilterKind.Added}); }
    assert WithKindIn([h] + t, {FilterKind.With}) == [] by { EmptyBlock([h] + t, {FilterKind.With}); }
    assert WithKindIn([h] + t, {FilterKind.Changed}) == [] by { EmptyBlock([h] + t, {FilterKind.Changed}); }
    assert WithKindIn([h] + t, {FilterKind.Added}) == [] by { EmptyBlock([h] + t, {FilterKind.Added}); }
    assert WithKindIn([h] + t, {FilterKind.Without}) == [h] + x by { WithKindInCons(h, t, {FilterKind.Without}); }
    Regroup(h, w, c, a, x);
  }

  /** A filter whose kind is at most every kind in `t` goes at the front of the blocks of `t`. */
  lemma BlocksCons(h: Filter, t: seq<Filter>)
    requires forall g :: g in t ==> h.Kind().Discriminant() <= g.Kind().Discriminant()
    ensures Blocks([h] + t) == [h] + Blocks(t)
  {
    match h.Kind()
    case With => BlocksConsWith(h, t);
    case Changed => BlocksConsChanged(h, t);
    case Added => BlocksConsAdded(h, t);
    case Without => BlocksConsWithout(h, t);
  }

  /**
   * Every sorted conjunction, whatever its ids, is its With block, then its
   * Changed block, then its Added block, then its Without block: the split the
   * sentinel searches are meant to find, here without any sentinel.
   */
  lemma {:induction false} KindBlocks(fs: seq<Filter>)
    requires Sorted(fs)
    ensures fs == WithKindIn(fs, {FilterKind.With}) + WithKindIn(fs, {FilterKind.Changed})
                + WithKindIn(fs, {FilterKind.Added}) + WithKindIn(fs, {FilterKind.Without})
    decreases |fs|
  {
    if fs != [] {
      var h, t := fs[0], fs[1..];
      assert fs == [h] + t;
      KindBlocks(t);
      forall g | g in t ensures h.Kind().Discriminant() <= g.Kind().Discriminant() {
        var k :| 0 <= k < |t| && t[k] == g;
        assert fs[k + 1] == g;
        SortedKinds(h, g);
      }
      BlocksCons(h, t);
      assert fs == Blocks(fs);
    }
  }

  /**
   * On a conjunction built by `Filters::new` (distinct ids), the structural
   * test is plain inclusion of the With, Changed and Added ids and exclusion of
   * the Without ids.
   */
  lemma StructuralMatchOfCheckedRow(fs: seq<Filter>, components: seq<ComponentId>)
    requires CheckedRow(fs)
    ensures StructuralMatch(fs, components) <==>
      && (forall f :: f in fs && f.Kind() != FilterKind.Without ==> f.Id() in components)
      && (forall f :: f in fs && f.Kind() == FilterKind.Without ==> f.Id() !in components)
  {
    WithKindInDistinct(fs, {FilterKind.With, FilterKind.Changed, FilterKind.Added});
  }

  /**
   * Rows whose ids stay below `ID_BOUND - 1` carry no sentinel, before or after
   * sorting, so their conjunctions meet the matchers' preconditions.
   */
  lemma NoSentinelsBelowLastId(row: CtorDsl.AndFilters)
    requires forall i :: 0 <= i < |row| ==> row[i].id < ID_BOUND - 1
    ensures NoSentinels(FromAndFilters(row)) && NoSentinels(Sort(FromAndFilters(row)))
  {
    var fs := FromAndFilters(row);
    forall f, kind | f in fs && kind != FilterKind.With ensures f != Filter.LastBefore(kind) {
      var i :| 0 <= i < |fs| && fs[i] == f;
      NotSentinel(f, kind);
    }
    forall f | f in Sort(fs) ensures f in fs {
      assert f in multiset(Sort(fs));
    }
  }

  /**
   * As written, a Changed filter can never pass the structural test of an
   * archetype whose ids fit the encoding: its `id()` is the id plus `ID_BOUND`.
   */
  lemma ChangedNeverMatches(fs: seq<Filter>, components: seq<ComponentId>, id: ComponentId)
    requires id < ID_BOUND && Filter.New(FilterKind.Changed, id) in fs
    requires forall c :: c in components ==> c < ID_BOUND
    ensures !StructuralMatch(fs, components)
  {
    IdOfNew(FilterKind.Changed, id);
  }

  /**
   * As written, Without filters never exclude an archetype whose ids fit the
   * encoding: their `id()` is at least `ID_BOUND`.
   */
  lemma WithoutNeverExcludes(fs: seq<Filter>, components: seq<ComponentId>)
    requires forall c :: c in components ==> c < ID_BOUND
    ensures forall f :: f in fs && f.Kind() == FilterKind.Without ==> f.Id() !in components
  {
    forall f | f in fs && f.Kind() == FilterKind.Without ensures ID_BOUND <= f.Id() {
      var c := f.component as int;
      assert c / ID_BOUND == 3;
    }
  }

  /**
   * As written, `Filters::new` accepts a With and a Changed filter on the same
   * component, which the corrected id would reject as a duplicate.
   */
  lemma SameIdAcrossKindsAccepted(id: ComponentId)
    requires id < ID_BOUND
    ensures DistinctIds(Sort(FromAndFilters([CtorDsl.With(id), CtorDsl.Changed(id)])))
    ensures CorrectedId(FromAndFilter(CtorDsl.With(id))) == CorrectedId(FromAndFilter(CtorDsl.Changed(id)))
  {
    var with, changed := Filter.New(FilterKind.With, id), Filter.New(FilterKind.Changed, id);
    var fs := FromAndFilters([CtorDsl.With(id), CtorDsl.Changed(id)]);
    assert fs == [with, changed];
    NewOrder(FilterKind.With, id, FilterKind.Changed, id);
    assert Sorted(fs);
    SortSorted(fs);
    SortedUnique(Sort(fs), fs);
    IdOfNew(FilterKind.With, id);
    IdOfNew(FilterKind.Changed, id);
    assert with.Id() != changed.Id();
  }

  /**
   * As written, `Filters::new` does reject a Changed and a Without filter on
   * the same component: both `id()`s carry the same extra bit 30.
   */
  lemma ChangedWithoutSameIdRejected(id: ComponentId)
    requires id < ID_BOUND
    ensures !DistinctIds(Sort(FromAndFilters([CtorDsl.Changed(id), CtorDsl.Without(id)])))
  {
    var changed, without := Filter.New(FilterKind.Changed, id), Filter.New(FilterKind.Without, id);
    var fs := FromAndFilters([CtorDsl.Changed(id), CtorDsl.Without(id)]);
    assert fs == [changed, without];
    IdOfNew(FilterKind.Changed, id);
    IdOfNew(FilterKind.Without, id);
    var sorted := Sort(fs);
    assert |sorted| == |multiset(sorted)| == 2;
    assert sorted[0] in multiset(fs) && sorted[1] in multiset(fs);
    assert sorted[0].Id() == sorted[1].Id();
  }
}
