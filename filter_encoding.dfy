/**
 * `FilterKind` and `Filter` of src/filters.rs: a predicate kind and a component
 * id packed into one `u32`, the kind in the two most significant bits.
 */
module FilterEncoding {
  import opened Prelude
  import opened World

  /** `Filter::KIND_OFFSET`. */
  const KIND_OFFSET: nat := 30

  /** `1 << KIND_OFFSET`: ids below this fit under the kind bits. */
  const ID_BOUND: nat := 0x4000_0000

  /** `Filter::MASK`, as the source has it: 31 bits, one more than the id field. */
  const MASK: nat := 0x7fff_ffff

  /** `FilterKind`, with the discriminants of its `#[repr(u32)]`. */
  datatype FilterKind = With | Changed | Added | Without {

    /** `kind as u32`. */
    function Discriminant(): (d: nat)
      ensures d < 4
    {
      match this
      case With => 0
      case Changed => 1
      case Added => 2
      case Without => 3
    }

    /** `FilterKind::from_u32`; any other value is `unreachable!()`. */
    static function FromU32(u: u32): (k: FilterKind)
      requires u < 4
      ensures k.Discriminant() == u as nat
    {
      if u == 0 then With
      else if u == 1 then Changed
      else if u == 2 then Added
      else Without
    }
  }

  /** `Filter`: the raw `u32`, whose derived `Ord` is the order of `component`. */
  datatype Filter = Filter(component: u32) {

    /**
     * `id()`: `component & MASK`. For a `u32` that clears bit 31, written here
     * as a subtraction; `IdIsMasked` states it as the remainder.
     */
    function Id(): (id: ComponentId)
      ensures id <= MASK
      ensures component as int <= MASK ==> id == component as int
    {
      if component as int <= MASK then component as int else component as int - (MASK + 1)
    }

    /** `kind()`: `component >> KIND_OFFSET`, decoded by `from_u32`. */
    function Kind(): (k: FilterKind)
      ensures k.Discriminant() == component as int / ID_BOUND
    {
      FilterKind.FromU32((component as int / ID_BOUND) as u32)
    }

    /**
     * `Filter::new`: `(kind as u32) << KIND_OFFSET | id`. With `id` below
     * `ID_BOUND` the two operands share no bit, so the `|` is a sum.
     */
    static function New(kind: FilterKind, id: ComponentId): (f: Filter)
      requires id < ID_BOUND
      ensures f.Kind() == kind
      ensures f.component as int % ID_BOUND == id
    {
      Filter((kind.Discriminant() * ID_BOUND + id) as u32)
    }

    /**
     * The sentinel of `filters` and `tick_filters`: `new(kind, 0)` with one
     * subtracted from its `component`.
     */
    static function LastBefore(kind: FilterKind): (f: Filter)
      requires kind != With
      ensures f.Kind().Discriminant() == kind.Discriminant() - 1
      ensures f.component as int % ID_BOUND == ID_BOUND - 1
    {
      Filter(New(kind, 0).component - 1)
    }
  }

  /** The order `sort_unstable` establishes: ascending by the derived `Ord`. */
  ghost predicate Sorted(s: seq<Filter>) {
    forall i, j :: 0 <= i < j < |s| ==> s[i].component <= s[j].component
  }

  /** `id()` is the remainder of `component` modulo `MASK + 1`: the `& MASK` keeps the low 31 bits. */
  lemma IdIsMasked(f: Filter)
    ensures f.Id() == f.component as int % (MASK + 1)
  {
  }

  /**
   * What `id()` returns for a freshly built filter: the id itself for With and
   * Added, but the id plus `ID_BOUND` for Changed and Without, since `MASK`
   * keeps bit 30, the low bit of the kind.
   */
  lemma IdOfNew(kind: FilterKind, id: ComponentId)
    requires id < ID_BOUND
    ensures Filter.New(kind, id).Id() == if kind == Changed || kind == Without then id + ID_BOUND else id
  {
    var c := Filter.New(kind, id).component as int;
    match kind
    case With => assert c == id;
    case Changed => assert c == ID_BOUND + id;
    case Added => assert c == 2 * ID_BOUND + id;
    case Without => assert c == 3 * ID_BOUND + id;
  }

  /** The id the encoding evidently intends: the low `KIND_OFFSET` bits (`component & 0x3fff_ffff`). */
  function CorrectedId(f: Filter): (id: ComponentId)
    ensures id < ID_BOUND
  {
    f.component as int % ID_BOUND
  }

  /** With the corrected id, decoding and encoding are inverses in both directions. */
  lemma CorrectedRoundTrip(kind: FilterKind, id: ComponentId, f: Filter)
    requires id < ID_BOUND
    ensures CorrectedId(Filter.New(kind, id)) == id && Filter.New(kind, id).Kind() == kind
    ensures Filter.New(f.Kind(), CorrectedId(f)) == f
  {
    var c := f.component as int;
    assert c == (c / ID_BOUND) * ID_BOUND + c % ID_BOUND;
  }

  /**
   * The derived `Ord` on the raw `u32` orders filters by kind discriminant
   * first and by id second.
   */
  lemma NewOrder(k1: FilterKind, c1: ComponentId, k2: FilterKind, c2: ComponentId)
    requires c1 < ID_BOUND && c2 < ID_BOUND
    ensures Filter.New(k1, c1).component < Filter.New(k2, c2).component
        <==> k1.Discriminant() < k2.Discriminant() || (k1 == k2 && c1 < c2)
  {
    var d1, d2 := k1.Discriminant(), k2.Discriminant();
    assert Filter.New(k1, c1).component as int == d1 * ID_BOUND + c1;
    assert Filter.New(k2, c2).component as int == d2 * ID_BOUND + c2;
    if d1 < d2 {
      assert d1 * ID_BOUND + ID_BOUND <= d2 * ID_BOUND;
    } else if d2 < d1 {
      assert d2 * ID_BOUND + ID_BOUND <= d1 * ID_BOUND;
    } else {
      assert k1 == k2;
    }
  }

  /**
   * A filter other than the sentinel of `kind` lies below it exactly when its
   * own kind comes before `kind`.
   */
  lemma SentinelSeparates(g: Filter, kind: FilterKind)
    requires kind != With && g != Filter.LastBefore(kind)
    ensures g.component < Filter.LastBefore(kind).component
        <==> g.Kind().Discriminant() < kind.Discriminant()
  {
    var c, d := g.component as int, kind.Discriminant();
    assert Filter.LastBefore(kind).component as int == d * ID_BOUND - 1;
    assert g.Kind().Discriminant() == c / ID_BOUND;
    assert c == (c / ID_BOUND) * ID_BOUND + c % ID_BOUND;
  }

  /**
   * The sentinel of each kind is itself an encodable filter: the one of the
   * previous kind with the largest id, `ID_BOUND - 1`.
   */
  lemma SentinelCollision(kind: FilterKind)
    requires kind != With
    ensures Filter.LastBefore(kind) == Filter.New(FilterKind.FromU32((kind.Discriminant() - 1) as u32), ID_BOUND - 1)
  {
  }

  /**
   * Without exception, a filter lies below `new(kind, 0)` exactly when its own
   * kind comes before `kind`: the boundary the sentinels approximate.
   */
  lemma FirstOfKindSeparates(g: Filter, kind: FilterKind)
    ensures g.component < Filter.New(kind, 0).component
        <==> g.Kind().Discriminant() < kind.Discriminant()
  {
    var c, d := g.component as int, kind.Discriminant();
    assert Filter.New(kind, 0).component as int == d * ID_BOUND;
    assert g.Kind().Discriminant() == c / ID_BOUND;
    assert c == (c / ID_BOUND) * ID_BOUND + c % ID_BOUND;
  }

  /** Filters whose id is below `ID_BOUND - 1` are never a sentinel. */
  lemma NotSentinel(f: Filter, kind: FilterKind)
    requires kind != With
    requires CorrectedId(f) < ID_BOUND - 1
    ensures f != Filter.LastBefore(kind)
  {
  }

  /** Within one kind, ascending `component` means ascending `id()`. */
  lemma IdMonotoneWithinKind(f: Filter, g: Filter)
    requires f.Kind() == g.Kind()
    ensures f.component <= g.component ==> f.Id() <= g.Id()
  {
    var cf, cg := f.component as int, g.component as int;
    assert cf == (cf / ID_BOUND) * ID_BOUND + cf % ID_BOUND;
    assert cg == (cg / ID_BOUND) * ID_BOUND + cg % ID_BOUND;
    assert cf / ID_BOUND == cg / ID_BOUND;
  }
}
