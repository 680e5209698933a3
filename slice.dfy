/**
 * The two slice algorithms of the Rust standard library that src/filters.rs
 * relies on: `sort_unstable` on a vector of filters and `binary_search`.
 */
module Slice {
  import opened Prelude
  import opened FilterEncoding

  /** Inserts `x` into an ascending sequence, after its smaller elements. */
  function Insert(x: Filter, s: seq<Filter>): (r: seq<Filter>)
    ensures multiset(r) == multiset(s) + multiset{x}
    decreases |s|
  {
    if s == [] || x.component <= s[0].component then [x] + s
    else
      assert s == [s[0]] + s[1..];
      [s[0]] + Insert(x, s[1..])
  }

  /** Inserting into an ascending sequence keeps it ascending. */
  lemma {:induction false} InsertSorted(x: Filter, s: seq<Filter>)
    requires Sorted(s)
    ensures Sorted(Insert(x, s))
    decreases |s|
  {
    if s == [] {
    } else if x.component <= s[0].component {
      forall j | 1 <= j < |s| + 1 ensures x.component <= ([x] + s)[j].component {
        assert s[0].component <= s[j - 1].component;
      }
    } else {
      var rest := Insert(x, s[1..]);
      InsertSorted(x, s[1..]);
      InsertBounded(x, s[1..], s[0].component);
      forall j | 1 <= j < |rest| + 1 ensures s[0].component <= ([s[0]] + rest)[j].component {
        assert rest[j - 1] in rest;
      }
    }
  }

  /** A lower bound of `x` and of all of `s` bounds everything in `Insert(x, s)`. */
  lemma InsertBounded(x: Filter, s: seq<Filter>, b: u32)
    requires b <= x.component
    requires forall k :: 0 <= k < |s| ==> b <= s[k].component
    ensures forall y :: y in Insert(x, s) ==> b <= y.component
  {
    forall y | y in Insert(x, s) ensures b <= y.component {
      assert y in multiset(Insert(x, s));
      if y != x {
        assert y in multiset(s);
        var k :| 0 <= k < |s| && s[k] == y;
      }
    }
  }

  /** A permutation of `s`, by insertion: the reference for `SortUnstable`. */
  function Sort(s: seq<Filter>): (r: seq<Filter>)
    ensures multiset(r) == multiset(s)
  {
    if s == [] then []
    else
      assert s == [s[0]] + s[1..];
      Insert(s[0], Sort(s[1..]))
  }

  /** `Sort` orders its result: it is the sorted permutation. */
  lemma {:induction false} SortSorted(s: seq<Filter>)
    ensures Sorted(Sort(s))
  {
    if s != [] {
      SortSorted(s[1..]);
      InsertSorted(s[0], Sort(s[1..]));
    }
  }

  /** The head of an ascending sequence is at most any of its elements. */
  lemma SortedHeadIsLeast(a: seq<Filter>, y: Filter)
    requires Sorted(a) && y in multiset(a)
    ensures a[0].component <= y.component
  {
    var k :| 0 <= k < |a| && a[k] == y;
  }

  /** Two ascending sequences with the same elements are equal: sorting is deterministic. */
  lemma {:induction false} SortedUnique(a: seq<Filter>, b: seq<Filter>)
    requires Sorted(a) && Sorted(b)
    requires multiset(a) == multiset(b)
    ensures a == b
    decreases |a|
  {
    assert |a| == |multiset(a)| == |multiset(b)| == |b|;
    if a != [] {
      SortedHeadIsLeast(a, b[0]);
      SortedHeadIsLeast(b, a[0]);
      assert a[0] == b[0];
      assert a == [a[0]] + a[1..];
      assert b == [b[0]] + b[1..];
      assert multiset(a[1..]) == multiset(b[1..]) by {
        assert multiset(a) == multiset{a[0]} + multiset(a[1..]);
        assert multiset(b) == multiset{a[0]} + multiset(b[1..]);
        assert multiset(a[1..]) == multiset(a) - multiset{a[0]};
        assert multiset(b[1..]) == multiset(b) - multiset{a[0]};
      }
      SortedUnique(a[1..], b[1..]);
    }
  }

  /** Exchanges two elements of `a`. */
  method Swap(a: array<Filter>, i: nat, j: nat)
    requires i < a.Length && j < a.Length
    modifies a
    ensures a[i] == old(a[j]) && a[j] == old(a[i])
    ensures forall k :: 0 <= k < a.Length && k != i && k != j ==> a[k] == old(a[k])
    ensures multiset(a[..]) == old(multiset(a[..]))
  {
    a[i], a[j] := a[j], a[i];
  }

  /** `<[Filter]>::sort_unstable`, in place (here by insertion). */
  method SortUnstable(a: array<Filter>)
    modifies a
    ensures Sorted(a[..])
    ensures multiset(a[..]) == old(multiset(a[..]))
  {
    var i := 0;
    while i < a.Length
      invariant 0 <= i <= a.Length
      invariant forall p, q :: 0 <= p < q < i ==> a[p].component <= a[q].component
      invariant multiset(a[..]) == old(multiset(a[..]))
    {
      var j := i;
      while 0 < j && a[j].component < a[j - 1].component
        invariant 0 <= j <= i
        invariant forall p, q :: 0 <= p < q <= i && p != j && q != j ==> a[p].component <= a[q].component
        invariant forall q :: j < q <= i ==> a[j].component <= a[q].component
        invariant multiset(a[..]) == old(multiset(a[..]))
      {
        Swap(a, j - 1, j);
        j := j - 1;
      }
      i := i + 1;
    }
  }

  /** Non-decreasing keys, the precondition under which `binary_search` is meaningful. */
  ghost predicate Ascending(keys: seq<int>) {
    forall i, j :: 0 <= i < j < |keys| ==> keys[i] <= keys[j]
  }

  /**
   * `<[T]>::binary_search` (and `binary_search_by_key`) over the keys of a
   * slice: `Ok` with a position holding `target`, or `Err` with the position
   * where `target` would be inserted.
   */
  method BinarySearch(keys: seq<int>, target: int) returns (r: Result<nat, nat>)
    requires Ascending(keys)
    ensures r.Ok? ==> r.value < |keys| && keys[r.value] == target
    ensures r.Err? ==> r.error <= |keys| && target !in keys
    ensures r.Err? ==> forall k :: 0 <= k < r.error ==> keys[k] < target
    ensures r.Err? ==> forall k :: r.error <= k < |keys| ==> target < keys[k]
  {
    var lo, hi := 0, |keys|;
    while lo < hi
      invariant 0 <= lo <= hi <= |keys|
      invariant forall k :: 0 <= k < lo ==> keys[k] < target
      invariant forall k :: hi <= k < |keys| ==> target < keys[k]
    {
      var mid := lo + (hi - lo) / 2;
      if keys[mid] < target {
        lo := mid + 1;
      } else if target < keys[mid] {
        hi := mid;
      } else {
        return Ok(mid);
      }
    }
    return Err(lo);
  }

  /**
   * `<[T]>::partition_point` with the predicate `key < target`: the number of
   * keys below `target`, which need not be absent from `keys`.
   */
  method LowerBound(keys: seq<int>, target: int) returns (i: nat)
    requires Ascending(keys)
    ensures i <= |keys|
    ensures forall k :: 0 <= k < i ==> keys[k] < target
    ensures forall k :: i <= k < |keys| ==> target <= keys[k]
  {
    var lo, hi := 0, |keys|;
    while lo < hi
      invariant 0 <= lo <= hi <= |keys|
      invariant forall k :: 0 <= k < lo ==> keys[k] < target
      invariant forall k :: hi <= k < |keys| ==> target <= keys[k]
    {
      var mid := lo + (hi - lo) / 2;
      if keys[mid] < target {
        lo := mid + 1;
      } else {
        hi := mid;
      }
    }
    return lo;
  }
}
