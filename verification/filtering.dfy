/**
 * The row filter of the dashboard: `data[mask]` where the mask is the
 * conjunction of `isin` on REGION and MARITAL_STATUS and an inclusive
 * `between` on AGE and SALARY.
 */
module Filtering {
  import opened Customers

  /** The rows the selection accepts, in table order. */
  function Filter(rows: seq<Customer>, sel: Selection): (kept: seq<Customer>)
    ensures |kept| <= |rows|
    ensures forall c :: c in kept <==> c in rows && sel.Accepts(c)
  {
    if rows == [] then []
    else
      assert rows == [rows[0]] + rows[1..];
      (if sel.Accepts(rows[0]) then [rows[0]] else []) + Filter(rows[1..], sel)
  }

  /**
   * No row is created, duplicated or altered: each accepted row is kept as
   * often as the table holds it, and no rejected row is kept.
   */
  lemma {:induction false} FilterCounts(rows: seq<Customer>, sel: Selection)
    ensures forall c :: multiset(Filter(rows, sel))[c] == if sel.Accepts(c) then multiset(rows)[c] else 0
  {
    if rows != [] {
      FilterCounts(rows[1..], sel);
      assert rows == [rows[0]] + rows[1..];
    }
  }

  /** The positions, from `from` on, where the boolean mask is true, in increasing order. */
  function KeptPositions(rows: seq<Customer>, sel: Selection, from: nat): (idx: seq<int>)
    requires from <= |rows|
    ensures forall k :: 0 <= k < |idx| ==> from <= idx[k] < |rows| && sel.Accepts(rows[idx[k]])
    ensures forall k, l :: 0 <= k < l < |idx| ==> idx[k] < idx[l]
    decreases |rows| - from
  {
    if from == |rows| then []
    else (if sel.Accepts(rows[from]) then [from] else []) + KeptPositions(rows, sel, from + 1)
  }

  /** Every accepted position from `from` on is listed: the mask drops nothing it accepts. */
  lemma {:induction false} KeptPositionsComplete(rows: seq<Customer>, sel: Selection, from: nat, i: int)
    requires from <= i < |rows| && sel.Accepts(rows[i])
    ensures i in KeptPositions(rows, sel, from)
    decreases |rows| - from
  {
    if from < i {
      KeptPositionsComplete(rows, sel, from + 1, i);
    }
  }

  lemma {:induction false} FilterAppend(a: seq<Customer>, b: seq<Customer>, sel: Selection)
    ensures Filter(a + b, sel) == Filter(a, sel) + Filter(b, sel)
  {
    if a == [] {
      assert a + b == b;
    } else {
      assert (a + b)[1..] == a[1..] + b;
      FilterAppend(a[1..], b, sel);
    }
  }

  /** Filtering a suffix: its first row is kept or dropped, then the rest is filtered. */
  lemma FilterSuffix(rows: seq<Customer>, sel: Selection, from: nat)
    requires from < |rows|
    ensures Filter(rows[from..], sel)
      == (if sel.Accepts(rows[from]) then [rows[from]] else []) + Filter(rows[from + 1..], sel)
  {
    assert rows[from..][1..] == rows[from + 1..];
  }

  lemma ConsIndex<T>(x: T, xs: seq<T>, k: int)
    requires 1 <= k <= |xs|
    ensures ([x] + xs)[k] == xs[k - 1]
  {
  }

  /**
   * The filter is exactly `data[mask]`: the k-th kept row is the row at the
   * k-th position where the mask holds, so the result is an order-preserving
   * subsequence of the table in which every accepted row appears once.
   * Stated for every suffix `rows[from..]`; `from == 0` is the whole table.
   */
  lemma {:induction false} FilterSelectsMaskedRows(rows: seq<Customer>, sel: Selection, from: nat)
    requires from <= |rows|
    ensures |Filter(rows[from..], sel)| == |KeptPositions(rows, sel, from)|
    ensures forall k :: 0 <= k < |KeptPositions(rows, sel, from)| ==>
      Filter(rows[from..], sel)[k] == rows[KeptPositions(rows, sel, from)[k]]
    decreases |rows| - from
  {
    if from < |rows| {
      FilterSelectsMaskedRows(rows, sel, from + 1);
      FilterSuffix(rows, sel, from);
      var kept := Filter(rows[from..], sel);
      var rest := Filter(rows[from + 1..], sel);
      var idx := KeptPositions(rows, sel, from);
      var later := KeptPositions(rows, sel, from + 1);
      if sel.Accepts(rows[from]) {
        assert kept == [rows[from]] + rest && idx == [from] + later;
        forall k | 1 <= k < |idx| ensures kept[k] == rows[idx[k]] {
          ConsIndex(rows[from], rest, k);
          ConsIndex(from, later, k);
        }
      } else {
        assert kept == rest && idx == later;
      }
    }
  }

  /** A selection that accepts every row keeps the table unchanged. */
  lemma {:induction false} FilterAcceptingAll(rows: seq<Customer>, sel: Selection)
    requires forall c :: c in rows ==> sel.Accepts(c)
    ensures Filter(rows, sel) == rows
  {
    if rows != [] {
      assert rows[0] in rows;
      FilterAcceptingAll(rows[1..], sel);
    }
  }

  /**
   * Narrowing any components of the selection only drops rows: the narrow
   * result is the narrow filter applied to the wide result, so it is a
   * subsequence of it.
   */
  lemma {:induction false} FilterMonotone(rows: seq<Customer>, narrow: Selection, wide: Selection)
    requires narrow.NarrowerThan(wide)
    ensures Filter(Filter(rows, wide), narrow) == Filter(rows, narrow)
    ensures |Filter(rows, narrow)| <= |Filter(rows, wide)|
    ensures multiset(Filter(rows, narrow)) <= multiset(Filter(rows, wide))
  {
    if rows != [] {
      var head := rows[0];
      FilterMonotone(rows[1..], narrow, wide);
      NarrowerAccepts(narrow, wide, head);
      var front := if wide.Accepts(head) then [head] else [];
      FilterAppend(front, Filter(rows[1..], wide), narrow);
    }
    FilterCounts(rows, narrow);
    FilterCounts(rows, wide);
    forall c ensures multiset(Filter(rows, narrow))[c] <= multiset(Filter(rows, wide))[c] {
      NarrowerAccepts(narrow, wide, c);
    }
  }

  /** Filtering twice with the same selection is the same as filtering once. */
  lemma FilterIdempotent(rows: seq<Customer>, sel: Selection)
    ensures Filter(Filter(rows, sel), sel) == Filter(rows, sel)
  {
    FilterMonotone(rows, sel, sel);
  }

  /**
   * An age or salary range that no row falls into, for example one wholly
   * below the observed minimum, leaves nothing.
   */
  lemma DisjointRangeEmpties(rows: seq<Customer>, sel: Selection)
    requires forall c :: c in rows ==> !sel.age.Contains(c.age) || !sel.salary.Contains(c.salary)
    ensures Filter(rows, sel) == []
  {
  }

  /** A range slider whose low handle exceeds its high handle accepts no value, so nothing is left. */
  lemma InvertedRangeEmpties(rows: seq<Customer>, sel: Selection)
    requires sel.age.lo > sel.age.hi || sel.salary.lo > sel.salary.hi
    ensures Filter(rows, sel) == []
  {
    DisjointRangeEmpties(rows, sel);
  }

  /** With the widgets at their initial values the whole table is shown, in order. */
  lemma DefaultSelectionKeepsAll(rows: seq<Customer>)
    requires rows != []
    ensures Filter(rows, DefaultSelection(rows).value) == rows
  {
    FilterAcceptingAll(rows, DefaultSelection(rows).value);
  }

  /**
   * Number of rows whose REGION is `region`: a count over the table itself,
   * independent of the filter, that the filter's result is measured against.
   */
  function RegionCount(rows: seq<Customer>, region: string): (n: nat)
    ensures n <= |rows|
    ensures n == 0 <==> forall c :: c in rows ==> c.region != region
  {
    if rows == [] then 0
    else (if rows[0].region == region then 1 else 0) + RegionCount(rows[1..], region)
  }

  /**
   * Replacing the region set of a selection that accepts every row by one
   * region keeps exactly the rows of that region.
   */
  lemma {:induction false} OneRegionOf(rows: seq<Customer>, base: Selection, region: string)
    requires forall c :: c in rows ==> base.Accepts(c)
    ensures |Filter(rows, base.(regions := {region}))| == RegionCount(rows, region)
    ensures forall c :: c in Filter(rows, base.(regions := {region})) <==> c in rows && c.region == region
  {
    if rows != [] {
      assert rows[0] in rows;
      assert forall c :: c in rows[1..] ==> c in rows;
      OneRegionOf(rows[1..], base, region);
    }
  }

  /**
   * Narrowing the region widget to one value, the other widgets at their
   * initial values, shows exactly the rows of that region.
   */
  lemma SingleRegion(rows: seq<Customer>, region: string)
    requires rows != []
    ensures var sel := DefaultSelection(rows).value.(regions := {region});
      && |Filter(rows, sel)| == RegionCount(rows, region)
      && forall c :: c in Filter(rows, sel) <==> c in rows && c.region == region
  {
    OneRegionOf(rows, DefaultSelection(rows).value, region);
  }
}
