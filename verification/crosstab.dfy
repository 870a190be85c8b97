/**
 * The data behind the stacked 100% bar chart:
 * `groupby([x, 'BUY_INSURANCE']).size()` gives one cell per occurring
 * (group, outcome) pair, sorted by key, holding its row count; each count is
 * then divided by the sum of its group's counts (`transform('sum')`) and
 * multiplied by 100.
 */
module CrossTab {
  import opened Customers
  import opened Ordering
  import opened Fractions

  function KeyOf(c: Customer): Key {
    Key(c.group, c.buyInsurance)
  }

  /*
   * Occurrences and GroupSize count rows directly; they are the independent
   * reference the grouped table and its percentages are stated against.
   */

  /** Number of rows whose (group, outcome) pair is `k`. */
  function Occurrences(rows: seq<Customer>, k: Key): (n: nat)
    ensures n <= |rows|
    ensures n == 0 <==> forall c :: c in rows ==> KeyOf(c) != k
  {
    if rows == [] then 0
    else
      assert forall c :: c in rows ==> c == rows[0] || c in rows[1..];
      (if KeyOf(rows[0]) == k then 1 else 0) + Occurrences(rows[1..], k)
  }

  /** Number of rows whose group value is `g`. */
  function GroupSize(rows: seq<Customer>, g: string): (n: nat)
    ensures n <= |rows|
    ensures n == 0 <==> forall c :: c in rows ==> c.group != g
  {
    if rows == [] then 0
    else
      assert forall c :: c in rows ==> c == rows[0] || c in rows[1..];
      (if rows[0].group == g then 1 else 0) + GroupSize(rows[1..], g)
  }

  /** One row of the grouped table: a key and its `size()`. */
  datatype Cell = Cell(key: Key, count: nat)

  /** Strictly increasing keys, as `groupby` with its default `sort=True` lists them. */
  predicate Sorted(t: seq<Cell>) {
    forall i, j :: 0 <= i < j < |t| ==> KeyLess(t[i].key, t[j].key)
  }

  /** No cell for a key that never occurs: `size()` lists only observed pairs. */
  predicate Positive(t: seq<Cell>) {
    forall i :: 0 <= i < |t| ==> t[i].count >= 1
  }

  /** A sorted table lists each pair once, and never a later key before an earlier one. */
  lemma SortedStrict(t: seq<Cell>)
    requires Sorted(t)
    ensures forall i, j :: 0 <= i < j < |t| ==> t[i].key != t[j].key && !KeyLess(t[j].key, t[i].key)
  {
    forall i, j | 0 <= i < j < |t| ensures t[i].key != t[j].key && !KeyLess(t[j].key, t[i].key) {
      KeyLessIrreflexive(t[i].key);
      KeyLessAsymmetric(t[i].key, t[j].key);
    }
  }

  function KeysOf(t: seq<Cell>): set<Key> {
    set i | 0 <= i < |t| :: t[i].key
  }

  /** The count stored for `k`, or 0 when the table has no cell for it. */
  function Lookup(t: seq<Cell>, k: Key): nat {
    if t == [] then 0
    else if t[0].key == k then t[0].count
    else Lookup(t[1..], k)
  }

  lemma {:induction false} LookupAbsent(t: seq<Cell>, k: Key)
    requires k !in KeysOf(t)
    ensures Lookup(t, k) == 0
  {
    if t != [] {
      assert t[0].key in KeysOf(t);
      assert KeysOf(t[1..]) <= KeysOf(t) by {
        forall x | x in KeysOf(t[1..]) ensures x in KeysOf(t) {
          var i :| 0 <= i < |t[1..]| && t[1..][i].key == x;
          assert t[i + 1].key == x;
        }
      }
      LookupAbsent(t[1..], k);
    }
  }

  /** In a sorted table each key has one cell, so looking up its key finds it. */
  lemma {:induction false} LookupAt(t: seq<Cell>, i: int)
    requires Sorted(t) && 0 <= i < |t|
    ensures Lookup(t, t[i].key) == t[i].count
  {
    if i > 0 {
      assert KeyLess(t[0].key, t[i].key);
      if t[0].key == t[i].key {
        KeyLessIrreflexive(t[0].key);
      }
      LookupAt(t[1..], i - 1);
    }
  }

  /** In a table whose cells are all non-empty, a key has a cell exactly when its count is positive. */
  lemma {:induction false} LookupPositive(t: seq<Cell>, k: Key)
    requires Positive(t)
    ensures k in KeysOf(t) <==> Lookup(t, k) > 0
  {
    if k !in KeysOf(t) {
      LookupAbsent(t, k);
    } else if t != [] && t[0].key != k {
      var i :| 0 <= i < |t| && t[i].key == k;
      assert t[1..][i - 1].key == k;
      LookupPositive(t[1..], k);
    }
  }

  lemma SortedCons(x: Cell, t: seq<Cell>)
    requires Sorted(t)
    requires forall k :: k in KeysOf(t) ==> KeyLess(x.key, k)
    ensures Sorted([x] + t)
  {
    var u := [x] + t;
    forall i, j | 0 <= i < j < |u| ensures KeyLess(u[i].key, u[j].key) {
      if i == 0 {
        assert u[j].key == t[j - 1].key;
        assert t[j - 1].key in KeysOf(t);
      } else {
        assert u[i] == t[i - 1] && u[j] == t[j - 1];
      }
    }
  }

  /** Every key of a sorted table follows its first key. */
  lemma SortedHead(t: seq<Cell>)
    requires Sorted(t) && t != []
    ensures forall k :: k in KeysOf(t[1..]) ==> KeyLess(t[0].key, k)
  {
    forall k | k in KeysOf(t[1..]) ensures KeyLess(t[0].key, k) {
      var i :| 0 <= i < |t[1..]| && t[1..][i].key == k;
      assert t[i + 1].key == k;
    }
  }

  lemma KeysCons(x: Cell, t: seq<Cell>)
    ensures KeysOf([x] + t) == {x.key} + KeysOf(t)
  {
    var u := [x] + t;
    assert u[0].key == x.key;
    forall k | k in KeysOf(u) ensures k in {x.key} + KeysOf(t) {
      var i :| 0 <= i < |u| && u[i].key == k;
      if i > 0 {
        assert t[i - 1].key == k;
      }
    }
    forall k | k in KeysOf(t) ensures k in KeysOf(u) {
      var i :| 0 <= i < |t| && t[i].key == k;
      assert u[i + 1].key == k;
    }
  }

  /** A new key that precedes the first key of a sorted table goes in front of it. */
  lemma InsertInFront(t: seq<Cell>, k: Key)
    requires Sorted(t) && t != [] && KeyLess(k, t[0].key)
    ensures Sorted([Cell(k, 1)] + t)
    ensures KeysOf([Cell(k, 1)] + t) == KeysOf(t) + {k}
    ensures Lookup(t, k) == 0
  {
    assert t == [t[0]] + t[1..];
    KeysCons(t[0], t[1..]);
    KeysCons(Cell(k, 1), t);
    SortedHead(t);
    forall j | j in KeysOf(t) ensures KeyLess(k, j) {
      if j != t[0].key {
        KeyLessTransitive(k, t[0].key, j);
      }
    }
    KeyLessIrreflexive(k);
    LookupAbsent(t, k);
    SortedCons(Cell(k, 1), t);
  }

  /** Raising the first cell's count keeps a sorted table sorted and its keys unchanged. */
  lemma RaiseFirst(t: seq<Cell>)
    requires Sorted(t) && t != []
    ensures Sorted([Cell(t[0].key, t[0].count + 1)] + t[1..])
    ensures KeysOf([Cell(t[0].key, t[0].count + 1)] + t[1..]) == KeysOf(t)
  {
    assert t == [t[0]] + t[1..];
    KeysCons(t[0], t[1..]);
    KeysCons(Cell(t[0].key, t[0].count + 1), t[1..]);
    SortedHead(t);
    SortedCons(Cell(t[0].key, t[0].count + 1), t[1..]);
  }

  /** Keeping the first cell in front of a sorted rest that holds only later keys. */
  lemma KeepFirst(t: seq<Cell>, k: Key, rest: seq<Cell>)
    requires Sorted(t) && t != [] && t[0].key != k && !KeyLess(k, t[0].key)
    requires Sorted(rest) && KeysOf(rest) == KeysOf(t[1..]) + {k}
    ensures Sorted([t[0]] + rest)
    ensures KeysOf([t[0]] + rest) == KeysOf(t) + {k}
  {
    assert t == [t[0]] + t[1..];
    KeyLessTotal(k, t[0].key);
    KeysCons(t[0], t[1..]);
    KeysCons(t[0], rest);
    SortedHead(t);
    SortedCons(t[0], rest);
  }

  /**
   * Counting one more row with key `k`: the cell for `k` goes up by one, or
   * a cell with count 1 is inserted where the key order puts it.
   */
  function Bump(t: seq<Cell>, k: Key): (u: seq<Cell>)
    requires Sorted(t)
    ensures Sorted(u)
    ensures KeysOf(u) == KeysOf(t) + {k}
    ensures forall j :: Lookup(u, j) == Lookup(t, j) + (if j == k then 1 else 0)
    ensures Positive(t) ==> Positive(u)
  {
    if t == [] then
      KeysCons(Cell(k, 1), []);
      [Cell(k, 1)]
    else if t[0].key == k then
      RaiseFirst(t);
      [Cell(k, t[0].count + 1)] + t[1..]
    else if KeyLess(k, t[0].key) then
      InsertInFront(t, k);
      [Cell(k, 1)] + t
    else
      var rest := Bump(t[1..], k);
      KeepFirst(t, k, rest);
      [t[0]] + rest
  }

  /**
   * `groupby([x, 'BUY_INSURANCE']).size().reset_index(name='count')`: one
   * cell per occurring pair, in key order, holding how many rows have it.
   */
  function Tabulate(rows: seq<Customer>): (t: seq<Cell>)
    ensures Sorted(t)
    ensures Positive(t)
    ensures forall k :: Lookup(t, k) == Occurrences(rows, k)
  {
    if rows == [] then []
    else Bump(Tabulate(rows[1..]), KeyOf(rows[0]))
  }

  /** The cells hold exactly the pairs that occur, each with its row count. */
  lemma TabulateCells(rows: seq<Customer>)
    ensures forall k :: k in KeysOf(Tabulate(rows)) <==> Occurrences(rows, k) > 0
    ensures forall i :: 0 <= i < |Tabulate(rows)| ==>
      Tabulate(rows)[i].count == Occurrences(rows, Tabulate(rows)[i].key)
  {
    var t := Tabulate(rows);
    forall k ensures k in KeysOf(t) <==> Occurrences(rows, k) > 0 {
      LookupPositive(t, k);
    }
    forall i | 0 <= i < |t| ensures t[i].count == Occurrences(rows, t[i].key) {
      LookupAt(t, i);
    }
  }

  /** The sum of the counts of group `g`: `groupby(x)['count'].transform('sum')`. */
  function GroupTotal(t: seq<Cell>, g: string): nat {
    if t == [] then 0
    else (if t[0].key.group == g then t[0].count else 0) + GroupTotal(t[1..], g)
  }

  lemma {:induction false} BumpGroupTotal(t: seq<Cell>, k: Key, g: string)
    requires Sorted(t)
    ensures GroupTotal(Bump(t, k), g) == GroupTotal(t, g) + (if k.group == g then 1 else 0)
  {
    if t != [] && t[0].key != k && !KeyLess(k, t[0].key) {
      BumpGroupTotal(t[1..], k, g);
      assert Bump(t, k)[1..] == Bump(t[1..], k);
    } else if t != [] && t[0].key == k {
      assert Bump(t, k)[1..] == t[1..];
    } else if t != [] {
      assert Bump(t, k)[1..] == t;
    }
  }

  /** Counts are conserved: a group's cells add up to the number of rows in that group. */
  lemma {:induction false} TabulateConserves(rows: seq<Customer>, g: string)
    ensures GroupTotal(Tabulate(rows), g) == GroupSize(rows, g)
  {
    if rows != [] {
      TabulateConserves(rows[1..], g);
      BumpGroupTotal(Tabulate(rows[1..]), KeyOf(rows[0]), g);
    }
  }

  /** Each cell's count is part of its group's total. */
  lemma {:induction false} CellWithinGroup(t: seq<Cell>, i: int)
    requires 0 <= i < |t|
    ensures t[i].count <= GroupTotal(t, t[i].key.group)
  {
    if i > 0 {
      CellWithinGroup(t[1..], i - 1);
    }
  }

  /** A cell of the stacked chart: its key, its count and its share of its group in percent. */
  datatype Bar = Bar(key: Key, count: nat, percentage: real)

  /** `count / total_per_category * 100`, one bar per cell. */
  function Normalise(t: seq<Cell>): (bars: seq<Bar>)
    requires Positive(t)
    ensures |bars| == |t|
    ensures forall i :: 0 <= i < |t| ==> bars[i].key == t[i].key && bars[i].count == t[i].count
    ensures forall i :: 0 <= i < |t| ==> 0.0 < bars[i].percentage <= 100.0
  {
    assert forall i :: 0 <= i < |t| ==> 1 <= t[i].count <= GroupTotal(t, t[i].key.group) by {
      forall i | 0 <= i < |t| ensures 1 <= t[i].count <= GroupTotal(t, t[i].key.group) {
        CellWithinGroup(t, i);
      }
    }
    var bars := seq(|t|, i requires 0 <= i < |t| =>
      Bar(t[i].key, t[i].count, t[i].count as real / GroupTotal(t, t[i].key.group) as real * 100.0));
    assert forall i :: 0 <= i < |t| ==> 0.0 < bars[i].percentage <= 100.0 by {
      forall i | 0 <= i < |t| ensures 0.0 < bars[i].percentage <= 100.0 {
        Fraction(t[i].count, GroupTotal(t, t[i].key.group));
      }
    }
    bars
  }

  /** The height of group `g`'s stacked bar: the sum of its percentages. */
  function PercentSum(bars: seq<Bar>, g: string): real {
    if bars == [] then 0.0
    else (if bars[0].key.group == g then bars[0].percentage else 0.0) + PercentSum(bars[1..], g)
  }

  function GroupsOf(t: seq<Cell>): set<string> {
    set i | 0 <= i < |t| :: t[i].key.group
  }

  lemma {:induction false} PercentSumSuffix(t: seq<Cell>, g: string, from: nat)
    requires Positive(t) && from <= |t| && GroupTotal(t, g) > 0
    ensures PercentSum(Normalise(t)[from..], g)
      == GroupTotal(t[from..], g) as real / GroupTotal(t, g) as real * 100.0
    decreases |t| - from
  {
    var bars := Normalise(t);
    if from == |t| {
      assert t[from..] == [];
      assert bars[from..] == [];
    } else {
      PercentSumSuffix(t, g, from + 1);
      assert bars[from..][1..] == bars[from + 1..];
      assert t[from..][1..] == t[from + 1..];
      var part := if t[from].key.group == g then t[from].count else 0;
      AddPercentages(part, GroupTotal(t[from + 1..], g), GroupTotal(t, g));
    }
  }

  lemma GroupHasCells(t: seq<Cell>, g: string)
    requires Positive(t) && g in GroupsOf(t)
    ensures GroupTotal(t, g) > 0
  {
    var i :| 0 <= i < |t| && t[i].key.group == g;
    CellWithinGroup(t, i);
  }

  /** Within every group that has cells, the percentages add up to exactly 100. */
  lemma PercentagesSumTo100(t: seq<Cell>, g: string)
    requires Positive(t) && g in GroupsOf(t)
    ensures PercentSum(Normalise(t), g) == 100.0
  {
    GroupHasCells(t, g);
    PercentSumSuffix(t, g, 0);
    assert t[0..] == t && Normalise(t)[0..] == Normalise(t);
    WholeFraction(GroupTotal(t, g), GroupTotal(t, g));
  }

  /** The table the stacked bar chart is drawn from. */
  function StackedBars(rows: seq<Customer>): (bars: seq<Bar>)
    ensures forall i, j :: 0 <= i < j < |bars| ==> KeyLess(bars[i].key, bars[j].key)
    ensures forall i :: 0 <= i < |bars| ==> bars[i].count == Occurrences(rows, bars[i].key) >= 1
    ensures forall i :: 0 <= i < |bars| ==>
      bars[i].percentage == Occurrences(rows, bars[i].key) as real / GroupSize(rows, bars[i].key.group) as real * 100.0
  {
    var t := Tabulate(rows);
    TabulateCells(rows);
    var bars := Normalise(t);
    assert forall i :: 0 <= i < |t| ==> GroupTotal(t, t[i].key.group) == GroupSize(rows, t[i].key.group) by {
      forall i | 0 <= i < |t| ensures GroupTotal(t, t[i].key.group) == GroupSize(rows, t[i].key.group) {
        TabulateConserves(rows, t[i].key.group);
      }
    }
    bars
  }

  /** Every (group, outcome) pair some row has gets a bar. */
  lemma StackedBarsCover(rows: seq<Customer>)
    ensures forall c :: c in rows ==> exists i :: 0 <= i < |StackedBars(rows)| && StackedBars(rows)[i].key == KeyOf(c)
  {
    var t := Tabulate(rows);
    TabulateCells(rows);
    forall c | c in rows ensures exists i :: 0 <= i < |StackedBars(rows)| && StackedBars(rows)[i].key == KeyOf(c) {
      assert KeyOf(c) in KeysOf(t);
      var i :| 0 <= i < |t| && t[i].key == KeyOf(c);
      assert StackedBars(rows)[i].key == KeyOf(c);
    }
  }

  /**
   * For every group value some row has, the group's stacked bar reaches
   * exactly 100%.
   */
  lemma StackedBarsSumTo100(rows: seq<Customer>, g: string)
    requires exists c :: c in rows && c.group == g
    ensures PercentSum(StackedBars(rows), g) == 100.0
  {
    var c :| c in rows && c.group == g;
    var t := Tabulate(rows);
    TabulateCells(rows);
    assert KeyOf(c) in KeysOf(t);
    var i :| 0 <= i < |t| && t[i].key == KeyOf(c);
    assert g in GroupsOf(t);
    PercentagesSumTo100(t, g);
  }
}
