/**
 * The customer table and the sidebar selection of the dashboard.
 *
 * A row keeps only the columns the filter, the purchase KPI and the stacked
 * bar chart read. `group` stands for whichever categorical column the user
 * picks as the predictor of the stacked bar chart (SEX, REGION, STATE,
 * HAS_CHILDREN, HOUSE_OWNERSHIP or PROFESSION).
 */
module Customers {

  datatype Option<T> = None | Some(value: T)

  datatype Customer = Customer(
    region: string,
    maritalStatus: string,
    age: int,
    salary: int,
    buyInsurance: string,
    group: string
  )

  /** The two handles of a range slider; pandas' `between` is inclusive at both ends. */
  datatype Range = Range(lo: int, hi: int) {

    predicate Contains(x: int) {
      lo <= x <= hi
    }

    /** Every value this range contains is contained in `wider` too. */
    predicate Within(wider: Range) {
      lo > hi || (wider.lo <= lo && hi <= wider.hi)
    }
  }

  /** What the four sidebar widgets hand to the filter on one rerun. */
  datatype Selection = Selection(
    regions: set<string>,
    statuses: set<string>,
    age: Range,
    salary: Range
  ) {

    /** The conjunction of the four column masks. */
    predicate Accepts(c: Customer) {
      && c.region in regions
      && c.maritalStatus in statuses
      && age.Contains(c.age)
      && salary.Contains(c.salary)
    }

    /** Each of the four components of this selection is included in the one of `wider`. */
    predicate NarrowerThan(wider: Selection) {
      && regions <= wider.regions
      && statuses <= wider.statuses
      && age.Within(wider.age)
      && salary.Within(wider.salary)
    }
  }

  /** `Within` is exactly inclusion of the sets of integers the two ranges contain. */
  lemma WithinIsInclusion(r: Range, wider: Range)
    ensures r.Within(wider) <==> forall x :: r.Contains(x) ==> wider.Contains(x)
  {
    if !r.Within(wider) {
      assert r.Contains(r.lo) && r.Contains(r.hi);
    }
  }

  lemma NarrowerAccepts(narrow: Selection, wide: Selection, c: Customer)
    requires narrow.NarrowerThan(wide)
    ensures narrow.Accepts(c) ==> wide.Accepts(c)
  {
  }

  /** The smallest element of a non-empty column (pandas `Series.min`). */
  function Min(xs: seq<int>): (m: int)
    requires |xs| > 0
    ensures forall i :: 0 <= i < |xs| ==> m <= xs[i]
  {
    if |xs| == 1 then xs[0]
    else
      var rest := Min(xs[1..]);
      assert forall i :: 1 <= i < |xs| ==> xs[i] == xs[1..][i - 1];
      if xs[0] <= rest then xs[0] else rest
  }

  /** The largest element of a non-empty column (pandas `Series.max`). */
  function Max(xs: seq<int>): (m: int)
    requires |xs| > 0
    ensures forall i :: 0 <= i < |xs| ==> xs[i] <= m
  {
    if |xs| == 1 then xs[0]
    else
      var rest := Max(xs[1..]);
      assert forall i :: 1 <= i < |xs| ==> xs[i] == xs[1..][i - 1];
      if xs[0] >= rest then xs[0] else rest
  }

  /** The minimum and the maximum are values of the column. */
  lemma {:induction false} ExtremesAttained(xs: seq<int>)
    requires |xs| > 0
    ensures Min(xs) in xs && Max(xs) in xs
  {
    if |xs| > 1 {
      ExtremesAttained(xs[1..]);
      assert forall x :: x in xs[1..] ==> x in xs;
    }
  }

  /** The AGE column. */
  function Ages(rows: seq<Customer>): seq<int> {
    seq(|rows|, i requires 0 <= i < |rows| => rows[i].age)
  }

  /** The SALARY column. */
  function Salaries(rows: seq<Customer>): seq<int> {
    seq(|rows|, i requires 0 <= i < |rows| => rows[i].salary)
  }

  /** Every value of the REGION column, as `unique()` lists them. */
  function Regions(rows: seq<Customer>): (rs: set<string>)
    ensures forall c :: c in rows ==> c.region in rs
  {
    if rows == [] then {}
    else
      assert forall c :: c in rows ==> c == rows[0] || c in rows[1..];
      {rows[0].region} + Regions(rows[1..])
  }

  /** Every value of the MARITAL_STATUS column. */
  function Statuses(rows: seq<Customer>): (ss: set<string>)
    ensures forall c :: c in rows ==> c.maritalStatus in ss
  {
    if rows == [] then {}
    else
      assert forall c :: c in rows ==> c == rows[0] || c in rows[1..];
      {rows[0].maritalStatus} + Statuses(rows[1..])
  }

  /** `unique()` lists only values that occur. */
  lemma {:induction false} UniqueValuesOccur(rows: seq<Customer>)
    ensures forall r :: r in Regions(rows) ==> exists c :: c in rows && c.region == r
    ensures forall s :: s in Statuses(rows) ==> exists c :: c in rows && c.maritalStatus == s
  {
    if rows != [] {
      UniqueValuesOccur(rows[1..]);
      assert forall c :: c in rows[1..] ==> c in rows;
      assert rows[0] in rows;
    }
  }

  /** The tightest range holding every value of a non-empty column. */
  function Observed(col: seq<int>): (r: Range)
    requires |col| > 0
    ensures forall i :: 0 <= i < |col| ==> r.Contains(col[i])
  {
    Range(Min(col), Max(col))
  }

  /**
   * The widgets' initial values: every region and marital status that occurs,
   * and the observed minimum and maximum of AGE and SALARY. On an empty table
   * the minimum is NaN and `int(NaN)` raises, so there is no default.
   */
  function DefaultSelection(rows: seq<Customer>): (d: Option<Selection>)
    ensures d.None? <==> rows == []
    ensures d.Some? ==> forall c :: c in rows ==> d.value.Accepts(c)
  {
    if rows == [] then None
    else
      var sel := Selection(Regions(rows), Statuses(rows), Observed(Ages(rows)), Observed(Salaries(rows)));
      assert forall c :: c in rows ==> sel.Accepts(c) by {
        forall c | c in rows ensures sel.Accepts(c) {
          var i :| 0 <= i < |rows| && rows[i] == c;
          assert Ages(rows)[i] == c.age && Salaries(rows)[i] == c.salary;
        }
      }
      Some(sel)
  }

  /**
   * The default selection is the tightest one that accepts every row: its
   * sets hold only observed values and its range ends are observed values.
   */
  lemma DefaultSelectionIsObserved(rows: seq<Customer>)
    requires rows != []
    ensures var d := DefaultSelection(rows).value;
      && (forall r :: r in d.regions ==> exists c :: c in rows && c.region == r)
      && (forall s :: s in d.statuses ==> exists c :: c in rows && c.maritalStatus == s)
      && d.age.lo in Ages(rows) && d.age.hi in Ages(rows)
      && d.salary.lo in Salaries(rows) && d.salary.hi in Salaries(rows)
  {
    UniqueValuesOccur(rows);
    ExtremesAttained(Ages(rows));
    ExtremesAttained(Salaries(rows));
  }

  /** Any range holding every value of a non-empty column holds its observed range. */
  lemma ObservedIsTightest(col: seq<int>, r: Range)
    requires |col| > 0 && forall i :: 0 <= i < |col| ==> r.Contains(col[i])
    ensures Observed(col).Within(r)
  {
    ExtremesAttained(col);
  }

  /**
   * Any selection that accepts every row of a non-empty table is at least as
   * wide, component by component, as the widgets' initial values.
   */
  lemma DefaultIsTightest(rows: seq<Customer>, sel: Selection)
    requires rows != [] && forall c :: c in rows ==> sel.Accepts(c)
    ensures DefaultSelection(rows).value.NarrowerThan(sel)
  {
    var ages, salaries := Ages(rows), Salaries(rows);
    forall i | 0 <= i < |rows| ensures sel.age.Contains(ages[i]) && sel.salary.Contains(salaries[i]) {
      assert sel.Accepts(rows[i]);
    }
    ObservedIsTightest(ages, sel.age);
    ObservedIsTightest(salaries, sel.salary);
    UniqueValuesOccur(rows);
    assert DefaultSelection(rows).value == Selection(Regions(rows), Statuses(rows), Observed(ages), Observed(salaries));
  }
}
