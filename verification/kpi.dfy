/**
 * The "Insurance Purchased Percentage" KPI:
 * `value_counts(normalize=True).get('Yes', 0) * 100` over the BUY_INSURANCE
 * column of the filtered table.
 */
module Kpi {
  import opened Customers
  import opened Fractions

  const Yes: string := "Yes"

  /** The BUY_INSURANCE column. */
  function Responses(rows: seq<Customer>): (col: seq<string>)
    ensures |col| == |rows|
    ensures forall i :: 0 <= i < |rows| ==> col[i] == rows[i].buyInsurance
  {
    if rows == [] then [] else [rows[0].buyInsurance] + Responses(rows[1..])
  }

  /** `Series.value_counts()`: one entry per distinct value, holding how often it occurs. */
  function ValueCounts(col: seq<string>): (counts: map<string, nat>)
    ensures forall v :: v in counts <==> v in col
    ensures forall v :: v in counts ==> counts[v] == multiset(col)[v]
  {
    if col == [] then map[]
    else
      var rest := ValueCounts(col[1..]);
      assert col == [col[0]] + col[1..];
      rest[col[0] := if col[0] in rest then rest[col[0]] + 1 else 1]
  }

  /** `Series.value_counts(normalize=True)`: each distinct value's share of the column. */
  function Frequencies(col: seq<string>): (freq: map<string, real>)
    ensures forall v :: v in freq <==> v in col
    ensures forall v :: v in freq ==> freq[v] == multiset(col)[v] as real / |col| as real
    ensures forall v :: v in freq ==> 0.0 < freq[v] <= 1.0
  {
    var counts := ValueCounts(col);
    var freq := map v | v in counts :: counts[v] as real / |col| as real;
    assert forall v :: v in freq ==> 0.0 < freq[v] <= 1.0 by {
      forall v | v in freq ensures 0.0 < freq[v] <= 1.0 {
        assert |multiset(col)| == |col|;
        MultiplicityBounded(multiset(col), v);
        Fraction(counts[v], |col|);
      }
    }
    freq
  }

  lemma MultiplicityBounded<T>(m: multiset<T>, v: T)
    ensures m[v] <= |m|
  {
    if m[v] > 0 {
      var rest := m - multiset{v};
      MultiplicityBounded(rest, v);
      assert m == rest + multiset{v};
    }
  }

  /**
   * Number of rows whose BUY_INSURANCE is exactly "Yes": a count over the rows
   * themselves, independent of `value_counts`, that the KPI is stated against.
   */
  function Buyers(rows: seq<Customer>): (n: nat)
    ensures n <= |rows|
    ensures n == 0 <==> forall c :: c in rows ==> c.buyInsurance != Yes
    ensures n == |rows| <==> forall c :: c in rows ==> c.buyInsurance == Yes
  {
    if rows == [] then 0
    else
      assert forall c :: c in rows ==> c == rows[0] || c in rows[1..];
      (if rows[0].buyInsurance == Yes then 1 else 0) + Buyers(rows[1..])
  }

  lemma {:induction false} BuyersCountsYes(rows: seq<Customer>)
    ensures multiset(Responses(rows))[Yes] == Buyers(rows)
  {
    if rows != [] {
      BuyersCountsYes(rows[1..]);
      assert Responses(rows) == [rows[0].buyInsurance] + Responses(rows[1..]);
    }
  }

  /** The relative frequency of "Yes" is the buyers' share of the rows, and absent when nobody bought. */
  lemma YesShare(rows: seq<Customer>)
    ensures var freq := Frequencies(Responses(rows));
      && (Yes in freq <==> Buyers(rows) > 0)
      && (Yes in freq ==> freq[Yes] == Buyers(rows) as real / |rows| as real)
  {
    var col := Responses(rows);
    BuyersCountsYes(rows);
    assert Yes in col <==> multiset(col)[Yes] > 0;
  }

  /** `value_counts(normalize=True).get('Yes', 0)`: the share of "Yes", or 0 when it is absent. */
  function YesFrequency(rows: seq<Customer>): (share: real)
    ensures 0.0 <= share <= 1.0
    ensures Buyers(rows) == 0 ==> share == 0.0
    ensures rows != [] ==> share == Buyers(rows) as real / |rows| as real
  {
    var freq := Frequencies(Responses(rows));
    YesShare(rows);
    if Yes in freq then freq[Yes]
    else
      assert rows != [] ==> Buyers(rows) as real / |rows| as real == 0.0 by {
        if rows != [] {
          ZeroFraction(|rows|);
        }
      }
      0.0
  }

  /**
   * The KPI: the share of filtered rows that bought insurance, in percent,
   * and 0 when "Yes" never occurs (which covers the empty table).
   */
  function PurchasePercentage(rows: seq<Customer>): (pct: real)
    ensures 0.0 <= pct <= 100.0
    ensures Buyers(rows) == 0 ==> pct == 0.0
    ensures rows != [] ==> pct == Buyers(rows) as real / |rows| as real * 100.0
  {
    YesFrequency(rows) * 100.0
  }

  /** The KPI reads 100% exactly when the table is non-empty and every row bought. */
  lemma FullPurchase(rows: seq<Customer>)
    ensures PurchasePercentage(rows) == 100.0 <==> rows != [] && forall c :: c in rows ==> c.buyInsurance == Yes
  {
    if rows != [] {
      WholeFraction(Buyers(rows), |rows|);
    }
  }
}
