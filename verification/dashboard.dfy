/**
 * One rerun of the dashboard's data pipeline: filter the table by the
 * sidebar selection, then compute the purchase KPI and the stacked bar
 * data from the filtered rows.
 */
module Dashboard {
  import opened Customers
  import opened Filtering
  import opened Kpi
  import opened CrossTab

  datatype View = View(filtered: seq<Customer>, purchasePercentage: real, bars: seq<Bar>)

  /**
   * Every output is defined for every selection; an empty filtered table
   * yields a 0% KPI and no bars rather than an error.
   */
  function Render(rows: seq<Customer>, sel: Selection): (v: View)
    ensures forall c :: c in v.filtered <==> c in rows && sel.Accepts(c)
    ensures 0.0 <= v.purchasePercentage <= 100.0
    ensures v.filtered == [] ==> v.purchasePercentage == 0.0 && v.bars == []
    ensures forall i :: 0 <= i < |v.bars| ==>
      exists c :: c in v.filtered && KeyOf(c) == v.bars[i].key
  {
    var filtered := Filter(rows, sel);
    var bars := StackedBars(filtered);
    View(filtered, PurchasePercentage(filtered), bars)
  }

  /** Every (group, outcome) pair of the filtered table has a bar. */
  lemma RenderShowsEveryPair(rows: seq<Customer>, sel: Selection)
    ensures var v := Render(rows, sel);
      forall c :: c in v.filtered ==> exists i :: 0 <= i < |v.bars| && v.bars[i].key == KeyOf(c)
  {
    StackedBarsCover(Filter(rows, sel));
  }
}
