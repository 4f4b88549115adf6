/**
 update_table: the table is recomputed, then every Inventory row is tagged
 "negative" when any of its week values is below zero and "positive"
 otherwise; Supply and Demand rows get no tag.
 */
module Display {
  import opened Ledger
  import opened Recurrence
  import opened Calculate

  /** The two display tags of an Inventory row. */
  datatype Tag = Negative | Positive

  /** `any(value < 0 for value in weeks)`. */
  function HasNegative(weeks: seq<int>): (b: bool)
    ensures b <==> exists k :: 0 <= k < |weeks| && weeks[k] < 0
  {
    if |weeks| == 0 then false
    else
      assert forall k :: 0 < k < |weeks| ==> weeks[1..][k - 1] == weeks[k];
      weeks[0] < 0 || HasNegative(weeks[1..])
  }

  /** The tag a row is displayed with. */
  function RowTag(r: Row): (tag: Option<Tag>)
    ensures tag.None? <==> r.item != Inventory
    ensures tag == Some(Negative) <==> r.item == Inventory && exists k :: 0 <= k < |r.weeks| && r.weeks[k] < 0
    ensures tag == Some(Positive) <==> r.item == Inventory && forall k :: 0 <= k < |r.weeks| ==> r.weeks[k] >= 0
  {
    if r.item != Inventory then None
    else if HasNegative(r.weeks) then Some(Negative)
    else Some(Positive)
  }

  /** The rows update_table shows, in table order, each with its tag. */
  function UpdateTable(t: Table): (shown: seq<(Row, Option<Tag>)>)
    requires t.Valid()
    ensures |shown| == |t.rows|
    ensures forall i :: 0 <= i < |shown| ==> shown[i].0 == Recompute(t).rows[i]
    ensures forall i :: 0 <= i < |shown| ==> (shown[i].1.Some? <==> t.rows[i].item == Inventory)
    ensures forall i :: 0 <= i < |shown| ==> shown[i].1 == RowTag(shown[i].0)
  {
    var u := Recompute(t);
    seq(|u.rows|, i requires 0 <= i < |u.rows| => (u.rows[i], RowTag(u.rows[i])))
  }

  /** An Inventory row whose recomputed values are known is tagged by whether any of them is negative. */
  lemma TagOf(t: Table, i: nat, weeks: seq<int>)
    requires t.Valid() && i < |t.rows| && t.rows[i].item == Inventory && Recompute(t).rows[i].weeks == weeks
    ensures UpdateTable(t)[i].1 == Some(if HasNegative(weeks) then Negative else Positive)
  {
    assert Recompute(t).rows[i].item == Inventory;
  }

  /**
   For a product with Supply and Demand rows, an Inventory row is shown as
   negative exactly when the cumulative net flow of the first n weeks is below
   zero for some n between 1 and the number of week columns.
   */
  lemma NegativeIffShortfall(t: Table, i: nat)
    requires t.Valid() && i < |t.rows|
    requires t.rows[i].item == Inventory && Complete(t.rows, t.rows[i].product)
    ensures var p := t.rows[i].product;
      UpdateTable(t)[i].1 == Some(Negative) <==>
        exists n :: 0 < n <= t.width && NetFlow(WeeksOf(t, p, Supply), WeeksOf(t, p, Demand), n) < 0
  {
    var p := t.rows[i].product;
    var supply, demand := WeeksOf(t, p, Supply), WeeksOf(t, p, Demand);
    var row := Recompute(t).rows[i];
    assert row.item == Inventory && UpdateTable(t)[i].1 == RowTag(row);
    forall k | 0 <= k < t.width
      ensures row.weeks[k] == NetFlow(supply, demand, k + 1)
    {
      RecomputeClosedForm(t, i, k);
    }
    NegativeIffPrefix(row.weeks, supply, demand);
  }

  /** A row of running balances has a negative value exactly when some prefix has a negative net flow. */
  lemma NegativeIffPrefix(weeks: seq<int>, supply: seq<int>, demand: seq<int>)
    requires |supply| == |demand| == |weeks|
    requires forall k :: 0 <= k < |weeks| ==> weeks[k] == NetFlow(supply, demand, k + 1)
    ensures HasNegative(weeks) <==> exists n :: 0 < n <= |weeks| && NetFlow(supply, demand, n) < 0
  {
    if HasNegative(weeks) {
      var k :| 0 <= k < |weeks| && weeks[k] < 0;
      var n := k + 1;
      assert weeks[k] == NetFlow(supply, demand, n);
      assert 0 < n <= |weeks| && NetFlow(supply, demand, n) < 0;
      assert exists m :: 0 < m <= |weeks| && NetFlow(supply, demand, m) < 0;
    } else {
      forall n | 0 < n <= |weeks|
        ensures NetFlow(supply, demand, n) >= 0
      {
        assert weeks[n - 1] >= 0;
      }
    }
  }
}
