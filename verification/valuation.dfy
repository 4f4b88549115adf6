/**
 The numeric part of plot_inventory_value: for each week column, the total
 holding value, summed over the distinct products of the table, of the
 product's Inventory quantity times its unit cost.
 */
module Valuation {
  import opened Ledger

  /**
   Every product in the table has an Inventory row and a unit cost: otherwise
   the valuation loop raises (IndexError on `.values[0]`, KeyError on the cost).
   */
  predicate Priced(t: Table, cost: map<string, real>) {
    forall i :: 0 <= i < |t.rows| ==> t.rows[i].product in cost && First(t.rows, t.rows[i].product, Inventory).Some?
  }

  /** The products ps can all be valued. */
  predicate Valuable(t: Table, cost: map<string, real>, ps: seq<string>) {
    forall j :: 0 <= j < |ps| ==> ps[j] in cost && First(t.rows, ps[j], Inventory).Some?
  }

  /** Product p's holding value in week w: its first Inventory row's quantity times its unit cost. */
  function Holding(t: Table, cost: map<string, real>, p: string, w: nat): real
    requires t.Valid() && w < t.width && p in cost && First(t.rows, p, Inventory).Some?
  {
    (WeeksOf(t, p, Inventory)[w] as real) * cost[p]
  }

  /** The running total of the inner valuation loop after the products ps, in that order. */
  function WeekValue(t: Table, cost: map<string, real>, ps: seq<string>, w: nat): real
    requires t.Valid() && w < t.width && Valuable(t, cost, ps)
  {
    if |ps| == 0 then 0.0
    else WeekValue(t, cost, ps[..|ps| - 1], w) + Holding(t, cost, ps[|ps| - 1], w)
  }

  /**
   The series plot_inventory_value draws, one total per week column; None when
   some product lacks an Inventory row or a unit cost and the loop raises. With
   no week columns the loop body never runs, so nothing is read and nothing raises.
   */
  function ValueSeries(t: Table, cost: map<string, real>): (series: Option<seq<real>>)
    requires t.Valid()
    ensures series.Some? <==> Priced(t, cost) || t.width == 0
    ensures series.Some? ==> |series.value| == t.width
    ensures series.Some? && |t.rows| == 0 ==> forall w :: 0 <= w < t.width ==> series.value[w] == 0.0
  {
    if Priced(t, cost) then
      PricedValuable(t, cost);
      Some(seq(t.width, w requires 0 <= w < t.width => WeekValue(t, cost, Products(t.rows), w)))
    else if t.width == 0 then Some([])
    else None
  }

  /** When every product is priced, every product of the table can be valued. */
  lemma PricedValuable(t: Table, cost: map<string, real>)
    requires Priced(t, cost)
    ensures Valuable(t, cost, Products(t.rows))
  {
    var ps := Products(t.rows);
    forall j | 0 <= j < |ps|
      ensures ps[j] in cost && First(t.rows, ps[j], Inventory).Some?
    {
      assert Listed(t.rows, ps[j]);
    }
  }

  /**
   Entry w of the value series is the total over the table's products, summed
   in any order that lists each product exactly once.
   */
  lemma ValueSeriesAt(t: Table, cost: map<string, real>, qs: seq<string>, w: nat)
    requires t.Valid() && Priced(t, cost) && w < t.width
    requires forall i, j :: 0 <= i < j < |qs| ==> qs[i] != qs[j]
    requires forall p :: p in qs <==> Listed(t.rows, p)
    ensures Valuable(t, cost, qs)
    ensures ValueSeries(t, cost).Some? && ValueSeries(t, cost).value[w] == WeekValue(t, cost, qs, w)
  {
    PricedValuable(t, cost);
    WeekValueOrderFree(t, cost, Products(t.rows), qs, w);
  }

  /** The total over a concatenation is the sum of the totals. */
  lemma {:induction false} WeekValueAppend(t: Table, cost: map<string, real>, a: seq<string>, b: seq<string>, w: nat)
    requires t.Valid() && w < t.width && Valuable(t, cost, a) && Valuable(t, cost, b)
    ensures Valuable(t, cost, a + b)
    ensures WeekValue(t, cost, a + b, w) == WeekValue(t, cost, a, w) + WeekValue(t, cost, b, w)
  {
    assert Valuable(t, cost, a + b) by {
      forall j | 0 <= j < |a + b|
        ensures (a + b)[j] in cost && First(t.rows, (a + b)[j], Inventory).Some?
      {
        if j >= |a| {
          assert (a + b)[j] == b[j - |a|];
        }
      }
    }
    if |b| > 0 {
      var n := |b| - 1;
      assert (a + b)[..|a + b| - 1] == a + b[..n];
      assert Valuable(t, cost, b[..n]) by {
        forall j | 0 <= j < n
          ensures b[..n][j] in cost && First(t.rows, b[..n][j], Inventory).Some?
        {
          assert b[..n][j] == b[j];
        }
      }
      WeekValueAppend(t, cost, a, b[..n], w);
    } else {
      assert a + b == a;
    }
  }

  /**
   The weekly total does not depend on the order the products are visited in:
   any two duplicate-free listings of the same products give the same total.
   */
  lemma {:induction false} WeekValueOrderFree(t: Table, cost: map<string, real>, ps: seq<string>, qs: seq<string>, w: nat)
    requires t.Valid() && w < t.width && Valuable(t, cost, ps)
    requires forall i, j :: 0 <= i < j < |ps| ==> ps[i] != ps[j]
    requires forall i, j :: 0 <= i < j < |qs| ==> qs[i] != qs[j]
    requires forall p :: p in ps <==> p in qs
    ensures Valuable(t, cost, qs)
    ensures WeekValue(t, cost, ps, w) == WeekValue(t, cost, qs, w)
    decreases |ps|
  {
    assert Valuable(t, cost, qs) by {
      forall j | 0 <= j < |qs|
        ensures qs[j] in cost && First(t.rows, qs[j], Inventory).Some?
      {
        assert qs[j] in ps;
      }
    }
    if |ps| == 0 {
      NoMembers(qs);
    } else {
      var n := |ps| - 1;
      var x := ps[n];
      assert x in qs;
      var m :| 0 <= m < |qs| && qs[m] == x;
      var rest := Drop(qs, m);
      DropMatching(ps, qs, m);
      assert Valuable(t, cost, ps[..n]) by {
        forall j | 0 <= j < n
          ensures ps[..n][j] in cost && First(t.rows, ps[..n][j], Inventory).Some?
        {
          assert ps[..n][j] == ps[j];
        }
      }
      WeekValueOrderFree(t, cost, ps[..n], rest, w);
      Sub(t, cost, qs, m, w);
    }
  }

  /** A holding depends only on the quantity in the product's first Inventory row and on its unit cost. */
  lemma HoldingSame(t: Table, cost: map<string, real>, u: Table, cost': map<string, real>, p: string, w: nat)
    requires t.Valid() && u.Valid() && w < t.width && w < u.width
    requires p in cost && p in cost' && First(t.rows, p, Inventory).Some? && First(u.rows, p, Inventory).Some?
    requires WeeksOf(t, p, Inventory)[w] == WeeksOf(u, p, Inventory)[w] && cost[p] == cost'[p]
    ensures Holding(t, cost, p, w) == Holding(u, cost', p, w)
  {
  }

  /** Totals over the same listing agree when every product in it has the same holding in both. */
  lemma {:induction false} WeekValueSame(t: Table, cost: map<string, real>, u: Table, cost': map<string, real>, ps: seq<string>, w: nat)
    requires t.Valid() && u.Valid() && w < t.width && w < u.width
    requires Valuable(t, cost, ps) && Valuable(u, cost', ps)
    requires forall j :: 0 <= j < |ps| ==> Holding(t, cost, ps[j], w) == Holding(u, cost', ps[j], w)
    ensures WeekValue(t, cost, ps, w) == WeekValue(u, cost', ps, w)
    decreases |ps|
  {
    if |ps| > 0 {
      var n := |ps| - 1;
      assert forall j :: 0 <= j < n ==> ps[..n][j] == ps[j];
      WeekValueSame(t, cost, u, cost', ps[..n], w);
    }
  }

  /** One more product whose holding is zero leaves the total as it was. */
  lemma WeekValueExtend(t: Table, cost: map<string, real>, u: Table, cost': map<string, real>, ps: seq<string>, x: string, w: nat)
    requires t.Valid() && u.Valid() && w < t.width && w < u.width
    requires Valuable(t, cost, ps) && Valuable(u, cost', ps) && x in cost' && First(u.rows, x, Inventory).Some?
    requires Holding(u, cost', x, w) == 0.0
    requires forall j :: 0 <= j < |ps| ==> Holding(t, cost, ps[j], w) == Holding(u, cost', ps[j], w)
    ensures Valuable(u, cost', ps + [x])
    ensures WeekValue(u, cost', ps + [x], w) == WeekValue(t, cost, ps, w)
  {
    assert forall j :: 0 <= j < |ps| ==> (ps + [x])[j] == ps[j];
    assert (ps + [x])[|ps|] == x;
    assert (ps + [x])[..|ps|] == ps;
    WeekValueSame(t, cost, u, cost', ps, w);
  }

  /** Dropping one entry of a duplicate-free listing lists exactly the other products, still without duplicates. */
  lemma DropDistinct(qs: seq<string>, m: nat)
    requires m < |qs| && forall i, j :: 0 <= i < j < |qs| ==> qs[i] != qs[j]
    ensures forall i, j :: 0 <= i < j < |Drop(qs, m)| ==> Drop(qs, m)[i] != Drop(qs, m)[j]
    ensures forall p :: p in Drop(qs, m) <==> p in qs && p != qs[m]
  {
    var rest := Drop(qs, m);
    forall i, j | 0 <= i < j < |rest|
      ensures rest[i] != rest[j]
    {
      var i' := if i < m then i else i + 1;
      var j' := if j < m then j else j + 1;
      assert rest[i] == qs[i'] && rest[j] == qs[j'];
    }
    forall p
      ensures p in rest <==> p in qs && p != qs[m]
    {
      if p in rest {
        var k :| 0 <= k < |rest| && rest[k] == p;
        var k' := if k < m then k else k + 1;
        assert qs[k'] == p && k' != m;
      }
      if p in qs && p != qs[m] {
        var k :| 0 <= k < |qs| && qs[k] == p;
        if k < m {
          assert rest[k] == p;
        } else {
          assert rest[k - 1] == p;
        }
      }
    }
  }

  /** A listing with no members is empty. */
  lemma NoMembers(qs: seq<string>)
    requires forall p :: p !in qs
    ensures qs == []
  {
    HeadIsMember(qs);
  }

  lemma HeadIsMember(qs: seq<string>)
    ensures |qs| > 0 ==> qs[0] in qs
  {
  }

  /** The listing qs without its entry at index m. */
  function Drop(qs: seq<string>, m: nat): (r: seq<string>)
    requires m < |qs|
    ensures |r| == |qs| - 1
  {
    qs[..m] + qs[m + 1..]
  }

  /** Removing the last product of one listing and the same product from the other leaves two
      duplicate-free listings of the same products. */
  lemma DropMatching(ps: seq<string>, qs: seq<string>, m: nat)
    requires |ps| > 0 && m < |qs| && qs[m] == ps[|ps| - 1]
    requires forall i, j :: 0 <= i < j < |ps| ==> ps[i] != ps[j]
    requires forall i, j :: 0 <= i < j < |qs| ==> qs[i] != qs[j]
    requires forall p :: p in ps <==> p in qs
    ensures forall i, j :: 0 <= i < j < |Drop(qs, m)| ==> Drop(qs, m)[i] != Drop(qs, m)[j]
    ensures forall p :: p in ps[..|ps| - 1] <==> p in Drop(qs, m)
  {
    var n := |ps| - 1;
    var x := ps[n];
    DropDistinct(qs, m);
    forall p
      ensures p in ps[..n] <==> p in Drop(qs, m)
    {
      if p in ps[..n] {
        var i :| 0 <= i < n && ps[..n][i] == p;
        assert ps[i] == p && p != x;
      }
      if p in Drop(qs, m) {
        var i :| 0 <= i < |ps| && ps[i] == p;
        assert i != n && ps[..n][i] == p;
      }
    }
  }

  /** Splitting one product out of a listing: the total is its holding plus the total of the rest. */
  lemma Sub(t: Table, cost: map<string, real>, qs: seq<string>, m: nat, w: nat)
    requires t.Valid() && w < t.width && Valuable(t, cost, qs) && m < |qs|
    ensures Valuable(t, cost, Drop(qs, m))
    ensures WeekValue(t, cost, qs, w) == WeekValue(t, cost, Drop(qs, m), w) + Holding(t, cost, qs[m], w)
  {
    var a, b := qs[..m], qs[m + 1..];
    assert Valuable(t, cost, a) by {
      forall j | 0 <= j < |a| ensures a[j] in cost && First(t.rows, a[j], Inventory).Some? {
        assert a[j] == qs[j];
      }
    }
    assert Valuable(t, cost, b) by {
      forall j | 0 <= j < |b| ensures b[j] in cost && First(t.rows, b[j], Inventory).Some? {
        assert b[j] == qs[m + 1 + j];
      }
    }
    assert Valuable(t, cost, [qs[m]]);
    assert qs == (a + [qs[m]]) + b;
    WeekValueAppend(t, cost, a, [qs[m]], w);
    WeekValueAppend(t, cost, a + [qs[m]], b, w);
    WeekValueAppend(t, cost, a, b, w);
    assert [qs[m]][..0] == [];
  }
}
