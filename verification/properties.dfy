/**
 What the handlers promise beyond one call: how each acts on a table that
 is already consistent, and that the state stays well formed across any
 sequence of button presses.
 */
module Properties {
  import opened Ledger
  import opened Recurrence
  import opened Calculate
  import opened Valuation
  import opened Operations

  /**
   Registration, as the program keeps it: every product in the table has a
   unit cost and a Supply, a Demand and an Inventory row.
   */
  predicate Registered(s: State) {
    RowsRegistered(s.table.rows, s.cost)
  }

  /** Every product with a row in `rows` has a cost and a row of every item. */
  predicate RowsRegistered(rows: seq<Row>, cost: map<string, real>) {
    forall i :: 0 <= i < |rows| ==> rows[i].product in cost && HasAllRows(rows, rows[i].product)
  }

  predicate HasAllRows(rows: seq<Row>, p: string) {
    forall k :: First(rows, p, k).Some?
  }

  /** The state every handler preserves: rectangular, consistent and registered. */
  predicate Good(s: State) {
    s.table.Valid() && Consistent(s.table) && Registered(s)
  }

  /**
   modify_data recomputes, then refresh_data recomputes again; the second pass
   changes nothing, so the table is the edited table recomputed once.
   */
  lemma ModifyDataRecomputesOnce(s: State, product: string, week: nat, supply: int, demand: int, cost: real)
    requires s.table.Valid() && week < s.table.width
    ensures ModifyData(s, product, week, Parsed(supply), Parsed(demand), Parsed(cost)).state.table ==
      Recompute(EditWeek(s.table, product, week, supply, demand))
  {
    RecomputeIdempotent(EditWeek(s.table, product, week, supply, demand));
  }

  /** An edit to one product leaves every row of every other product exactly as it was. */
  lemma ModifyDataIsolated(s: State, product: string, week: nat, supply: int, demand: int, cost: real)
    requires s.table.Valid() && Consistent(s.table) && week < s.table.width
    ensures var after := ModifyData(s, product, week, Parsed(supply), Parsed(demand), Parsed(cost)).state.table;
      forall i :: 0 <= i < |s.table.rows| && s.table.rows[i].product != product ==> after.rows[i] == s.table.rows[i]
  {
    var edited := EditWeek(s.table, product, week, supply, demand);
    ModifyDataRecomputesOnce(s, product, week, supply, demand, cost);
    ConsistentIffFixpoint(s.table);
    forall q | q != product {
      RecomputeIsolated(s.table, edited, q);
    }
  }

  /**
   modify_data for a name with no rows writes no cell but still records a unit
   cost for it: the table is only recomputed and the cost map gains the name.
   */
  lemma ModifyDataUnlisted(s: State, product: string, week: nat, supply: int, demand: int, cost: real)
    requires s.table.Valid() && week < s.table.width && !Listed(s.table.rows, product)
    ensures var o := ModifyData(s, product, week, Parsed(supply), Parsed(demand), Parsed(cost));
      o.state.table == Recompute(s.table) && product in o.state.cost && o.state.cost[product] == cost
  {
    var edited := EditWeek(s.table, product, week, supply, demand);
    ModifyDataRecomputesOnce(s, product, week, supply, demand, cost);
    assert edited == s.table by {
      forall i | 0 <= i < |s.table.rows|
        ensures edited.rows[i] == s.table.rows[i]
      {
        assert edited.rows[i].weeks == s.table.rows[i].weeks;
      }
    }
  }

  /** A new product's zero rows, on their own, follow the recurrence. */
  lemma ZeroRowsConsistent(name: string, width: nat)
    ensures Table(width, ZeroRows(name, width)).Valid() && Consistent(Table(width, ZeroRows(name, width)))
  {
    var z := ZeroRows(name, width);
    assert First(z, name, Supply) == Some(0);
    assert First(z, name, Demand) == Some(1);
    BalanceOfZeros(width);
    FollowsIffBalance(Zeros(width), Zeros(width), Zeros(width));
  }

  /** Appending the zero rows of a name with no rows keeps the table consistent. */
  lemma GrowConsistent(t: Table, name: string)
    requires t.Valid() && Consistent(t) && !Listed(t.rows, name)
    ensures Consistent(Grow(t, name))
  {
    var z := ZeroRows(name, t.width);
    ZeroRowsConsistent(name, t.width);
    assert forall r :: r in z ==> r.product == name;
    AppendFreshConsistent(t, z);
  }

  /** A fresh product on a consistent table: the old rows stay as they were and three zero rows follow. */
  lemma AddProductFresh(s: State, name: string, cost: real)
    requires s.table.Valid() && Consistent(s.table) && name != "" && !Listed(s.table.rows, name)
    ensures AddProduct(s, name, Parsed(cost)).state.table.rows == s.table.rows + ZeroRows(name, s.table.width)
  {
    GrowConsistent(s.table, name);
    ConsistentIffFixpoint(Grow(s.table, name));
  }

  /**
   No duplicate check: adding a name that already has Supply and Demand rows
   on a consistent table keeps the old rows and appends a second set, whose
   Inventory row repeats the existing product's inventory.
   */
  lemma AddProductDuplicate(s: State, name: string, cost: real)
    requires s.table.Valid() && Consistent(s.table) && name != "" && Complete(s.table.rows, name)
    ensures var after := AddProduct(s, name, Parsed(cost)).state.table;
      && after.rows[..|s.table.rows|] == s.table.rows
      && after.rows[|s.table.rows| + 2] == Row(name, Inventory, Target(s.table, name))
  {
    var n := |s.table.rows|;
    var grown := Grow(s.table, name);
    RecomputeAppend(s.table, ZeroRows(name, s.table.width));
    ConsistentIffFixpoint(s.table);
    assert grown.rows[n + 2] == Row(name, Inventory, Zeros(s.table.width));
    FirstOfAppend(s.table.rows, ZeroRows(name, s.table.width), name, Supply);
    FirstOfAppend(s.table.rows, ZeroRows(name, s.table.width), name, Demand);
    assert Target(grown, name) == Target(s.table, name);
  }

  /** Deleting from a consistent table keeps exactly the other products' rows, in order. */
  lemma DeleteProductKeepsOthers(s: State, name: string)
    requires s.table.Valid() && Consistent(s.table) && name != "" && name in s.cost
    ensures DeleteProduct(s, name).state.table.rows == Without(s.table.rows, name)
  {
    WithoutConsistent(s.table, name);
    ConsistentIffFixpoint(Table(s.table.width, Without(s.table.rows, name)));
  }

  /** Setting the threshold on a consistent table leaves the table alone. */
  lemma ModifyThresholdKeepsTable(s: State, threshold: int)
    requires s.table.Valid() && Consistent(s.table)
    ensures ModifyThreshold(s, Parsed(threshold)).state == State(s.table, s.cost, threshold)
  {
    ConsistentIffFixpoint(s.table);
  }

  /**
   Deleting a product and adding it back with the same name gives an empty
   history: none of its old rows remain, only three zero rows at the end.
   */
  lemma DeleteThenAdd(s: State, name: string, cost: real)
    requires Good(s) && name != "" && name in s.cost
    ensures var deleted := DeleteProduct(s, name).state;
      AddProduct(deleted, name, Parsed(cost)).state.table.rows ==
        Without(s.table.rows, name) + ZeroRows(name, s.table.width)
  {
    var deleted := DeleteProduct(s, name).state;
    DeleteProductKeepsOthers(s, name);
    assert !Listed(deleted.table.rows, name) by {
      forall i | 0 <= i < |deleted.table.rows|
        ensures deleted.table.rows[i].product != name
      {
      }
    }
    AddProductFresh(deleted, name, cost);
  }

  /** A button press, with the inputs the handler reads from its widgets. */
  datatype Command =
    | Modify(product: string, week: nat, supply: Field<int>, demand: Field<int>, cost: Field<real>)
    | Add(name: string, price: Field<real>)
    | Delete(name: string)
    | SetThreshold(entry: Field<int>)

  /** The week a command selects lies within the table. */
  predicate InRange(c: Command, width: nat) {
    c.Modify? ==> c.week < width
  }

  /** The handler a button press runs. */
  function Apply(s: State, c: Command): (o: Outcome)
    requires s.table.Valid() && InRange(c, s.table.width)
    ensures o.state.table.Valid() && o.state.table.width == s.table.width
    ensures o.error.Some? ==> o.state == s
  {
    match c
    case Modify(p, w, sup, dem, price) => ModifyData(s, p, w, sup, dem, price)
    case Add(name, price) => AddProduct(s, name, price)
    case Delete(name) => DeleteProduct(s, name)
    case SetThreshold(entry) => ModifyThreshold(s, entry)
  }

  /** A sequence of button presses, each handled in turn. */
  function Run(s: State, cs: seq<Command>): (r: State)
    requires s.table.Valid() && forall j :: 0 <= j < |cs| ==> InRange(cs[j], s.table.width)
    ensures r.table.Valid() && r.table.width == s.table.width
    decreases |cs|
  {
    if |cs| == 0 then s else Run(Apply(s, cs[0]).state, cs[1..])
  }

  /** A table of the same shape, with at least the same costs, is registered too. */
  lemma ShapeRegistered(a: seq<Row>, b: seq<Row>, cost: map<string, real>, cost': map<string, real>)
    requires RowsRegistered(a, cost) && SameShape(a, b) && cost.Keys <= cost'.Keys
    ensures RowsRegistered(b, cost')
  {
    forall q, k {
      FirstOfSameShape(a, b, q, k);
    }
  }

  /** Dropping one product and its cost keeps every other product registered. */
  lemma WithoutRegistered(rows: seq<Row>, name: string, cost: map<string, real>)
    requires RowsRegistered(rows, cost)
    ensures RowsRegistered(Without(rows, name), cost - {name})
  {
    var kept := Without(rows, name);
    forall i | 0 <= i < |kept|
      ensures kept[i].product in cost - {name} && HasAllRows(kept, kept[i].product)
    {
      var q := kept[i].product;
      assert kept[i] in rows;
      var j :| 0 <= j < |rows| && rows[j] == kept[i];
      forall k | true
        ensures First(kept, q, k).Some?
      {
        FirstOfWithout(rows, name, q, k);
      }
    }
  }

  /** Appending the three zero rows of a name and giving it a cost keeps every product registered. */
  lemma GrowRegistered(rows: seq<Row>, name: string, width: nat, cost: map<string, real>, price: real)
    requires RowsRegistered(rows, cost)
    ensures RowsRegistered(rows + ZeroRows(name, width), cost[name := price])
  {
    var z := ZeroRows(name, width);
    var grown := rows + z;
    forall i | 0 <= i < |grown|
      ensures grown[i].product in cost[name := price] && HasAllRows(grown, grown[i].product)
    {
      var q := grown[i].product;
      forall k | true
        ensures First(grown, q, k).Some?
      {
        if i < |rows| {
          assert grown[i] == rows[i];
          FirstOfAppend(rows, z, q, k);
        } else if First(rows, q, k).Some? {
          FirstOfAppend(rows, z, q, k);
        } else {
          FirstOfAppendMissing(rows, z, q, k);
          assert z[match k case Supply => 0 case Demand => 1 case Inventory => 2].item == k;
        }
      }
    }
  }

  /** Every handler maps a good state to a good state. */
  lemma ApplyKeepsGood(s: State, c: Command)
    requires Good(s) && InRange(c, s.table.width)
    ensures Good(Apply(s, c).state)
  {
    var o := Apply(s, c);
    if o.error.None? {
      match c
      case Modify(p, w, sup, dem, price) =>
        ShapeRegistered(s.table.rows, o.state.table.rows, s.cost, o.state.cost);
      case SetThreshold(entry) =>
        ShapeRegistered(s.table.rows, o.state.table.rows, s.cost, o.state.cost);
      case Delete(name) =>
        WithoutRegistered(s.table.rows, name, s.cost);
        ShapeRegistered(Without(s.table.rows, name), o.state.table.rows, s.cost - {name}, o.state.cost);
      case Add(name, price) =>
        GrowRegistered(s.table.rows, name, s.table.width, s.cost, price.value);
        ShapeRegistered(Grow(s.table, name).rows, o.state.table.rows, o.state.cost, o.state.cost);
    }
  }

  /** Consistency and registration hold after any sequence of button presses from a good state. */
  lemma {:induction false} RunKeepsGood(s: State, cs: seq<Command>)
    requires Good(s) && forall j :: 0 <= j < |cs| ==> InRange(cs[j], s.table.width)
    ensures Good(Run(s, cs))
    decreases |cs|
  {
    if |cs| > 0 {
      ApplyKeepsGood(s, cs[0]);
      RunKeepsGood(Apply(s, cs[0]).state, cs[1..]);
    }
  }

  /** In a good state the valuation loop never raises: the value series always exists. */
  lemma GoodIsPriced(s: State)
    requires Good(s)
    ensures ValueSeries(s.table, s.cost).Some?
  {
  }

  /** Appending the zero rows of a name with no rows lists that name last among the products. */
  lemma ProductsGrow(rows: seq<Row>, name: string, width: nat)
    requires !Listed(rows, name)
    ensures Products(rows + ZeroRows(name, width)) == Products(rows) + [name]
  {
    var z := ZeroRows(name, width);
    assert rows + z == ((rows + [z[0]]) + [z[1]]) + [z[2]];
    ProductsAppend(rows, z[0]);
    ProductsAppend(rows + [z[0]], z[1]);
    ProductsAppend((rows + [z[0]]) + [z[1]], z[2]);
  }

  /** Appending a fresh product's rows does not change the holding of a product already listed. */
  lemma GrowHolding(t: Table, cost: map<string, real>, name: string, price: real, q: string, w: nat)
    requires t.Valid() && w < t.width && q != name && q in cost && First(t.rows, q, Inventory).Some?
    ensures First(Grow(t, name).rows, q, Inventory).Some?
    ensures Holding(t, cost, q, w) == Holding(Grow(t, name), cost[name := price], q, w)
  {
    FirstOfAppend(t.rows, ZeroRows(name, t.width), q, Inventory);
  }

  /** The holding of a freshly added product is zero in every week. */
  lemma GrowHoldingNew(t: Table, cost: map<string, real>, name: string, price: real, w: nat)
    requires t.Valid() && w < t.width && !Listed(t.rows, name)
    ensures First(Grow(t, name).rows, name, Inventory).Some?
    ensures Holding(Grow(t, name), cost[name := price], name, w) == 0.0
  {
    var z := ZeroRows(name, t.width);
    FirstAt(z, name, Inventory, 2);
    FirstOfAppendMissing(t.rows, z, name, Inventory);
  }

  /** Week w of the value series of a table with a fresh product's zero rows appended. */
  lemma GrowWeekValue(t: Table, cost: map<string, real>, name: string, price: real, w: nat)
    requires t.Valid() && w < t.width && Priced(t, cost) && !Listed(t.rows, name)
    requires Priced(Grow(t, name), cost[name := price])
    ensures ValueSeries(t, cost).Some? && ValueSeries(Grow(t, name), cost[name := price]).Some?
    ensures ValueSeries(Grow(t, name), cost[name := price]).value[w] == ValueSeries(t, cost).value[w]
  {
    var u, cost' := Grow(t, name), cost[name := price];
    var ps := Products(t.rows);
    ValueSeriesAt(t, cost, Products(t.rows), w);
    ValueSeriesAt(u, cost', Products(u.rows), w);
    ProductsGrow(t.rows, name, t.width);
    GrowHoldingNew(t, cost, name, price, w);
    forall j | 0 <= j < |ps|
      ensures ps[j] in cost' && First(u.rows, ps[j], Inventory).Some?
      ensures Holding(t, cost, ps[j], w) == Holding(u, cost', ps[j], w)
    {
      assert Listed(t.rows, ps[j]);
      GrowHolding(t, cost, name, price, ps[j], w);
    }
    assert Valuable(u, cost', ps);
    WeekValueExtend(t, cost, u, cost', ps, name, w);
  }

  /**
   Adding a product that has no rows yet leaves the plotted value series as it
   was: its Inventory row is all zeros, so it adds nothing to any week.
   */
  lemma AddProductKeepsValue(s: State, name: string, price: real)
    requires Good(s) && name != "" && !Listed(s.table.rows, name)
    ensures var after := AddProduct(s, name, Parsed(price)).state;
      ValueSeries(after.table, after.cost) == ValueSeries(s.table, s.cost)
  {
    var after := AddProduct(s, name, Parsed(price)).state;
    AddProductFresh(s, name, price);
    assert after.table == Grow(s.table, name);
    ApplyKeepsGood(s, Add(name, Parsed(price)));
    GoodIsPriced(s);
    GoodIsPriced(after);
    forall w | 0 <= w < s.table.width
      ensures ValueSeries(after.table, after.cost).value[w] == ValueSeries(s.table, s.cost).value[w]
    {
      GrowWeekValue(s.table, s.cost, name, price, w);
    }
    assert ValueSeries(after.table, after.cost).value == ValueSeries(s.table, s.cost).value;
  }

  /** Dropping another product's rows does not change the holding of a product that stays. */
  lemma ShrinkHolding(t: Table, cost: map<string, real>, name: string, q: string, w: nat)
    requires t.Valid() && w < t.width && q != name && q in cost && First(t.rows, q, Inventory).Some?
    ensures First(Shrink(t, name).rows, q, Inventory).Some?
    ensures Holding(t, cost, q, w) == Holding(Shrink(t, name), cost - {name}, q, w)
  {
    var u := Shrink(t, name);
    assert First(u.rows, q, Inventory).Some? && WeeksOf(u, q, Inventory) == WeeksOf(t, q, Inventory) by {
      FirstOfWithout(t.rows, name, q, Inventory);
    }
    HoldingSame(t, cost, u, cost - {name}, q, w);
  }

  /** After a product's rows are dropped, the products listed are the others, each once. */
  lemma ProductsShrink(rows: seq<Row>, name: string, m: nat)
    requires m < |Products(rows)| && Products(rows)[m] == name
    ensures forall p :: p in Products(Without(rows, name)) <==> p in Drop(Products(rows), m)
    ensures forall i, j :: 0 <= i < j < |Drop(Products(rows), m)| ==> Drop(Products(rows), m)[i] != Drop(Products(rows), m)[j]
  {
    var kept := Without(rows, name);
    DropDistinct(Products(rows), m);
    forall p
      ensures Listed(kept, p) <==> Listed(rows, p) && p != name
    {
      if Listed(kept, p) {
        var k :| 0 <= k < |kept| && kept[k].product == p;
        assert kept[k] in kept;
      }
      if Listed(rows, p) && p != name {
        var k :| 0 <= k < |rows| && rows[k].product == p;
        assert rows[k] in kept;
      }
    }
  }

  /** Week w of the value series once a priced product's rows and cost are dropped. */
  lemma ShrinkWeekValue(t: Table, cost: map<string, real>, name: string, w: nat)
    requires t.Valid() && w < t.width && Priced(t, cost) && Listed(t.rows, name)
    requires Priced(Shrink(t, name), cost - {name})
    ensures name in cost && First(t.rows, name, Inventory).Some?
    ensures ValueSeries(t, cost).Some? && ValueSeries(Shrink(t, name), cost - {name}).Some?
    ensures ValueSeries(t, cost).value[w] == ValueSeries(Shrink(t, name), cost - {name}).value[w] + Holding(t, cost, name, w)
  {
    var u, cost' := Shrink(t, name), cost - {name};
    var ps := Products(t.rows);
    ValueSeriesAt(t, cost, Products(t.rows), w);
    ValueSeriesAt(u, cost', Products(u.rows), w);
    assert name in ps;
    var m :| 0 <= m < |ps| && ps[m] == name;
    ProductsShrink(t.rows, name, m);
    var rest := Drop(ps, m);
    Sub(t, cost, ps, m, w);
    WeekValueOrderFree(u, cost', Products(u.rows), rest, w);
    forall j | 0 <= j < |rest|
      ensures Holding(t, cost, rest[j], w) == Holding(u, cost', rest[j], w)
    {
      assert rest[j] in rest;
      ShrinkHolding(t, cost, name, rest[j], w);
    }
    WeekValueSame(t, cost, u, cost', rest, w);
  }

  /**
   Deleting a listed product lowers the plotted value of every week by exactly
   that product's holding in that week.
   */
  lemma DeleteProductValue(s: State, name: string, w: nat)
    requires Good(s) && name != "" && name in s.cost && Listed(s.table.rows, name) && w < s.table.width
    ensures First(s.table.rows, name, Inventory).Some?
    ensures var after := DeleteProduct(s, name).state;
      && ValueSeries(s.table, s.cost).Some? && ValueSeries(after.table, after.cost).Some?
      && ValueSeries(s.table, s.cost).value[w] ==
         ValueSeries(after.table, after.cost).value[w] + Holding(s.table, s.cost, name, w)
  {
    var after := DeleteProduct(s, name).state;
    DeleteProductKeepsOthers(s, name);
    assert after.table == Shrink(s.table, name);
    ApplyKeepsGood(s, Delete(name));
    GoodIsPriced(s);
    GoodIsPriced(after);
    ShrinkWeekValue(s.table, s.cost, name, w);
  }
}
