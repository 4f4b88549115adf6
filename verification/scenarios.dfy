/**
 Concrete states: the table the script starts from, and the state its first
 refresh_data leaves before the window opens. The seeded data frame lists
 each product as three consecutive rows, Supply, Demand, Inventory; the
 lemmas about such tables are stated for any list of products and then
 applied to the seeded one.
 */
module Scenarios {
  import opened Ledger
  import opened Recurrence
  import opened Calculate
  import opened Display
  import opened Operations
  import opened Properties

  /** One product as the seed data lists it: its name and its three rows of week values. */
  datatype Stock = Stock(name: string, supply: seq<int>, demand: seq<int>, inventory: seq<int>)

  /** The week values a stock lists for one item. */
  function Item(st: Stock, k: Kind): seq<int> {
    match k
    case Supply => st.supply
    case Demand => st.demand
    case Inventory => st.inventory
  }

  /** The position of an item inside a product's three rows. */
  function Slot(k: Kind): nat {
    match k
    case Supply => 0
    case Demand => 1
    case Inventory => 2
  }

  /** The item at a position inside a product's three rows; the inverse of Slot. */
  function KindAt(m: nat): (k: Kind)
    ensures m < 3 ==> Slot(k) == m
  {
    if m == 0 then Supply else if m == 1 then Demand else Inventory
  }

  /**
   The rows of the products, three per product in Supply, Demand, Inventory
   order: row i is item i % 3 of product i / 3.
   */
  function Rows(stocks: seq<Stock>): (rows: seq<Row>)
    ensures |rows| == 3 * |stocks|
  {
    seq(3 * |stocks|, i requires 0 <= i < 3 * |stocks| =>
      Row(stocks[i / 3].name, KindAt(i % 3), Item(stocks[i / 3], KindAt(i % 3))))
  }

  /** No two products share a name. */
  predicate Distinct(stocks: seq<Stock>) {
    forall i, j :: 0 <= i < j < |stocks| ==> stocks[i].name != stocks[j].name
  }

  /** Every product lists one value per week column for each item. */
  predicate Sized(stocks: seq<Stock>, width: nat) {
    forall j, k :: 0 <= j < |stocks| ==> |Item(stocks[j], k)| == width
  }

  /** Row 3 * j + Slot(k) is product j's row for item k. */
  lemma RowsAt(stocks: seq<Stock>, j: nat, k: Kind)
    requires j < |stocks|
    ensures Rows(stocks)[3 * j + Slot(k)] == Row(stocks[j].name, k, Item(stocks[j], k))
  {
    var i := 3 * j + Slot(k);
    assert i / 3 == j && i % 3 == Slot(k);
    assert KindAt(Slot(k)) == k;
  }

  /** Every row of the table is some product's row for some item. */
  lemma RowsCover(stocks: seq<Stock>, i: nat)
    requires i < |Rows(stocks)|
    ensures i / 3 < |stocks|
    ensures Rows(stocks)[i] == Row(stocks[i / 3].name, KindAt(i % 3), Item(stocks[i / 3], KindAt(i % 3)))
  {
  }

  /** The table of sized products is rectangular. */
  lemma RowsValid(stocks: seq<Stock>, width: nat)
    requires Sized(stocks, width)
    ensures Table(width, Rows(stocks)).Valid()
  {
    forall i | 0 <= i < |Rows(stocks)|
      ensures |Rows(stocks)[i].weeks| == width
    {
      RowsCover(stocks, i);
    }
  }

  /** When no earlier product shares its name, each `.values[0]` lookup lands in product j's own block. */
  lemma RowsFirst(stocks: seq<Stock>, j: nat, k: Kind)
    requires j < |stocks| && forall i :: 0 <= i < j ==> stocks[i].name != stocks[j].name
    ensures First(Rows(stocks), stocks[j].name, k) == Some(3 * j + Slot(k))
  {
    var rows, p, n := Rows(stocks), stocks[j].name, 3 * j + Slot(k);
    RowsAt(stocks, j, k);
    forall i | 0 <= i < n
      ensures !IsRow(rows[i], p, k)
    {
      RowsCover(stocks, i);
      if i / 3 == j {
        assert i % 3 < Slot(k);
      }
    }
    FirstAt(rows, p, k, n);
  }

  /** A table listed product by product, every product with a unit cost, is registered. */
  lemma {:induction false} RowsRegisteredAll(stocks: seq<Stock>, cost: map<string, real>)
    requires Distinct(stocks)
    requires forall j :: 0 <= j < |stocks| ==> stocks[j].name in cost
    ensures RowsRegistered(Rows(stocks), cost)
  {
    var rows := Rows(stocks);
    forall i | 0 <= i < |rows|
      ensures rows[i].product in cost && HasAllRows(rows, rows[i].product)
    {
      RowsCover(stocks, i);
      forall k ensures First(rows, rows[i].product, k).Some? {
        RowsFirst(stocks, i / 3, k);
      }
    }
  }

  /** Every lookup for product j reads the week values it lists for that item. */
  lemma RowsWeeksOf(stocks: seq<Stock>, width: nat, j: nat, k: Kind)
    requires Distinct(stocks) && Sized(stocks, width) && j < |stocks|
    ensures Table(width, Rows(stocks)).Valid() && First(Rows(stocks), stocks[j].name, k).Some?
    ensures WeeksOf(Table(width, Rows(stocks)), stocks[j].name, k) == Item(stocks[j], k)
  {
    RowsValid(stocks, width);
    RowsAt(stocks, j, k);
    RowsFirst(stocks, j, k);
  }

  /** Recomputing such a table writes each product's balance into its Inventory row. */
  lemma {:induction false} RowsRecomputed(stocks: seq<Stock>, width: nat, j: nat, expected: seq<int>)
    requires Distinct(stocks) && Sized(stocks, width) && j < |stocks|
    requires Follows(expected, stocks[j].supply, stocks[j].demand)
    ensures Table(width, Rows(stocks)).Valid()
    ensures Recompute(Table(width, Rows(stocks))).rows[3 * j + 2].weeks == expected
  {
    var t := Table(width, Rows(stocks));
    RowsWeeksOf(stocks, width, j, Supply);
    RowsWeeksOf(stocks, width, j, Demand);
    RowsAt(stocks, j, Inventory);
    RecomputeUnique(t, 3 * j + 2, expected);
  }

  /** A product whose listed Inventory row does not follow the recurrence makes the table inconsistent. */
  lemma {:induction false} RowsInconsistent(stocks: seq<Stock>, width: nat, j: nat)
    requires Distinct(stocks) && Sized(stocks, width) && j < |stocks|
    requires !Follows(stocks[j].inventory, stocks[j].supply, stocks[j].demand)
    ensures Table(width, Rows(stocks)).Valid()
    ensures !Consistent(Table(width, Rows(stocks)))
  {
    var t := Table(width, Rows(stocks));
    RowsWeeksOf(stocks, width, j, Supply);
    RowsWeeksOf(stocks, width, j, Demand);
    RowsAt(stocks, j, Inventory);
  }

  /** The seed data: three products with nine weeks each, inventory values as typed in. */
  function SeedStocks(): seq<Stock> {
    [ Stock("Lobster", [25, 5, 7, 4, 11, 6, 10, 4, 4], [10, 8, 8, 8, 8, 8, 4, 4, 4], [5, 2, 1, -3, 0, -2, 4, 4, 4]),
      Stock("Salmon", [30, 50, 45, 15, 22, 15, 8, 10, 8], [10, 45, 15, 45, 18, 22, 28, 8, 8], [30, -15, -15, -15, -11, -18, -38, -36, -36]),
      Stock("Shrimp", [13, 52, 38, 40, 38, 31, 20, 5, 4], [40, 20, 40, 40, 40, 33, 31, 6, 6], [50, 82, 80, 57, 55, 53, 28, 27, 25]) ]
  }

  /** The seeded products have distinct names and nine week values per row. */
  lemma SeedWellFormed()
    ensures Distinct(SeedStocks()) && Sized(SeedStocks(), 9)
  {
  }

  /** The seeded data frame. */
  function SeedTable(): (t: Table)
    ensures t.Valid()
  {
    SeedWellFormed();
    RowsValid(SeedStocks(), 9);
    Table(9, Rows(SeedStocks()))
  }

  /** The state at start-up: the seeded table, material_cost and the default threshold of 150. */
  function Seed(): (s: State)
    ensures s.table.Valid() && Registered(s)
  {
    SeedWellFormed();
    RowsRegisteredAll(SeedStocks(), map["Lobster" := 5.0, "Salmon" := 2.0, "Shrimp" := 3.0]);
    State(SeedTable(), map["Lobster" := 5.0, "Salmon" := 2.0, "Shrimp" := 3.0], 150)
  }

  /** The state after the first refresh_data, before the window opens. */
  function Startup(): (s: State)
    ensures Good(s)
  {
    ShapeRegistered(SeedTable().rows, Recompute(SeedTable()).rows, Seed().cost, Seed().cost);
    Refresh(Seed())
  }

  /**
   The seeded inventory values do not follow the recurrence (Lobster, week 0:
   5 where 25 - 10 = 15), so the first refresh_data rewrites them.
   */
  lemma SeedIsInconsistent()
    ensures !Consistent(SeedTable()) && Recompute(SeedTable()) != SeedTable()
  {
    SeedWellFormed();
    RowsInconsistent(SeedStocks(), 9, 0);
    ConsistentIffFixpoint(SeedTable());
  }

  /** The Inventory row the first refresh_data writes for seeded product b is the one that follows the recurrence. */
  lemma StartupRow(b: nat, expected: seq<int>)
    requires b < 3 && Follows(expected, SeedStocks()[b].supply, SeedStocks()[b].demand)
    ensures Recompute(SeedTable()).rows[3 * b + 2].weeks == expected
  {
    SeedWellFormed();
    RowsRecomputed(SeedStocks(), 9, b, expected);
  }

  /** Lobster after the first refresh_data. */
  lemma StartupLobster()
    ensures Recompute(SeedTable()).rows[2].weeks == [15, 12, 11, 7, 10, 8, 14, 14, 14]
  {
    StartupRow(0, [15, 12, 11, 7, 10, 8, 14, 14, 14]);
  }

  /** Salmon after the first refresh_data. */
  lemma StartupSalmon()
    ensures Recompute(SeedTable()).rows[5].weeks == [20, 25, 55, 25, 29, 22, 2, 4, 4]
  {
    StartupRow(1, [20, 25, 55, 25, 29, 22, 2, 4, 4]);
  }

  /** Shrimp after the first refresh_data. */
  lemma StartupShrimp()
    ensures Recompute(SeedTable()).rows[8].weeks == [-27, 5, 3, 3, 1, -1, -12, -13, -15]
  {
    StartupRow(2, [-27, 5, 3, 3, 1, -1, -12, -13, -15]);
  }

  /** update_table at start-up: Shrimp, short in week 0, is shown negative. */
  lemma StartupShrimpNegative()
    ensures UpdateTable(SeedTable())[8].1 == Some(Negative)
  {
    var shrimp := [-27, 5, 3, 3, 1, -1, -12, -13, -15];
    StartupShrimp();
    RowsAt(SeedStocks(), 2, Inventory);
    assert shrimp[0] < 0;
    TagOf(SeedTable(), 8, shrimp);
  }
}
