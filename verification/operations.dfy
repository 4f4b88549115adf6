/**
 The four button handlers with their widgets stripped away: each is a
 transition on the program state (the table, the unit costs and the warning
 threshold) that either rejects its input, leaving the state as it was and
 naming the error it reports, or applies its change and refreshes the table.
 */
module Operations {
  import opened Ledger
  import opened Recurrence
  import opened Calculate

  /** The program's global state: the data frame, material_cost and INVENTORY_WARNING_THRESHOLD. */
  datatype State = State(table: Table, cost: map<string, real>, threshold: int)

  /** A text entry after int() or float(): empty, not a number, or a number. */
  datatype Field<T> = Blank | Malformed | Parsed(value: T)

  /** The error each handler reports in its message box. */
  datatype Error =
    | InvalidNumbers    // modify_data: supply, demand or cost does not parse
    | MissingInput      // add_product: product name or cost left empty
    | InvalidCost       // add_product: cost does not parse
    | NoSelection       // delete_product: no product chosen
    | NotFound          // delete_product: product has no unit cost
    | InvalidThreshold  // modify_threshold: threshold does not parse

  /** The state after a button press and the error it reported, if any. */
  datatype Outcome = Outcome(state: State, error: Option<Error>)

  /** refresh_data's effect on the state: update_table recomputes the inventory. */
  function Refresh(s: State): (r: State)
    requires s.table.Valid()
    ensures r.table.Valid() && Consistent(r.table)
    ensures r.cost == s.cost && r.threshold == s.threshold
    ensures r.table.width == s.table.width && SameShape(s.table.rows, r.table.rows)
    ensures forall i :: 0 <= i < |s.table.rows| && s.table.rows[i].item != Inventory ==> r.table.rows[i] == s.table.rows[i]
  {
    RecomputeConsistent(s.table);
    State(Recompute(s.table), s.cost, s.threshold)
  }

  /** The table after modify_data's two writes, before it recomputes. */
  function EditWeek(t: Table, product: string, week: nat, supply: int, demand: int): (u: Table)
    requires t.Valid() && week < t.width
    ensures u.Valid() && u.width == t.width && SameShape(t.rows, u.rows)
  {
    var rows := SetCells(t.rows, product, Supply, week, supply);
    Table(t.width, SetCells(rows, product, Demand, week, demand))
  }

  /**
   modify_data: when supply, demand and cost all parse, overwrite the chosen
   week of the product's Supply and Demand rows, set its unit cost, and
   recompute; otherwise report the error and change nothing.
   */
  function ModifyData(s: State, product: string, week: nat, supply: Field<int>, demand: Field<int>, cost: Field<real>): (o: Outcome)
    requires s.table.Valid() && week < s.table.width
    ensures o.error.None? <==> supply.Parsed? && demand.Parsed? && cost.Parsed?
    ensures o.error.Some? ==> o == Outcome(s, Some(InvalidNumbers))
    ensures o.error.None? ==>
      && o.state.table.Valid() && o.state.table.width == s.table.width
      && SameShape(s.table.rows, o.state.table.rows)
      && o.state.cost == s.cost[product := cost.value]
      && o.state.threshold == s.threshold
      && Consistent(o.state.table)
    ensures o.error.None? ==> forall i :: 0 <= i < |s.table.rows| && IsRow(s.table.rows[i], product, Supply) ==>
      o.state.table.rows[i].weeks[week] == supply.value
    ensures o.error.None? ==> forall i :: 0 <= i < |s.table.rows| && IsRow(s.table.rows[i], product, Demand) ==>
      o.state.table.rows[i].weeks[week] == demand.value
    ensures o.error.None? ==> forall i, w ::
      (0 <= i < |s.table.rows| && s.table.rows[i].item != Inventory && 0 <= w < s.table.width &&
       !(s.table.rows[i].product == product && w == week)) ==>
      o.state.table.rows[i].weeks[w] == s.table.rows[i].weeks[w]
  {
    if supply.Parsed? && demand.Parsed? && cost.Parsed? then
      var edited := EditWeek(s.table, product, week, supply.value, demand.value);
      Outcome(Refresh(State(Recompute(edited), s.cost[product := cost.value], s.threshold)), None)
    else
      Outcome(s, Some(InvalidNumbers))
  }

  /** The three all-zero rows add_product appends for a new product. */
  function ZeroRows(name: string, width: nat): (rows: seq<Row>)
    ensures |rows| == 3 && Table(width, rows).Valid()
  {
    [Row(name, Supply, Zeros(width)), Row(name, Demand, Zeros(width)), Row(name, Inventory, Zeros(width))]
  }

  /** The table with the three zero rows of `name` appended, before add_product refreshes. */
  function Grow(t: Table, name: string): (u: Table)
    requires t.Valid()
    ensures u.Valid() && u.width == t.width && |u.rows| == |t.rows| + 3
  {
    AppendValid(t, ZeroRows(name, t.width));
    Table(t.width, t.rows + ZeroRows(name, t.width))
  }

  /**
   add_product: with a non-empty name and a cost that parses, set the unit
   cost, append three zero rows for the name (there is no duplicate check)
   and refresh; otherwise report the error and change nothing.
   */
  function AddProduct(s: State, name: string, cost: Field<real>): (o: Outcome)
    requires s.table.Valid()
    ensures o.error.None? <==> name != "" && cost.Parsed?
    ensures name == "" || cost.Blank? ==> o == Outcome(s, Some(MissingInput))
    ensures name != "" && cost.Malformed? ==> o == Outcome(s, Some(InvalidCost))
    ensures o.error.None? ==>
      var n := |s.table.rows|;
      && o.state.table.Valid() && o.state.table.width == s.table.width
      && |o.state.table.rows| == n + 3
      && o.state.table.rows[n] == Row(name, Supply, Zeros(s.table.width))
      && o.state.table.rows[n + 1] == Row(name, Demand, Zeros(s.table.width))
      && IsRow(o.state.table.rows[n + 2], name, Inventory)
      && o.state.cost == s.cost[name := cost.value]
      && o.state.threshold == s.threshold
      && Consistent(o.state.table)
    ensures o.error.None? ==> SameShape(s.table.rows + ZeroRows(name, s.table.width), o.state.table.rows)
    ensures o.error.None? ==> forall i :: 0 <= i < |s.table.rows| && s.table.rows[i].item != Inventory ==>
      o.state.table.rows[i] == s.table.rows[i]
  {
    if name == "" || cost.Blank? then Outcome(s, Some(MissingInput))
    else if cost.Malformed? then Outcome(s, Some(InvalidCost))
    else Outcome(Refresh(State(Grow(s.table, name), s.cost[name := cost.value], s.threshold)), None)
  }

  /** The table without the rows of `name`, before delete_product refreshes. */
  function Shrink(t: Table, name: string): (u: Table)
    requires t.Valid()
    ensures u.Valid() && u.width == t.width && u.rows == Without(t.rows, name)
    ensures forall i :: 0 <= i < |u.rows| ==> u.rows[i].product != name
  {
    WithoutValid(t, name);
    var u := Table(t.width, Without(t.rows, name));
    assert forall i :: 0 <= i < |u.rows| ==> u.rows[i].product != name by {
      forall i | 0 <= i < |u.rows| ensures u.rows[i].product != name {
        assert u.rows[i] in u.rows;
      }
    }
    u
  }

  /**
   delete_product: when a product is selected and has a unit cost, drop the
   cost and every row of that product, keeping the other rows in order, and
   refresh; otherwise report the error and change nothing.
   */
  function DeleteProduct(s: State, name: string): (o: Outcome)
    requires s.table.Valid()
    ensures o.error.None? <==> name != "" && name in s.cost
    ensures name == "" ==> o == Outcome(s, Some(NoSelection))
    ensures name != "" && name !in s.cost ==> o == Outcome(s, Some(NotFound))
    ensures o.error.None? ==>
      && o.state.table.Valid() && o.state.table.width == s.table.width
      && SameShape(Without(s.table.rows, name), o.state.table.rows)
      && (forall i :: 0 <= i < |o.state.table.rows| ==> o.state.table.rows[i].product != name)
      && o.state.cost == s.cost - {name}
      && name !in o.state.cost
      && o.state.threshold == s.threshold
      && Consistent(o.state.table)
    ensures o.error.None? ==> forall i :: 0 <= i < |o.state.table.rows| && o.state.table.rows[i].item != Inventory ==>
      o.state.table.rows[i] == Without(s.table.rows, name)[i]
  {
    if name == "" then Outcome(s, Some(NoSelection))
    else if name !in s.cost then Outcome(s, Some(NotFound))
    else Outcome(Refresh(State(Shrink(s.table, name), s.cost - {name}, s.threshold)), None)
  }

  /**
   modify_threshold: when the entry parses as an integer, it becomes the
   warning threshold and the display is refreshed; otherwise report the error
   and change nothing. Nothing compares a value against the threshold.
   */
  function ModifyThreshold(s: State, entry: Field<int>): (o: Outcome)
    requires s.table.Valid()
    ensures o.error.None? <==> entry.Parsed?
    ensures !entry.Parsed? ==> o == Outcome(s, Some(InvalidThreshold))
    ensures entry.Parsed? ==>
      && o.state.threshold == entry.value
      && o.state.table.width == s.table.width
      && o.state.cost == s.cost
      && o.state.table.Valid()
      && SameShape(s.table.rows, o.state.table.rows)
      && Consistent(o.state.table)
    ensures entry.Parsed? ==> forall i :: 0 <= i < |s.table.rows| && s.table.rows[i].item != Inventory ==>
      o.state.table.rows[i] == s.table.rows[i]
  {
    if entry.Parsed? then Outcome(Refresh(State(s.table, s.cost, entry.value)), None)
    else Outcome(s, Some(InvalidThreshold))
  }
}
