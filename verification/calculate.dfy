/**
 calculate_inventory: rebuilds every Inventory row from its product's Supply
 and Demand rows, and leaves the rest of the table alone.
 */
module Calculate {
  import opened Ledger
  import opened Recurrence

  /** p has both a Supply and a Demand row; otherwise every lookup for p raises IndexError and p is skipped. */
  predicate Complete(rows: seq<Row>, p: string) {
    First(rows, p, Supply).Some? && First(rows, p, Demand).Some?
  }

  /** What the Inventory rows of a complete product p must hold. */
  function Target(t: Table, p: string): (inv: seq<int>)
    requires t.Valid() && Complete(t.rows, p)
    ensures |inv| == t.width
  {
    Balance(WeeksOf(t, p, Supply), WeeksOf(t, p, Demand))
  }

  /**
   The table is consistent: every Inventory row of a product that has
   Supply and Demand rows follows the recurrence from the first of those rows.
   */
  predicate Consistent(t: Table)
    requires t.Valid()
  {
    forall i :: 0 <= i < |t.rows| && t.rows[i].item == Inventory && Complete(t.rows, t.rows[i].product) ==>
      Follows(t.rows[i].weeks, WeeksOf(t, t.rows[i].product, Supply), WeeksOf(t, t.rows[i].product, Demand))
  }

  /** The row that calculate_inventory leaves in place of r. */
  function Recomputed(t: Table, r: Row): Row
    requires t.Valid() && |r.weeks| == t.width
  {
    if r.item == Inventory && Complete(t.rows, r.product) then Row(r.product, Inventory, Target(t, r.product))
    else r
  }

  /** The table calculate_inventory returns. */
  function Recompute(t: Table): (u: Table)
    requires t.Valid()
    ensures u.Valid() && u.width == t.width
    ensures SameShape(t.rows, u.rows)
    ensures forall i :: 0 <= i < |t.rows| && t.rows[i].item != Inventory ==> u.rows[i] == t.rows[i]
    ensures forall i :: 0 <= i < |t.rows| && !Complete(t.rows, t.rows[i].product) ==> u.rows[i] == t.rows[i]
  {
    Table(t.width, seq(|t.rows|, i requires 0 <= i < |t.rows| => Recomputed(t, t.rows[i])))
  }

  /** Tables of the same width and shape whose Supply and Demand rows agree recompute alike. */
  lemma SameInputs(t: Table, u: Table)
    requires t.Valid() && u.Valid() && t.width == u.width && SameShape(t.rows, u.rows)
    requires forall i :: 0 <= i < |t.rows| && t.rows[i].item != Inventory ==> t.rows[i] == u.rows[i]
    ensures forall p :: Complete(t.rows, p) <==> Complete(u.rows, p)
    ensures forall p :: Complete(t.rows, p) ==> WeeksOf(t, p, Supply) == WeeksOf(u, p, Supply)
    ensures forall p :: Complete(t.rows, p) ==> WeeksOf(t, p, Demand) == WeeksOf(u, p, Demand)
  {
    forall p, k {
      FirstOfSameShape(t.rows, u.rows, p, k);
    }
  }

  /** After calculate_inventory the table is consistent. */
  lemma RecomputeConsistent(t: Table)
    requires t.Valid()
    ensures Consistent(Recompute(t))
  {
    SameInputs(t, Recompute(t));
  }

  /** The table is consistent exactly when recomputing changes nothing. */
  lemma ConsistentIffFixpoint(t: Table)
    requires t.Valid()
    ensures Consistent(t) <==> Recompute(t) == t
  {
    var u := Recompute(t);
    if Consistent(t) {
      forall i | 0 <= i < |t.rows|
        ensures u.rows[i] == t.rows[i]
      {
        var r := t.rows[i];
        if r.item == Inventory && Complete(t.rows, r.product) {
          FollowsIffBalance(r.weeks, WeeksOf(t, r.product, Supply), WeeksOf(t, r.product, Demand));
        }
      }
    }
    if u == t {
      RecomputeConsistent(t);
    }
  }

  /** Recomputing twice gives the table recomputing once gives (modify_data recomputes twice). */
  lemma RecomputeIdempotent(t: Table)
    requires t.Valid()
    ensures Recompute(Recompute(t)) == Recompute(t)
  {
    RecomputeConsistent(t);
    ConsistentIffFixpoint(Recompute(t));
  }

  /** Closed form: week k of a recomputed Inventory row is the product's net flow of weeks 0..k. */
  lemma RecomputeClosedForm(t: Table, i: nat, k: nat)
    requires t.Valid() && i < |t.rows| && k < t.width
    requires t.rows[i].item == Inventory && Complete(t.rows, t.rows[i].product)
    ensures Recompute(t).rows[i].weeks[k] ==
      NetFlow(WeeksOf(t, t.rows[i].product, Supply), WeeksOf(t, t.rows[i].product, Demand), k + 1)
  {
    var p := t.rows[i].product;
    BalanceIsNetFlow(WeeksOf(t, p, Supply), WeeksOf(t, p, Demand), k);
  }

  /** Any sequence that follows the recurrence from p's first Supply and Demand rows is what p's Inventory row becomes. */
  lemma RecomputeUnique(t: Table, i: nat, expected: seq<int>)
    requires t.Valid() && i < |t.rows| && t.rows[i].item == Inventory && Complete(t.rows, t.rows[i].product)
    requires Follows(expected, WeeksOf(t, t.rows[i].product, Supply), WeeksOf(t, t.rows[i].product, Demand))
    ensures Recompute(t).rows[i].weeks == expected
  {
    FollowsIffBalance(expected, WeeksOf(t, t.rows[i].product, Supply), WeeksOf(t, t.rows[i].product, Demand));
  }

  /**
   Per-product isolation: the recomputed rows of product q depend only on the
   rows of q, so two same-shaped tables that agree on q's rows agree on q's
   rows after recomputing.
   */
  lemma RecomputeIsolated(t: Table, u: Table, q: string)
    requires t.Valid() && u.Valid() && t.width == u.width && SameShape(t.rows, u.rows)
    requires forall i :: 0 <= i < |t.rows| && t.rows[i].product == q ==> t.rows[i] == u.rows[i]
    ensures forall i :: 0 <= i < |t.rows| && t.rows[i].product == q ==> Recompute(t).rows[i] == Recompute(u).rows[i]
  {
    forall k {
      FirstOfSameShape(t.rows, u.rows, q, k);
    }
  }

  /** Rows r of the same width, each replaced by the row calculate_inventory leaves for it in table t. */
  function RecomputeRows(t: Table, rows: seq<Row>): (r: seq<Row>)
    requires t.Valid() && Table(t.width, rows).Valid()
    ensures |r| == |rows|
  {
    seq(|rows|, i requires 0 <= i < |rows| => Recomputed(t, rows[i]))
  }

  /**
   Isolation without any layout condition: recomputing the whole table and
   then keeping q's rows gives exactly what recomputing q's rows alone gives.
   Other products' rows may sit anywhere, in any number.
   */
  lemma RecomputeOnly(t: Table, q: string)
    requires t.Valid()
    ensures Table(t.width, Only(t.rows, q)).Valid()
    ensures Only(Recompute(t).rows, q) == Recompute(Table(t.width, Only(t.rows, q))).rows
  {
    var o := Table(t.width, Only(t.rows, q));
    OnlyValid(t, q);
    OnlyTracks(t.rows, q, Supply);
    OnlyTracks(t.rows, q, Demand);
    assert Complete(t.rows, q) <==> Complete(o.rows, q);
    assert Recompute(t).rows == RecomputeRows(t, t.rows);
    assert Recompute(o).rows == RecomputeRows(o, o.rows);
    OnlyRecomputed(t, o, t.rows, q);
  }

  /** Two tables that hold the same rows of q, wherever the other rows are, recompute q's rows alike. */
  lemma RecomputeLocal(t: Table, u: Table, q: string)
    requires t.Valid() && u.Valid() && t.width == u.width && Only(t.rows, q) == Only(u.rows, q)
    ensures Only(Recompute(t).rows, q) == Only(Recompute(u).rows, q)
  {
    RecomputeOnly(t, q);
    RecomputeOnly(u, q);
  }

  /** Filtering to q commutes with recomputing row by row, when t and o agree on q's inputs. */
  lemma {:induction false} OnlyRecomputed(t: Table, o: Table, rows: seq<Row>, q: string)
    requires t.Valid() && o.Valid() && o.width == t.width && Table(t.width, rows).Valid()
    requires Complete(t.rows, q) <==> Complete(o.rows, q)
    requires Complete(t.rows, q) ==> WeeksOf(t, q, Supply) == WeeksOf(o, q, Supply) && WeeksOf(t, q, Demand) == WeeksOf(o, q, Demand)
    ensures Table(t.width, Only(rows, q)).Valid()
    ensures Only(RecomputeRows(t, rows), q) == RecomputeRows(o, Only(rows, q))
  {
    OnlyValid(Table(t.width, rows), q);
    if |rows| > 0 {
      var x, rest := rows[0], rows[1..];
      RecomputeRowsCons(t, x, rest);
      assert rows == [x] + rest;
      OnlyRecomputed(t, o, rest, q);
      OnlyCons(Recomputed(t, x), RecomputeRows(t, rest), q);
      OnlyCons(x, rest, q);
      if x.product == q {
        RecomputedAgree(t, o, x, q);
        RecomputeRowsCons(o, x, Only(rest, q));
      }
    }
  }

  /** Recomputing a row followed by more rows: the recomputed row, then the recomputed rest. */
  lemma RecomputeRowsCons(t: Table, x: Row, rest: seq<Row>)
    requires t.Valid() && |x.weeks| == t.width && Table(t.width, [x] + rest).Valid()
    ensures Table(t.width, rest).Valid()
    ensures RecomputeRows(t, [x] + rest) == [Recomputed(t, x)] + RecomputeRows(t, rest)
  {
    var rows := [x] + rest;
    forall i | 0 <= i < |rest|
      ensures |rest[i].weeks| == t.width
    {
      assert rest[i] == rows[i + 1];
    }
    var a, b := RecomputeRows(t, rows), [Recomputed(t, x)] + RecomputeRows(t, rest);
    forall i | 0 <= i < |a|
      ensures a[i] == b[i]
    {
      if i > 0 {
        assert rows[i] == rest[i - 1];
      }
    }
  }

  /** Keeping q's rows of a row followed by more rows. */
  lemma OnlyCons(x: Row, rest: seq<Row>, q: string)
    ensures Only([x] + rest, q) == (if x.product == q then [x] else []) + Only(rest, q)
  {
    assert ([x] + rest)[0] == x && ([x] + rest)[1..] == rest;
  }

  /** A row of q is recomputed alike in two tables that agree on q's Supply and Demand. */
  lemma RecomputedAgree(t: Table, o: Table, x: Row, q: string)
    requires t.Valid() && o.Valid() && o.width == t.width && |x.weeks| == t.width && x.product == q
    requires Complete(t.rows, q) <==> Complete(o.rows, q)
    requires Complete(t.rows, q) ==> WeeksOf(t, q, Supply) == WeeksOf(o, q, Supply) && WeeksOf(t, q, Demand) == WeeksOf(o, q, Demand)
    ensures Recomputed(t, x) == Recomputed(o, x)
  {
  }

  /** Dropping every row of one product keeps the table consistent for the products that remain. */
  lemma WithoutConsistent(t: Table, p: string)
    requires t.Valid() && Consistent(t)
    ensures Table(t.width, Without(t.rows, p)).Valid()
    ensures Consistent(Table(t.width, Without(t.rows, p)))
  {
    var u := Table(t.width, Without(t.rows, p));
    WithoutValid(t, p);
    forall i | 0 <= i < |u.rows| && u.rows[i].item == Inventory && Complete(u.rows, u.rows[i].product)
      ensures Follows(u.rows[i].weeks, WeeksOf(u, u.rows[i].product, Supply), WeeksOf(u, u.rows[i].product, Demand))
    {
      var r := u.rows[i];
      assert r in t.rows && r.product != p;
      var j :| 0 <= j < |t.rows| && t.rows[j] == r;
      FirstOfWithout(t.rows, p, r.product, Supply);
      FirstOfWithout(t.rows, p, r.product, Demand);
    }
  }

  /**
   Appending rows changes nothing about the rows already there, as long as
   every appended product is either new or already has Supply and Demand rows.
   */
  lemma RecomputeAppend(t: Table, extra: seq<Row>)
    requires t.Valid() && Table(t.width, t.rows + extra).Valid()
    requires forall j :: 0 <= j < |extra| ==> !Listed(t.rows, extra[j].product) || Complete(t.rows, extra[j].product)
    ensures Recompute(Table(t.width, t.rows + extra)).rows[..|t.rows|] == Recompute(t).rows
  {
    var u := Table(t.width, t.rows + extra);
    forall i | 0 <= i < |t.rows|
      ensures Recompute(u).rows[i] == Recompute(t).rows[i]
    {
      assert u.rows[i] == t.rows[i];
      var p := t.rows[i].product;
      assert Listed(t.rows, p);
      if Complete(t.rows, p) {
        FirstOfAppend(t.rows, extra, p, Supply);
        FirstOfAppend(t.rows, extra, p, Demand);
      } else {
        FirstOfAppendOther(t.rows, extra, p, Supply);
        FirstOfAppendOther(t.rows, extra, p, Demand);
      }
    }
  }

  /** With fresh appended rows, a lookup for a listed product stays inside the old rows. */
  lemma FirstOfAppendListed(a: seq<Row>, b: seq<Row>, p: string, k: Kind)
    requires Listed(a, p)
    requires forall r :: r in b ==> !Listed(a, r.product)
    ensures First(a + b, p, k) == First(a, p, k)
  {
    if First(a, p, k).None? {
      FirstOfAppendMissing(a, b, p, k);
    } else {
      FirstOfAppend(a, b, p, k);
    }
  }

  /** Appended rows that form a consistent table of their own leave the whole table consistent,
      provided they name no product the table already lists. */
  lemma AppendFreshConsistent(t: Table, extra: seq<Row>)
    requires t.Valid() && Consistent(t)
    requires Table(t.width, extra).Valid() && Consistent(Table(t.width, extra))
    requires forall r :: r in extra ==> !Listed(t.rows, r.product)
    ensures Table(t.width, t.rows + extra).Valid()
    ensures Consistent(Table(t.width, t.rows + extra))
  {
    var u := Table(t.width, t.rows + extra);
    forall i | 0 <= i < |u.rows| && u.rows[i].item == Inventory && Complete(u.rows, u.rows[i].product)
      ensures Follows(u.rows[i].weeks, WeeksOf(u, u.rows[i].product, Supply), WeeksOf(u, u.rows[i].product, Demand))
    {
      if i < |t.rows| {
        AppendedOld(t, extra, i);
      } else {
        AppendedNew(t, extra, i - |t.rows|);
      }
    }
  }

  lemma AppendedOld(t: Table, extra: seq<Row>, i: nat)
    requires t.Valid() && Consistent(t) && Table(t.width, extra).Valid()
    requires forall r :: r in extra ==> !Listed(t.rows, r.product)
    requires i < |t.rows|
    ensures var u := Table(t.width, t.rows + extra);
      u.Valid() && (u.rows[i].item == Inventory && Complete(u.rows, u.rows[i].product) ==>
        Follows(u.rows[i].weeks, WeeksOf(u, u.rows[i].product, Supply), WeeksOf(u, u.rows[i].product, Demand)))
  {
    var u := Table(t.width, t.rows + extra);
    var p := t.rows[i].product;
    assert u.rows[i] == t.rows[i];
    FirstOfAppendListed(t.rows, extra, p, Supply);
    FirstOfAppendListed(t.rows, extra, p, Demand);
  }

  lemma AppendedNew(t: Table, extra: seq<Row>, i: nat)
    requires t.Valid() && Table(t.width, extra).Valid() && Consistent(Table(t.width, extra))
    requires forall r :: r in extra ==> !Listed(t.rows, r.product)
    requires i < |extra|
    ensures var u := Table(t.width, t.rows + extra);
      u.Valid() && (u.rows[|t.rows| + i].item == Inventory && Complete(u.rows, u.rows[|t.rows| + i].product) ==>
        Follows(u.rows[|t.rows| + i].weeks, WeeksOf(u, extra[i].product, Supply), WeeksOf(u, extra[i].product, Demand)))
  {
    var u := Table(t.width, t.rows + extra);
    var p := extra[i].product;
    AppendValid(t, extra);
    assert u.rows[|t.rows| + i] == extra[i];
    assert extra[i] in extra;
    FirstOfAppendMissing(t.rows, extra, p, Supply);
    FirstOfAppendMissing(t.rows, extra, p, Demand);
    if extra[i].item == Inventory && Complete(extra, p) {
      WeeksOfAppendFresh(t, extra, p, Supply);
      WeeksOfAppendFresh(t, extra, p, Demand);
    }
  }

  /** Appending rows of the table's width keeps it rectangular. */
  lemma AppendValid(t: Table, extra: seq<Row>)
    requires t.Valid() && Table(t.width, extra).Valid()
    ensures Table(t.width, t.rows + extra).Valid()
  {
    var u := Table(t.width, t.rows + extra);
    forall j | 0 <= j < |u.rows|
      ensures |u.rows[j].weeks| == t.width
    {
      if j >= |t.rows| {
        assert u.rows[j] == extra[j - |t.rows|];
      }
    }
  }

  /** A product that only the appended rows list is read from those rows. */
  lemma WeeksOfAppendFresh(t: Table, extra: seq<Row>, p: string, k: Kind)
    requires t.Valid() && Table(t.width, extra).Valid() && !Listed(t.rows, p) && First(extra, p, k).Some?
    ensures Table(t.width, t.rows + extra).Valid() && First(t.rows + extra, p, k).Some?
    ensures WeeksOf(Table(t.width, t.rows + extra), p, k) == WeeksOf(Table(t.width, extra), p, k)
  {
    AppendValid(t, extra);
    FirstOfAppendMissing(t.rows, extra, p, k);
    var j := First(extra, p, k).value;
    assert (t.rows + extra)[|t.rows| + j] == extra[j];
  }

  /**
   The table part-way through calculate_inventory: the week columns before
   `week` are final, column `week` is final for the products in `done`, and
   every other cell still holds its original value.
   */
  predicate Stage(t: Table, rows: seq<Row>, week: nat, done: seq<string>)
    requires t.Valid()
  {
    && SameShape(t.rows, rows)
    && forall i :: 0 <= i < |rows| ==>
      && |rows[i].weeks| == t.width
      && forall k :: 0 <= k < t.width ==>
        rows[i].weeks[k] == if k < week || (k == week && rows[i].product in done)
                            then Recomputed(t, t.rows[i]).weeks[k] else t.rows[i].weeks[k]
  }

  /** The inner loop body skipped p, which leaves column `week` of p's rows as it must be. */
  lemma StageSkip(t: Table, rows: seq<Row>, week: nat, done: seq<string>, p: string)
    requires t.Valid() && week < t.width && Stage(t, rows, week, done)
    requires !Complete(t.rows, p) || (week > 0 && First(t.rows, p, Inventory).None?)
    ensures Stage(t, rows, week, done + [p])
  {
    forall i | 0 <= i < |rows| && t.rows[i].product == p && t.rows[i].item == Inventory && Complete(t.rows, p)
      ensures false
    {
      assert IsRow(t.rows[i], p, Inventory);
    }
  }

  /** The inner loop body wrote p's target value into column `week` of every Inventory row of p. */
  lemma StageWrite(t: Table, rows: seq<Row>, week: nat, done: seq<string>, p: string)
    requires t.Valid() && week < t.width && Stage(t, rows, week, done) && p !in done
    requires Complete(t.rows, p)
    ensures forall i :: 0 <= i < |rows| ==> week < |rows[i].weeks|
    ensures Stage(t, SetCells(rows, p, Inventory, week, Target(t, p)[week]), week, done + [p])
  {
    var rows' := SetCells(rows, p, Inventory, week, Target(t, p)[week]);
    forall i | 0 <= i < |rows'|
      ensures |rows'[i].weeks| == t.width
      ensures forall k :: 0 <= k < t.width ==>
        rows'[i].weeks[k] == if k < week || (k == week && rows'[i].product in done + [p])
                             then Recomputed(t, t.rows[i]).weeks[k] else t.rows[i].weeks[k]
    {
      if IsRow(rows[i], p, Inventory) {
        assert rows'[i].weeks == rows[i].weeks[week := Target(t, p)[week]];
        assert Recomputed(t, t.rows[i]).weeks == Target(t, p);
      } else {
        assert rows'[i] == rows[i];
      }
    }
  }

  /** What the inner loop body reads part-way through: the original Supply and Demand cells,
      and last week's final Inventory value. */
  lemma StageReads(t: Table, rows: seq<Row>, week: nat, done: seq<string>, p: string)
    requires t.Valid() && week < t.width && Stage(t, rows, week, done)
    ensures forall k :: First(rows, p, k) == First(t.rows, p, k)
    ensures Complete(t.rows, p) ==>
      && rows[First(rows, p, Supply).value].weeks[week] == WeeksOf(t, p, Supply)[week]
      && rows[First(rows, p, Demand).value].weeks[week] == WeeksOf(t, p, Demand)[week]
    ensures Complete(t.rows, p) && week > 0 && First(t.rows, p, Inventory).Some? ==>
      rows[First(rows, p, Inventory).value].weeks[week - 1] == Target(t, p)[week - 1]
  {
    forall k {
      FirstOfSameShape(t.rows, rows, p, k);
    }
  }

  /** The recurrence step for a complete product's target row, at week `week`. */
  lemma TargetStep(t: Table, p: string, week: nat)
    requires t.Valid() && Complete(t.rows, p) && week < t.width
    ensures week == 0 ==> Target(t, p)[week] == WeeksOf(t, p, Supply)[week] - WeeksOf(t, p, Demand)[week]
    ensures week > 0 ==> Target(t, p)[week] == Target(t, p)[week - 1] + WeeksOf(t, p, Supply)[week] - WeeksOf(t, p, Demand)[week]
  {
  }

  /** Once every product has had its turn, column `week` is final. */
  lemma StageNextWeek(t: Table, rows: seq<Row>, week: nat)
    requires t.Valid() && week < t.width && Stage(t, rows, week, Products(t.rows))
    ensures Stage(t, rows, week + 1, [])
  {
    forall i | 0 <= i < |rows|
      ensures rows[i].product in Products(t.rows)
    {
      assert Listed(t.rows, rows[i].product);
    }
  }

  /** Once every column is final, the table is the recomputed one. */
  lemma StageFinal(t: Table, rows: seq<Row>)
    requires t.Valid() && Stage(t, rows, t.width, [])
    ensures rows == Recompute(t).rows
  {
    forall i | 0 <= i < |rows|
      ensures rows[i] == Recompute(t).rows[i]
    {
      assert rows[i].weeks == Recompute(t).rows[i].weeks;
    }
  }

  /**
   The body of the inner loop of calculate_inventory for product p at column
   week: look up p's first Supply and Demand cells (and, after week 0, p's
   first Inventory cell of the previous week), then write the new balance into
   every Inventory row of p. A failed lookup is the IndexError that skips p.
   */
  method UpdateProductWeek(t: Table, rows: seq<Row>, week: nat, done: seq<string>, p: string) returns (rows': seq<Row>)
    requires t.Valid() && week < t.width && Stage(t, rows, week, done) && p !in done
    ensures Stage(t, rows', week, done + [p])
  {
    StageReads(t, rows, week, done, p);
    rows' := rows;
    var supplyRow := First(rows, p, Supply);
    var demandRow := First(rows, p, Demand);
    if supplyRow.Some? && demandRow.Some? {
      var supply := rows[supplyRow.value].weeks[week];
      var demand := rows[demandRow.value].weeks[week];
      TargetStep(t, p, week);
      StageWrite(t, rows, week, done, p);
      if week == 0 {
        assert supply - demand == Target(t, p)[week];
        rows' := SetCells(rows, p, Inventory, week, supply - demand);
      } else {
        var inventoryRow := First(rows, p, Inventory);
        if inventoryRow.Some? {
          var previous := rows[inventoryRow.value].weeks[week - 1];
          assert previous + supply - demand == Target(t, p)[week];
          rows' := SetCells(rows, p, Inventory, week, previous + supply - demand);
        } else {
          StageSkip(t, rows, week, done, p);
        }
      }
    } else {
      StageSkip(t, rows, week, done, p);
    }
  }

  /** One iteration of the outer loop: column `week` for every distinct product in turn. */
  method UpdateWeek(t: Table, rows: seq<Row>, week: nat) returns (rows': seq<Row>)
    requires t.Valid() && week < t.width && Stage(t, rows, week, [])
    ensures Stage(t, rows', week + 1, [])
  {
    var products := Products(t.rows);
    rows' := rows;
    var j := 0;
    while j < |products|
      invariant j <= |products|
      invariant Stage(t, rows', week, products[..j])
    {
      assert products[..j + 1] == products[..j] + [products[j]];
      rows' := UpdateProductWeek(t, rows', week, products[..j], products[j]);
      j := j + 1;
    }
    assert products[..j] == products;
    StageNextWeek(t, rows', week);
  }

  /** calculate_inventory as written: the week columns in increasing order, starting from week 0. */
  method CalculateInventory(t: Table) returns (u: Table)
    requires t.Valid()
    ensures u == Recompute(t)
  {
    var rows := t.rows;
    var week := 0;
    while week < t.width
      invariant week <= t.width
      invariant Stage(t, rows, week, [])
    {
      rows := UpdateWeek(t, rows, week);
      week := week + 1;
    }
    StageFinal(t, rows);
    u := Table(t.width, rows);
  }
}
