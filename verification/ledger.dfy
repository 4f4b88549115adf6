/**
 The ledger table: one row per (product, item) pair, each row holding one
 quantity per week column. Rows are kept as a sequence, in table order, the
 way the data frame keeps them: a product may own several rows of the same
 item (nothing prevents duplicates) and every lookup takes the first match.
 */
module Ledger {

  /** A row lookup that may find nothing, a per-row tag that may be absent, a loop that may raise. */
  datatype Option<+T> = None | Some(value: T)

  /** The three items tracked per product (the "Item" column). */
  datatype Kind = Supply | Demand | Inventory

  /** One table row: the "Product" and "Item" columns, then the week columns in order. */
  datatype Row = Row(product: string, item: Kind, weeks: seq<int>)

  /** The table: how many week columns there are, and the rows in order. */
  datatype Table = Table(width: nat, rows: seq<Row>) {

    /** Every row has exactly one value per week column. */
    predicate Valid() {
      forall i :: 0 <= i < |rows| ==> |rows[i].weeks| == width
    }
  }

  predicate IsRow(r: Row, p: string, k: Kind) {
    r.product == p && r.item == k
  }

  /** Product p has at least one row in the table. */
  predicate Listed(rows: seq<Row>, p: string) {
    exists i :: 0 <= i < |rows| && rows[i].product == p
  }

  /**
   Index of the first row of product p and item k, the row `.values[0]` reads;
   None is the case in which that read raises IndexError.
   */
  function First(rows: seq<Row>, p: string, k: Kind): (r: Option<nat>)
    ensures r.Some? ==> r.value < |rows| && IsRow(rows[r.value], p, k)
    ensures r.Some? ==> forall j :: 0 <= j < r.value ==> !IsRow(rows[j], p, k)
    ensures r.None? <==> forall j :: 0 <= j < |rows| ==> !IsRow(rows[j], p, k)
  {
    if |rows| == 0 then None
    else if IsRow(rows[0], p, k) then Some(0)
    else match First(rows[1..], p, k)
      case None => None
      case Some(i) => Some(i + 1)
  }

  /** A matching row with no matching row before it is the one the lookup finds. */
  lemma FirstAt(rows: seq<Row>, p: string, k: Kind, i: nat)
    requires i < |rows| && IsRow(rows[i], p, k)
    requires forall j :: 0 <= j < i ==> !IsRow(rows[j], p, k)
    ensures First(rows, p, k) == Some(i)
  {
    var m := First(rows, p, k).value;
    assert !(m < i) && !(i < m);
  }

  /** The week values of the first row of product p and item k. */
  function WeeksOf(t: Table, p: string, k: Kind): (s: seq<int>)
    requires t.Valid() && First(t.rows, p, k).Some?
    ensures |s| == t.width
  {
    t.rows[First(t.rows, p, k).value].weeks
  }

  /**
   The distinct products in order of first appearance, as `df["Product"].unique()`
   lists them.
   */
  function Products(rows: seq<Row>): (ps: seq<string>)
    ensures forall i, j :: 0 <= i < j < |ps| ==> ps[i] != ps[j]
    ensures forall p :: p in ps <==> Listed(rows, p)
  {
    if |rows| == 0 then []
    else
      var n := |rows| - 1;
      var before := Products(rows[..n]);
      assert forall p :: Listed(rows, p) <==> Listed(rows[..n], p) || rows[n].product == p by {
        forall p | Listed(rows, p) && rows[n].product != p
          ensures Listed(rows[..n], p)
        {
          var i :| 0 <= i < |rows| && rows[i].product == p;
          assert rows[..n][i] == rows[i];
        }
        forall p | Listed(rows[..n], p)
          ensures Listed(rows, p)
        {
          var i :| 0 <= i < n && rows[..n][i].product == p;
          assert rows[i] == rows[..n][i];
        }
      }
      if rows[n].product in before then before else before + [rows[n].product]
  }

  /** Appending one row lists its product at the end, unless the product is already listed. */
  lemma ProductsAppend(rows: seq<Row>, r: Row)
    ensures Products(rows + [r]) == if r.product in Products(rows) then Products(rows) else Products(rows) + [r.product]
  {
    assert (rows + [r])[..|rows|] == rows;
  }

  /**
   `df.loc[(Product == p) & (Item == k), week] = v`: the cell of column week in
   every row of product p and item k, not only the first, becomes v.
   */
  function SetCells(rows: seq<Row>, p: string, k: Kind, week: nat, v: int): (r: seq<Row>)
    requires forall i :: 0 <= i < |rows| ==> week < |rows[i].weeks|
    ensures SameShape(rows, r)
    ensures forall i :: 0 <= i < |rows| ==> |r[i].weeks| == |rows[i].weeks|
    ensures forall i, w :: 0 <= i < |rows| && 0 <= w < |rows[i].weeks| ==>
      r[i].weeks[w] == if IsRow(rows[i], p, k) && w == week then v else rows[i].weeks[w]
  {
    seq(|rows|, i requires 0 <= i < |rows| =>
      if IsRow(rows[i], p, k) then Row(p, k, rows[i].weeks[week := v]) else rows[i])
  }

  /** Two row sequences line up row for row on product and item (week values may differ). */
  predicate SameShape(a: seq<Row>, b: seq<Row>) {
    |a| == |b| && forall i :: 0 <= i < |a| ==> a[i].product == b[i].product && a[i].item == b[i].item
  }

  /** Row lookups see only products and items, so tables of the same shape find the same rows. */
  lemma {:induction false} FirstOfSameShape(a: seq<Row>, b: seq<Row>, p: string, k: Kind)
    requires SameShape(a, b)
    ensures First(a, p, k) == First(b, p, k)
  {
    if |a| > 0 {
      assert SameShape(a[1..], b[1..]) by {
        forall i | 0 <= i < |a| - 1
          ensures a[1..][i].product == b[1..][i].product && a[1..][i].item == b[1..][i].item
        {
          assert a[1..][i] == a[i + 1] && b[1..][i] == b[i + 1];
        }
      }
      FirstOfSameShape(a[1..], b[1..], p, k);
    }
  }

  /** Appending rows after the end does not move the first row a lookup already finds. */
  lemma {:induction false} FirstOfAppend(a: seq<Row>, b: seq<Row>, p: string, k: Kind)
    requires First(a, p, k).Some?
    ensures First(a + b, p, k) == First(a, p, k)
  {
    if !IsRow(a[0], p, k) {
      assert (a + b)[1..] == a[1..] + b;
      FirstOfAppend(a[1..], b, p, k);
    }
  }

  /** Appending rows to a table without a matching row: the lookup lands in the appended part. */
  lemma {:induction false} FirstOfAppendMissing(a: seq<Row>, b: seq<Row>, p: string, k: Kind)
    requires First(a, p, k).None?
    ensures First(a + b, p, k) == (match First(b, p, k) case None => None case Some(i) => Some(|a| + i))
  {
    if |a| == 0 {
      assert a + b == b;
    } else {
      assert (a + b)[1..] == a[1..] + b;
      FirstOfAppendMissing(a[1..], b, p, k);
    }
  }

  /** The rows of every product other than p, in their original order: `df[df["Product"] != p]`. */
  function Without(rows: seq<Row>, p: string): (r: seq<Row>)
    ensures forall x :: x in r <==> x in rows && x.product != p
    ensures |r| <= |rows|
  {
    if |rows| == 0 then []
    else (if rows[0].product == p then [] else [rows[0]]) + Without(rows[1..], p)
  }

  /** Filtering distributes over concatenation, so the kept rows stay in their original order. */
  lemma {:induction false} WithoutAppend(a: seq<Row>, b: seq<Row>, p: string)
    ensures Without(a + b, p) == Without(a, p) + Without(b, p)
  {
    if |a| == 0 {
      assert a + b == b;
    } else {
      assert (a + b)[1..] == a[1..] + b;
      WithoutAppend(a[1..], b, p);
    }
  }

  /** A row of a product other than p is found at the same row contents after p's rows are dropped. */
  lemma {:induction false} FirstOfWithout(rows: seq<Row>, p: string, q: string, k: Kind)
    requires q != p
    ensures First(Without(rows, p), q, k).Some? <==> First(rows, q, k).Some?
    ensures First(rows, q, k).Some? ==>
      Without(rows, p)[First(Without(rows, p), q, k).value] == rows[First(rows, q, k).value]
  {
    if |rows| > 0 {
      var tail := Without(rows[1..], p);
      FirstOfWithout(rows[1..], p, q, k);
      if rows[0].product == p {
        assert Without(rows, p) == tail;
        TracksSkip(rows, tail, q, k);
      } else {
        assert Without(rows, p) == [rows[0]] + tail;
        TracksKeep(rows, tail, q, k);
      }
    }
  }

  /** `kept` finds a row of product q and item k exactly when `rows` does, and it is the same row. */
  predicate Tracks(rows: seq<Row>, kept: seq<Row>, q: string, k: Kind) {
    && (First(kept, q, k).Some? <==> First(rows, q, k).Some?)
    && (First(rows, q, k).Some? ==> kept[First(kept, q, k).value] == rows[First(rows, q, k).value])
  }

  /** Skipping a first row that does not match keeps the tracking of the rest. */
  lemma TracksSkip(rows: seq<Row>, kept: seq<Row>, q: string, k: Kind)
    requires |rows| > 0 && !IsRow(rows[0], q, k) && Tracks(rows[1..], kept, q, k)
    ensures Tracks(rows, kept, q, k)
  {
    if First(rows[1..], q, k).Some? {
      var i := First(rows[1..], q, k).value;
      assert rows[i + 1] == rows[1..][i];
    }
  }

  /** Keeping the first row in front of a tracking tail still tracks. */
  lemma TracksKeep(rows: seq<Row>, kept: seq<Row>, q: string, k: Kind)
    requires |rows| > 0 && Tracks(rows[1..], kept, q, k)
    ensures Tracks(rows, [rows[0]] + kept, q, k)
  {
    FirstOfCons(rows[0], kept, q, k);
    if IsRow(rows[0], q, k) {
      assert First(rows, q, k) == Some(0);
    } else if First(rows[1..], q, k).Some? {
      var i, j := First(rows[1..], q, k).value, First(kept, q, k).value;
      assert First(rows, q, k) == Some(i + 1) && rows[i + 1] == rows[1..][i];
      assert First([rows[0]] + kept, q, k) == Some(j + 1);
    }
  }

  /** A lookup in a row followed by more rows: the row itself, or one past the lookup in the rest. */
  lemma FirstOfCons(r: Row, rest: seq<Row>, p: string, k: Kind)
    ensures First([r] + rest, p, k) ==
      if IsRow(r, p, k) then Some(0) else match First(rest, p, k) case None => None case Some(i) => Some(i + 1)
    ensures First(rest, p, k).Some? ==> ([r] + rest)[First(rest, p, k).value + 1] == rest[First(rest, p, k).value]
  {
    var rs := [r] + rest;
    assert rs[0] == r && rs[1..] == rest;
    if First(rest, p, k).Some? {
      var i := First(rest, p, k).value;
      assert rs[i + 1] == rest[i];
    }
  }

  /** Appending rows of other products leaves every lookup for p where it was. */
  lemma FirstOfAppendOther(a: seq<Row>, b: seq<Row>, p: string, k: Kind)
    requires forall j :: 0 <= j < |b| ==> b[j].product != p
    ensures First(a + b, p, k) == First(a, p, k)
  {
    if First(a, p, k).Some? {
      FirstOfAppend(a, b, p, k);
    } else {
      FirstOfAppendMissing(a, b, p, k);
    }
  }

  /** The rows of product q alone, in their original order: `df[df["Product"] == q]`. */
  function Only(rows: seq<Row>, q: string): (r: seq<Row>)
    ensures forall x :: x in r <==> x in rows && x.product == q
    ensures |r| <= |rows|
  {
    if |rows| == 0 then []
    else (if rows[0].product == q then [rows[0]] else []) + Only(rows[1..], q)
  }

  /** Keeping only q's rows leaves every lookup for q finding the same row. */
  lemma {:induction false} OnlyTracks(rows: seq<Row>, q: string, k: Kind)
    ensures Tracks(rows, Only(rows, q), q, k)
  {
    if |rows| > 0 {
      var tail := Only(rows[1..], q);
      OnlyTracks(rows[1..], q, k);
      if rows[0].product == q {
        assert Only(rows, q) == [rows[0]] + tail;
        TracksKeep(rows, tail, q, k);
      } else {
        assert Only(rows, q) == tail;
        TracksSkip(rows, tail, q, k);
      }
    }
  }

  /** Keeping one product's rows keeps the table rectangular. */
  lemma OnlyValid(t: Table, q: string)
    requires t.Valid()
    ensures Table(t.width, Only(t.rows, q)).Valid()
  {
    var r := Only(t.rows, q);
    forall i | 0 <= i < |r|
      ensures |r[i].weeks| == t.width
    {
      assert r[i] in t.rows;
    }
  }

  /** Dropping rows keeps the table rectangular. */
  lemma WithoutValid(t: Table, p: string)
    requires t.Valid()
    ensures Table(t.width, Without(t.rows, p)).Valid()
  {
    var r := Without(t.rows, p);
    forall i | 0 <= i < |r|
      ensures |r[i].weeks| == t.width
    {
      assert r[i] in t.rows;
    }
  }
}
