/**
 The inventory recurrence on one product's week columns: week 0 starts from
 nothing, and every later week carries the previous week's balance forward and
 adds that week's supply minus its demand.
 */
module Recurrence {

  /** Net flow of the first n weeks: the sum of supply[j] - demand[j] for j < n. */
  function NetFlow(supply: seq<int>, demand: seq<int>, n: nat): int
    requires |supply| == |demand| && n <= |supply|
  {
    if n == 0 then 0 else NetFlow(supply, demand, n - 1) + supply[n - 1] - demand[n - 1]
  }

  /** The recurrence for one product: `inv` is the inventory row that supply and demand determine. */
  predicate Follows(inv: seq<int>, supply: seq<int>, demand: seq<int>)
  {
    && |inv| == |supply| == |demand|
    && (|inv| > 0 ==> inv[0] == supply[0] - demand[0])
    && (forall k :: 0 < k < |inv| ==> inv[k] == inv[k - 1] + supply[k] - demand[k])
  }

  /** The inventory row computed week by week from week 0, the order calculate_inventory uses. */
  function Balance(supply: seq<int>, demand: seq<int>): (inv: seq<int>)
    requires |supply| == |demand|
    ensures Follows(inv, supply, demand)
  {
    if |supply| == 0 then []
    else
      var n := |supply| - 1;
      var before := Balance(supply[..n], demand[..n]);
      var carried := if n == 0 then 0 else before[n - 1];
      before + [carried + supply[n] - demand[n]]
  }

  /** A week-by-week row of zeros, the contents of a freshly added product. */
  function Zeros(width: nat): (z: seq<int>)
    ensures |z| == width
    ensures forall k :: 0 <= k < width ==> z[k] == 0
  {
    seq(width, _ => 0)
  }

  /** Two rows that both follow the recurrence agree up to week k. */
  lemma {:induction false} FollowsAgree(a: seq<int>, b: seq<int>, supply: seq<int>, demand: seq<int>, k: nat)
    requires Follows(a, supply, demand) && Follows(b, supply, demand)
    requires k < |a|
    ensures a[k] == b[k]
  {
    if k > 0 {
      FollowsAgree(a, b, supply, demand, k - 1);
    }
  }

  /** The recurrence has exactly one solution, and Balance is it. */
  lemma FollowsIffBalance(inv: seq<int>, supply: seq<int>, demand: seq<int>)
    requires |supply| == |demand|
    ensures Follows(inv, supply, demand) <==> inv == Balance(supply, demand)
  {
    if Follows(inv, supply, demand) {
      var b := Balance(supply, demand);
      forall k | 0 <= k < |inv|
        ensures inv[k] == b[k]
      {
        FollowsAgree(inv, b, supply, demand, k);
      }
    }
  }

  /** Closed form: week k of the balance is the net flow of weeks 0 through k. */
  lemma {:induction false} BalanceIsNetFlow(supply: seq<int>, demand: seq<int>, k: nat)
    requires |supply| == |demand| && k < |supply|
    ensures Balance(supply, demand)[k] == NetFlow(supply, demand, k + 1)
  {
    if k > 0 {
      BalanceIsNetFlow(supply, demand, k - 1);
    }
  }

  /** All-zero supply and demand give an all-zero inventory row. */
  lemma {:induction false} BalanceOfZeros(width: nat)
    ensures Balance(Zeros(width), Zeros(width)) == Zeros(width)
  {
    FollowsIffBalance(Zeros(width), Zeros(width), Zeros(width));
  }
}
