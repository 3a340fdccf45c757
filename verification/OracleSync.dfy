/** One oracle: per index, an append-only history of print timestamps. */
module OracleHistory {

  /** Timestamps of one index in posting order. */
  type Hist = seq<int>

  function Latest(h: Hist): int {
    if h == [] then 0 else h[|h| - 1]
  }

  ghost predicate Monotone(h: Hist) {
    (forall i :: 0 <= i < |h| ==> 0 < h[i]) && forall i, j :: 0 <= i < j < |h| ==> h[i] < h[j]
  }

  /** The contract's rule: nothing at or below the last timestamp. */
  predicate Accepts(h: Hist, ts: int) {
    h == [] || h[|h| - 1] < ts
  }

  /** The history after a post reached the contract. */
  function Posted(h: Hist, ts: int): Hist {
    if Accepts(h, ts) then h + [ts] else h
  }

  class Oracle {
    var hist: seq<Hist>

    constructor (hist: seq<Hist>)
      ensures this.hist == hist
    {
      this.hist := hist;
    }

    /** `delivered` is false when the post never reached the contract. */
    method Post(i: nat, ts: int, delivered: bool) returns (ok: bool)
      requires i < |hist|
      modifies this
      ensures ok <==> delivered && Accepts(old(hist)[i], ts)
      ensures hist == if delivered then old(hist)[i := Posted(old(hist)[i], ts)] else old(hist)
    {
      ok := delivered && Accepts(hist[i], ts);
      if ok {
        hist := hist[i := hist[i] + [ts]];
      } else {
        assert hist[i := hist[i]] == hist;
      }
    }
  }
}

/** Planning a backfill: which of v1's prints v2 is to receive, and in what order. */
module BackfillPlan {
  import opened OracleHistory
  import Sorting

  /** A planned print; `index` is the rank of the index id in string order. */
  datatype Print = Print(index: nat, ts: int)

  predicate Before(p: Print, q: Print) {
    p.index < q.index || (p.index == q.index && p.ts <= q.ts)
  }

  lemma BeforeIsTotal()
    ensures Sorting.TotalOrder(Before)
  {}

  /** A print is wanted when it is inside the window and v2 is not past it. */
  predicate Wanted(h: Hist, floor: int, window: int, ts: int) {
    ts in h && Latest(h) - window <= ts && floor < ts
  }

  /** What a plan taken from `v1` against `floors` must be: exactly the wanted
      prints of the indices read, each index's run strictly ascending. */
  ghost predicate IsPlan(plan: seq<Print>, v1: seq<Hist>, floors: seq<int>, window: int, read: set<nat>)
    requires |v1| == |floors|
  {
    && (forall p :: p in plan ==>
          p.index < |v1| && p.index in read && Wanted(v1[p.index], floors[p.index], window, p.ts))
    && (forall i, ts :: i < |v1| && i in read && Wanted(v1[i], floors[i], window, ts) ==> Print(i, ts) in plan)
    && Ascending(plan)
  }

  predicate Ascending(plan: seq<Print>) {
    forall a, b :: 0 <= a < b < |plan| && plan[a].index == plan[b].index ==> plan[a].ts < plan[b].ts
  }

  /** One index, walked backwards from its newest print and stopped at the first
      one outside the window; stopping early misses nothing. */
  method PlanIndex(i: nat, h: Hist, floor: int, window: int) returns (rows: seq<Print>)
    requires Monotone(h)
    ensures forall p :: p in rows <==> p.index == i && Wanted(h, floor, window, p.ts)
    ensures forall a, b :: 0 <= a < b < |rows| ==> rows[a].ts < rows[b].ts
  {
    rows := [];
    var cutoff := Latest(h) - window;
    var k := |h|;
    while k > 0
      invariant 0 <= k <= |h|
      invariant forall p :: p in rows ==> p.index == i && Wanted(h, floor, window, p.ts)
      invariant forall j :: k <= j < |h| && floor < h[j] && cutoff <= h[j] ==> Print(i, h[j]) in rows
      invariant forall p :: p in rows && k > 0 ==> h[k - 1] < p.ts
      invariant forall a, b :: 0 <= a < b < |rows| ==> rows[a].ts < rows[b].ts
    {
      var ts := h[k - 1];
      if ts < cutoff {
        break;
      }
      if ts > floor {
        rows := [Print(i, ts)] + rows;
      }
      k := k - 1;
    }
    forall p: Print | p.index == i && Wanted(h, floor, window, p.ts) ensures p in rows {
      var j :| 0 <= j < |h| && h[j] == p.ts;
    }
  }

  predicate Distinct(plan: seq<Print>) {
    forall a, b :: 0 <= a < b < |plan| ==> plan[a] != plan[b]
  }

  lemma DistinctHead(plan: seq<Print>)
    requires plan != []
    ensures Distinct(plan) <==> plan[0] !in plan[1..] && Distinct(plan[1..])
  {
    var rest := plan[1..];
    assert forall b :: 0 <= b < |rest| ==> rest[b] == plan[b + 1];
    assert forall b :: 0 < b < |plan| ==> plan[b] == rest[b - 1];
  }

  lemma {:induction false} DistinctCounts(plan: seq<Print>)
    ensures Distinct(plan) <==> forall p :: multiset(plan)[p] <= 1
  {
    if plan != [] {
      var rest := plan[1..];
      assert plan == [plan[0]] + rest;
      DistinctHead(plan);
      DistinctCounts(rest);
      assert plan[0] in rest <==> plan[0] in multiset(rest);
      if !Distinct(rest) {
        var p :| multiset(rest)[p] > 1;
        assert multiset(plan)[p] > 1;
      } else if plan[0] in rest {
        assert multiset(plan)[plan[0]] > 1;
      }
    }
  }

  /** Sorting keeps exactly the planned prints and puts every index's run in
      strictly ascending order. */
  lemma SortedPlanAscends(plan: seq<Print>)
    requires Distinct(plan)
    ensures Ascending(Sorting.Sort(Before, plan))
    ensures forall p :: p in Sorting.Sort(Before, plan) <==> p in plan
  {
    var sorted := Sorting.Sort(Before, plan);
    BeforeIsTotal();
    Sorting.SortSorts(Before, plan);
    Sorting.SortPermutes(Before, plan);
    Sorting.SameMembers(sorted, plan);
    DistinctCounts(plan);
    DistinctCounts(sorted);
  }

  /** The whole plan, over the indices in registry order, then sorted. `read`
      names the indices whose history could be read. */
  method BuildPlan(ids: seq<nat>, v1: seq<Hist>, floors: seq<int>, window: int, read: set<nat>)
    returns (plan: seq<Print>)
    requires |v1| == |floors| && forall h :: h in v1 ==> Monotone(h)
    requires (forall i: nat :: i in ids <==> i < |v1|) && forall a, b :: 0 <= a < b < |ids| ==> ids[a] != ids[b]
    ensures IsPlan(plan, v1, floors, window, read)
  {
    plan := [];
    for k := 0 to |ids|
      invariant forall p :: p in plan ==>
                  && p.index in ids[..k] && p.index < |v1| && p.index in read
                  && Wanted(v1[p.index], floors[p.index], window, p.ts)
      invariant forall i, ts :: i in ids[..k] && i < |v1| && i in read && Wanted(v1[i], floors[i], window, ts)
                  ==> Print(i, ts) in plan
      invariant Distinct(plan)
    {
      var i := ids[k];
      assert i in ids && v1[i] in v1;
      assert ids[..k + 1] == ids[..k] + [i];
      if i in read {
        var rows := PlanIndex(i, v1[i], floors[i], window);
        plan := plan + rows;
      }
    }
    assert ids[..|ids|] == ids;
    SortedPlanAscends(plan);
    plan := Sorting.Sort(Before, plan);
  }

  /** The guard before posting can never fire: no planned print is newer than
      v1's newest for its own index. */
  lemma NothingBeyondV1(plan: seq<Print>, v1: seq<Hist>, floors: seq<int>, window: int, read: set<nat>, p: Print)
    requires |v1| == |floors| && (forall h :: h in v1 ==> Monotone(h))
    requires IsPlan(plan, v1, floors, window, read) && p in plan
    ensures p.ts <= Latest(v1[p.index]) && 0 < p.ts
  {
    var h := v1[p.index];
    assert h in v1;
    var j :| 0 <= j < |h| && h[j] == p.ts;
  }
}
