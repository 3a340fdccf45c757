/** Right-angle routing: elbows inserted, near-duplicates dropped. */
module Router {
  import opened Rounding

  datatype Spot = Spot(x: real, y: real)

  const TOLERANCE := 0.5

  /** Within the tolerance in both coordinates. */
  predicate Near(p: Spot, q: Spot) {
    Abs(p.x - q.x) <= TOLERANCE && Abs(p.y - q.y) <= TOLERANCE
  }

  /** Off the axes by at most `slack`. */
  predicate Straight(p: Spot, q: Spot, slack: real) {
    Abs(p.x - q.x) <= slack || Abs(p.y - q.y) <= slack
  }

  predicate AllStraight(route: seq<Spot>, slack: real) {
    forall k :: 0 <= k < |route| - 1 ==> Straight(route[k], route[k + 1], slack)
  }

  /** The points added for one more waypoint: a horizontal-first elbow when the
      leg is diagonal, then the waypoint. */
  function Leg(last: Spot, next: Spot): seq<Spot> {
    if Straight(next, last, TOLERANCE) then [next] else [Spot(next.x, last.y), next]
  }

  function Elbowed(pts: seq<Spot>): (out: seq<Spot>)
    requires pts != []
    ensures out != [] && out[0] == pts[0] && out[|out| - 1] == pts[|pts| - 1]
  {
    if |pts| == 1 then pts
    else
      var out := Elbowed(pts[..|pts| - 1]);
      out + Leg(out[|out| - 1], pts[|pts| - 1])
  }

  /** Keeps a point only when it is away from the last one kept. */
  function Deduped(out: seq<Spot>): (dd: seq<Spot>)
    requires out != []
    ensures dd != [] && dd[0] == out[0]
  {
    if |out| == 1 then out
    else
      var dd := Deduped(out[..|out| - 1]);
      var p := out[|out| - 1];
      if Near(p, dd[|dd| - 1]) then dd else dd + [p]
  }

  function Last(s: seq<Spot>): Spot
    requires s != []
  {
    s[|s| - 1]
  }

  method InsertElbows(pts: seq<Spot>) returns (out: seq<Spot>)
    requires pts != []
    ensures out == Elbowed(pts)
  {
    out := [pts[0]];
    for k := 1 to |pts|
      invariant out == Elbowed(pts[..k])
    {
      var p, q := pts[k], Last(out);
      assert pts[..k + 1][..k] == pts[..k];
      ghost var before := out;
      if Abs(p.x - q.x) > TOLERANCE && Abs(p.y - q.y) > TOLERANCE {
        out := out + [Spot(p.x, q.y)];
      }
      out := out + [p];
      assert out == before + Leg(q, p);
    }
    assert pts[..|pts|] == pts;
  }

  method DropNearDuplicates(out: seq<Spot>) returns (dd: seq<Spot>)
    requires out != []
    ensures dd == Deduped(out)
  {
    dd := [out[0]];
    for k := 1 to |out|
      invariant dd != [] && dd == Deduped(out[..k])
    {
      var p := out[k];
      assert out[..k + 1][..k] == out[..k];
      if Abs(p.x - Last(dd).x) > TOLERANCE || Abs(p.y - Last(dd).y) > TOLERANCE {
        dd := dd + [p];
      }
    }
    assert out[..|out|] == out;
  }

  /** The router's two loops, one after the other. */
  method Orthogonalize(pts: seq<Spot>) returns (dd: seq<Spot>)
    requires pts != []
    ensures dd == Deduped(Elbowed(pts))
  {
    var out := InsertElbows(pts);
    dd := DropNearDuplicates(out);
  }

  /** A diagonal leg turns by going across first; a straight one gets no elbow. */
  lemma ElbowGoesAcrossFirst(pts: seq<Spot>, p: Spot)
    requires pts != []
    ensures var q := Last(pts);
            Elbowed(pts + [p]) ==
            Elbowed(pts) + if Abs(p.x - q.x) > 0.5 && Abs(p.y - q.y) > 0.5 then [Spot(p.x, q.y), p] else [p]
    ensures Elbowed([p]) == [p]
  {
    assert (pts + [p])[..|pts|] == pts;
  }

  lemma {:induction false} ElbowedIsStraight(pts: seq<Spot>)
    requires pts != []
    ensures AllStraight(Elbowed(pts), TOLERANCE)
  {
    if |pts| > 1 {
      ElbowedIsStraight(pts[..|pts| - 1]);
    }
  }

  /** Deduplication: neighbours are apart, the end drifts by half a unit at most,
      and dropping points at most doubles how far a leg is off its axis. */
  lemma {:induction false} DedupedFacts(out: seq<Spot>)
    requires out != [] && AllStraight(out, TOLERANCE)
    ensures var dd := Deduped(out);
            && Near(Last(dd), Last(out))
            && (forall k :: 0 <= k < |dd| - 1 ==> !Near(dd[k], dd[k + 1]))
            && AllStraight(dd, 2.0 * TOLERANCE)
  {
    if |out| > 1 {
      var n := |out| - 1;
      var before := out[..n];
      assert forall k :: 0 <= k < n - 1 ==> Straight(out[k], out[k + 1], TOLERANCE);
      DedupedFacts(before);
      var dd := Deduped(before);
      LeanAdds(Last(dd), out[n - 1], out[n]);
      assert Near(out[n], Last(dd)) <==> Near(Last(dd), out[n]);
    }
  }

  /** A leg from near a straight leg's start leans by the drift more. */
  lemma LeanAdds(kept: Spot, p: Spot, q: Spot)
    requires Near(kept, p) && Straight(p, q, TOLERANCE)
    ensures Straight(kept, q, 2.0 * TOLERANCE)
  {}

  /** The router's promises for any waypoints: the start is exact, the end within
      half a unit, neighbours are never within half a unit of one another, and no
      leg is off its axis by more than one unit. */
  lemma RouteFacts(pts: seq<Spot>)
    requires pts != []
    ensures var dd := Deduped(Elbowed(pts));
            && dd[0] == pts[0] && Near(Last(dd), Last(pts))
            && (forall k :: 0 <= k < |dd| - 1 ==> !Near(dd[k], dd[k + 1]))
            && AllStraight(dd, 1.0)
  {
    ElbowedIsStraight(pts);
    DedupedFacts(Elbowed(pts));
  }

  /** Every waypoint is passed within half a unit, in order: waypoint `k` at
      route position `at[k]`. */
  ghost predicate Passes(pts: seq<Spot>, route: seq<Spot>, at: seq<nat>) {
    && |at| == |pts|
    && (forall k :: 0 <= k < |pts| ==> at[k] < |route| && Near(route[at[k]], pts[k]))
    && (forall j, k :: 0 <= j <= k < |at| ==> at[j] <= at[k])
  }

  lemma PassesOneMore(pts: seq<Spot>, route: seq<Spot>, at: seq<nat>, p: Spot, longer: seq<Spot>)
    requires Passes(pts, route, at) && (longer == route || longer == route + [p])
    requires longer != [] && Near(Last(longer), p)
    ensures Passes(pts + [p], longer, at + [|longer| - 1])
  {}

  lemma {:induction false} DedupedOneMore(out: seq<Spot>)
    requires |out| > 1
    ensures var n := |out| - 1;
            var shorter, longer := Deduped(out[..n]), Deduped(out);
            && out == out[..n] + [out[n]]
            && (longer == shorter || longer == shorter + [out[n]]) && Near(Last(longer), out[n])
  {}

  lemma {:induction false} DedupedPasses(out: seq<Spot>) returns (at: seq<nat>)
    requires out != []
    ensures Passes(out, Deduped(out), at)
  {
    if |out| == 1 {
      at := [0];
    } else {
      var n := |out| - 1;
      DedupedOneMore(out);
      var before := DedupedPasses(out[..n]);
      PassesOneMore(out[..n], Deduped(out[..n]), before, out[n], Deduped(out));
      at := before + [|Deduped(out)| - 1];
    }
  }

  /** `pts` occur in `out` in order, at positions `at`. */
  ghost predicate Embeds(pts: seq<Spot>, out: seq<Spot>, at: seq<nat>) {
    && |at| == |pts|
    && (forall k :: 0 <= k < |pts| ==> at[k] < |out| && out[at[k]] == pts[k])
    && (forall j, k :: 0 <= j <= k < |at| ==> at[j] <= at[k])
  }

  lemma EmbedsOneMore(pts: seq<Spot>, out: seq<Spot>, at: seq<nat>, tail: seq<Spot>)
    requires Embeds(pts, out, at) && tail != []
    ensures Embeds(pts + [Last(tail)], out + tail, at + [|out + tail| - 1])
  {}

  lemma {:induction false} ElbowedEmbeds(pts: seq<Spot>) returns (at: seq<nat>)
    requires pts != []
    ensures Embeds(pts, Elbowed(pts), at)
  {
    if |pts| == 1 {
      at := [0];
    } else {
      var n := |pts| - 1;
      var prior := Elbowed(pts[..n]);
      var tail := Leg(Last(prior), pts[n]);
      at := ElbowedEmbeds(pts[..n]);
      EmbedsOneMore(pts[..n], prior, at, tail);
      assert pts == pts[..n] + [pts[n]];
      at := at + [|prior + tail| - 1];
    }
  }

  /** No waypoint is lost: the route passes each of them, in order. */
  lemma RoutePassesWaypoints(pts: seq<Spot>) returns (at: seq<nat>)
    requires pts != []
    ensures Passes(pts, Deduped(Elbowed(pts)), at)
  {
    var first := ElbowedEmbeds(pts);
    var second := DedupedPasses(Elbowed(pts));
    at := seq(|pts|, k requires 0 <= k < |pts| => second[first[k]]);
  }

  // --- when every leg is exactly axis-aligned ---

  /** One coordinate apart by more than the tolerance, or not at all. */
  predicate Clear(a: real, b: real) {
    a == b || Abs(a - b) > TOLERANCE
  }

  /** A step that needs no elbow is exactly aligned. */
  predicate AlignedOrApart(p: Spot, q: Spot) {
    p.x == q.x || p.y == q.y || !Straight(p, q, TOLERANCE)
  }

  predicate AllAlignedOrApart(pts: seq<Spot>) {
    forall k :: 0 <= k < |pts| - 1 ==> AlignedOrApart(pts[k], pts[k + 1])
  }

  lemma OneMoreLeg(s: seq<Spot>, p: Spot, slack: real)
    requires s != []
    ensures AllStraight(s + [p], slack) <==> AllStraight(s, slack) && Straight(Last(s), p, slack)
  {
    var all := s + [p];
    if AllStraight(all, slack) {
      forall k | 0 <= k < |s| - 1 ensures Straight(s[k], s[k + 1], slack) {
        assert Straight(all[k], all[k + 1], slack);
      }
      assert Straight(all[|s| - 1], all[|s|], slack);
    }
  }

  lemma OneMoreWaypoint(pts: seq<Spot>, p: Spot)
    requires pts != []
    ensures AllAlignedOrApart(pts + [p]) <==> AllAlignedOrApart(pts) && AlignedOrApart(Last(pts), p)
  {
    var all := pts + [p];
    if AllAlignedOrApart(all) {
      forall k | 0 <= k < |pts| - 1 ensures AlignedOrApart(pts[k], pts[k + 1]) {
        assert AlignedOrApart(all[k], all[k + 1]);
      }
      assert AlignedOrApart(all[|pts| - 1], all[|pts|]);
    }
  }

  lemma OneMoreElbow(out: seq<Spot>, p: Spot)
    requires out != []
    ensures AllStraight(out + Leg(Last(out), p), 0.0) <==> AllStraight(out, 0.0) && AlignedOrApart(Last(out), p)
  {
    if Straight(p, Last(out), TOLERANCE) {
      OneMoreLeg(out, p, 0.0);
    } else {
      var elbow := Spot(p.x, Last(out).y);
      OneMoreLeg(out, elbow, 0.0);
      OneMoreLeg(out + [elbow], p, 0.0);
      assert out + [elbow, p] == out + [elbow] + [p];
    }
  }

  /** The elbow loop keeps its promise of axis-aligned legs exactly when every two
      consecutive waypoints are aligned, or off by more than the tolerance both ways. */
  lemma {:induction false} ElbowedIsExactIff(pts: seq<Spot>)
    requires pts != []
    ensures AllStraight(Elbowed(pts), 0.0) <==> AllAlignedOrApart(pts)
  {
    if |pts| > 1 {
      var n := |pts| - 1;
      var out, p := Elbowed(pts[..n]), pts[n];
      ElbowedIsExactIff(pts[..n]);
      OneMoreWaypoint(pts[..n], p);
      assert pts == pts[..n] + [p];
      OneMoreElbow(out, p);
    }
  }

  /** No two coordinates of the points are within the tolerance unless equal. */
  ghost predicate Spread(s: seq<Spot>) {
    forall p, q :: p in s && q in s ==> Clear(p.x, q.x) && Clear(p.y, q.y)
  }

  /** Elbows only combine coordinates of the waypoints. */
  lemma {:induction false} ElbowedCombines(pts: seq<Spot>)
    requires pts != []
    ensures forall e :: e in Elbowed(pts) ==>
              (exists p :: p in pts && p.x == e.x) && (exists q :: q in pts && q.y == e.y)
  {
    if |pts| > 1 {
      var n := |pts| - 1;
      assert pts == pts[..n] + [pts[n]];
      ElbowedCombines(pts[..n]);
    }
  }

  lemma ElbowedStaysSpread(pts: seq<Spot>)
    requires pts != [] && Spread(pts)
    ensures Spread(Elbowed(pts))
  {
    ElbowedCombines(pts);
  }

  lemma ClearMeansExact(p: Spot, q: Spot)
    requires Clear(p.x, q.x) && Clear(p.y, q.y)
    ensures Near(p, q) <==> p == q
    ensures Straight(p, q, TOLERANCE) ==> Straight(p, q, 0.0)
  {}

  lemma {:induction false} DedupedIsExact(out: seq<Spot>)
    requires out != [] && Spread(out) && AllStraight(out, TOLERANCE)
    ensures var dd := Deduped(out);
            AllStraight(dd, 0.0) && Last(dd) == Last(out) && forall p :: p in out ==> p in dd
  {
    if |out| > 1 {
      var n := |out| - 1;
      var before, p := out[..n], out[n];
      assert out == before + [p];
      OneMoreLeg(before, p, TOLERANCE);
      SpreadPrefix(before, p);
      DedupedIsExact(before);
      ClearMeansExact(Last(before), p);
      ClearMeansExact(p, Last(before));
      OneMoreLeg(Deduped(before), p, 0.0);
    }
  }

  lemma SpreadPrefix(s: seq<Spot>, p: Spot)
    requires s != [] && Spread(s + [p])
    ensures Spread(s) && Clear(Last(s).x, p.x) && Clear(Last(s).y, p.y)
    ensures Clear(p.x, Last(s).x) && Clear(p.y, Last(s).y)
  {
    forall q | q in s ensures q in s + [p] {
    }
    assert p in s + [p] && Last(s) in s;
  }

  /** When no two coordinates of the waypoints are within the tolerance unless
      equal, every leg is exactly axis-aligned, every waypoint is a point of the
      route and the end is exact. */
  lemma SpreadRouteIsExact(pts: seq<Spot>)
    requires pts != [] && Spread(pts)
    ensures var dd := Deduped(Elbowed(pts));
            AllStraight(dd, 0.0) && Last(dd) == Last(pts) && forall p :: p in pts ==> p in dd
  {
    ElbowedIsStraight(pts);
    ElbowedStaysSpread(pts);
    DedupedIsExact(Elbowed(pts));
    var at := ElbowedEmbeds(pts);
    forall p | p in pts ensures p in Elbowed(pts) {
      var k :| 0 <= k < |pts| && pts[k] == p;
      assert Elbowed(pts)[at[k]] == p;
    }
  }

  predicate OnGrid(p: Spot) {
    p.x == p.x.Floor as real && p.y == p.y.Floor as real
  }

  /** So it is on an integer grid. */
  lemma GridRouteIsExact(pts: seq<Spot>)
    requires pts != [] && forall k :: 0 <= k < |pts| ==> OnGrid(pts[k])
    ensures var dd := Deduped(Elbowed(pts));
            AllStraight(dd, 0.0) && Last(dd) == Last(pts) && forall p :: p in pts ==> p in dd
  {
    forall p, q | p in pts && q in pts ensures Clear(p.x, q.x) && Clear(p.y, q.y) {
      assert Abs(p.x - q.x) <= TOLERANCE ==> p.x.Floor == q.x.Floor;
      assert Abs(p.y - q.y) <= TOLERANCE ==> p.y.Floor == q.y.Floor;
    }
    SpreadRouteIsExact(pts);
  }

  // --- where the code falls short of "every segment is axis-aligned" ---

  /** The end is missed exactly when the last point is near, but not at, the last
      point kept before it. */
  lemma EndIsMissedIff(pts: seq<Spot>)
    requires |pts| > 1
    ensures var out := Elbowed(pts);
            var kept := Last(Deduped(out[..|out| - 1]));
            Last(Deduped(out)) != Last(pts) <==> Near(Last(pts), kept) && kept != Last(pts)
  {}

  lemma EndCanBeMissed()
    ensures var pts := [Spot(0.0, 0.0), Spot(10.0, 0.0), Spot(10.4, 0.4)];
            Deduped(Elbowed(pts)) == [Spot(0.0, 0.0), Spot(10.0, 0.0)]
  {
    var a, b, c := Spot(0.0, 0.0), Spot(10.0, 0.0), Spot(10.4, 0.4);
    assert [a, b, c][..2] == [a, b] && [a, b][..1] == [a];
    assert Elbowed([a, b]) == [a, b];
    assert Deduped([a, b]) == [a, b];
    assert Elbowed([a, b, c]) == [a, b, c];
  }

  /** A leg off its axis by a full unit: the bound of one unit is attained. */
  lemma LegCanLeanOneUnit()
    ensures var pts := [Spot(0.0, 0.0), Spot(0.5, 0.5), Spot(10.0, 1.0)];
            Deduped(Elbowed(pts)) == [Spot(0.0, 0.0), Spot(10.0, 1.0)]
  {
    var a, b, c := Spot(0.0, 0.0), Spot(0.5, 0.5), Spot(10.0, 1.0);
    assert [a, b, c][..2] == [a, b] && [a, b][..1] == [a];
    assert Elbowed([a, b]) == [a, b];
    assert Deduped([a, b]) == [a];
    assert Elbowed([a, b, c]) == [a, b, c];
  }
}
