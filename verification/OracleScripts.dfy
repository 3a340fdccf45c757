/** The two scripts run on their own: a whole backfill, and a whole live cycle. */
module OracleScripts {
  import opened OracleHistory
  import opened BackfillPlan
  import opened OracleProtocol

  /** What became of one post: landed, landed but reported as a failure (a timeout),
      lost with an exception, or skipped without one, for want of gas, say. */
  datatype Outcome = Landed | LandedButRaised | Lost | Skipped

  predicate Arrives(o: Outcome) {
    o.Landed? || o.LandedButRaised?
  }

  ghost predicate Ready(v1: seq<Hist>, v2: seq<Hist>, ids: seq<nat>) {
    && |v1| == |v2| && (forall h :: h in v1 ==> Monotone(h)) && (forall h :: h in v2 ==> Monotone(h))
    && (forall i: nat :: i in ids <==> i < |v1|) && (forall a, b :: 0 <= a < b < |ids| ==> ids[a] != ids[b])
  }

  function HighOf(x: int, y: int): int {
    if x < y then y else x
  }

  // --- what a plan adds ---

  /** What posting `plan` adds to index `i` when it holds `h`, by what
      becomes of each post. */
  function News(h: Hist, plan: seq<Print>, i: nat, outcome: Print -> Outcome): Hist {
    if plan == [] then []
    else
      var rest := News(h, plan[..|plan| - 1], i, outcome);
      var p := plan[|plan| - 1];
      if p.index == i && Arrives(outcome(p)) && Latest(h) < p.ts then rest + [p.ts] else rest
  }

  function Copied(v2: seq<Hist>, plan: seq<Print>, outcome: Print -> Outcome): (after: seq<Hist>)
    ensures |after| == |v2|
  {
    seq(|v2|, i requires 0 <= i < |v2| => v2[i] + News(v2[i], plan, i, outcome))
  }

  /** The print is newer than anything its index holds. */
  predicate Ahead(p: Print, v2: seq<Hist>) {
    p.index < |v2| && Latest(v2[p.index]) < p.ts
  }

  /** Arrived ahead of v2: added. */
  predicate Adds(p: Print, o: Outcome, v2: seq<Hist>) {
    Arrives(o) && Ahead(p, v2)
  }

  /** Arrived at or behind v2: refused, with an exception. */
  predicate IsTurnedDown(p: Print, o: Outcome, v2: seq<Hist>) {
    Arrives(o) && !Ahead(p, v2)
  }

  /** The call returned, which is what the script counts as posted: added and
      heard of, or skipped. */
  predicate Returns(p: Print, o: Outcome, v2: seq<Hist>) {
    o.Skipped? || (o.Landed? && Ahead(p, v2))
  }

  function Count(plan: seq<Print>, outcome: Print -> Outcome, v2: seq<Hist>,
                 kind: (Print, Outcome, seq<Hist>) -> bool): nat
  {
    if plan == [] then 0
    else
      var p := plan[|plan| - 1];
      Count(plan[..|plan| - 1], outcome, v2, kind) + if kind(p, outcome(p), v2) then 1 else 0
  }

  lemma {:induction false} CountsIff(plan: seq<Print>, outcome: Print -> Outcome, v2: seq<Hist>,
                                     kind: (Print, Outcome, seq<Hist>) -> bool)
    ensures 0 < Count(plan, outcome, v2, kind) <==> exists p :: p in plan && kind(p, outcome(p), v2)
  {
    if plan != [] {
      var n := |plan| - 1;
      assert plan == plan[..n] + [plan[n]];
      CountsIff(plan[..n], outcome, v2, kind);
      assert plan[n] in plan;
    }
  }

  ghost predicate Rising(s: seq<int>) {
    forall a, b :: 0 <= a < b < |s| ==> s[a] < s[b]
  }

  lemma RisingOneMore(s: seq<int>, x: int)
    requires Rising(s) && forall y :: y in s ==> y < x
    ensures Rising(s + [x])
  {
    assert forall a :: 0 <= a < |s| ==> s[a] in s;
  }

  lemma {:induction false} NewsMembers(h: Hist, plan: seq<Print>, i: nat, outcome: Print -> Outcome)
    requires Ascending(plan)
    ensures forall ts :: ts in News(h, plan, i, outcome) <==>
              Print(i, ts) in plan && Arrives(outcome(Print(i, ts))) && Latest(h) < ts
    ensures Rising(News(h, plan, i, outcome))
  {
    if plan != [] {
      var before, p := plan[..|plan| - 1], plan[|plan| - 1];
      assert plan == before + [p];
      NewsMembers(h, before, i, outcome);
      assert forall q :: q in before && q.index == p.index ==> q.ts < p.ts;
      if p.index == i {
        RisingOneMore(News(h, before, i, outcome), p.ts);
      }
    }
  }

  lemma NothingCopied(v2: seq<Hist>, outcome: Print -> Outcome)
    ensures Copied(v2, [], outcome) == v2
  {
    forall i | 0 <= i < |v2| ensures Copied(v2, [], outcome)[i] == v2[i] {
      assert v2[i] + [] == v2[i];
    }
  }

  /** Posting one more print of a plan: it is accepted exactly when it was ahead
      of v2 to begin with. */
  lemma CopyOneMore(v2: seq<Hist>, plan: seq<Print>, k: nat, outcome: Print -> Outcome, arrives: bool)
    requires Ascending(plan) && k < |plan| && plan[k].index < |v2| && 0 < plan[k].ts
    requires arrives <==> Arrives(outcome(plan[k]))
    ensures Accepts(Copied(v2, plan[..k], outcome)[plan[k].index], plan[k].ts) <==> Ahead(plan[k], v2)
    ensures Deliver(Copied(v2, plan[..k], outcome), plan[k].index, plan[k].ts, arrives)
            == Copied(v2, plan[..k + 1], outcome)
  {
    var p, before := plan[k], plan[..k];
    var h := v2[p.index];
    var news := News(h, before, p.index, outcome);
    assert Ascending(before);
    NewsMembers(h, before, p.index, outcome);
    assert plan[..k + 1][..k] == before;
    if news != [] {
      var newest := news[|news| - 1];
      assert newest in news;
      assert Print(p.index, newest) in before;
      assert Latest(h) < newest < p.ts;
      assert (h + news)[|h + news| - 1] == newest;
    } else {
      assert h + news == h;
    }
    assert Copied(v2, before, outcome)[p.index] == h + news;
    assert h + (news + [p.ts]) == h + news + [p.ts];
  }

  /** Posting a plan in order adds to every index exactly what arrives of it ahead
      of v2; `posted` counts the calls that returned, `added` the prints v2 took. */
  method PostPlan(v2: Oracle, plan: seq<Print>, outcome: Print -> Outcome)
    returns (posted: nat, refused: nat, ghost added: nat)
    requires Ascending(plan) && forall p :: p in plan ==> p.index < |v2.hist| && 0 < p.ts
    modifies v2
    ensures v2.hist == Copied(old(v2.hist), plan, outcome)
    ensures posted == Count(plan, outcome, old(v2.hist), Returns)
    ensures refused == Count(plan, outcome, old(v2.hist), IsTurnedDown)
    ensures added == Count(plan, outcome, old(v2.hist), Adds)
  {
    posted, refused, added := 0, 0, 0;
    ghost var before := v2.hist;
    NothingCopied(before, outcome);
    for k := 0 to |plan|
      invariant |v2.hist| == |before| && v2.hist == Copied(before, plan[..k], outcome)
      invariant posted == Count(plan[..k], outcome, before, Returns)
      invariant refused == Count(plan[..k], outcome, before, IsTurnedDown)
      invariant added == Count(plan[..k], outcome, before, Adds)
    {
      var p := plan[k];
      assert p in plan;
      var arrives := Arrives(outcome(p));
      CopyOneMore(before, plan, k, outcome, arrives);
      assert plan[..k + 1][..k] == plan[..k];
      var ok := v2.Post(p.index, p.ts, arrives);
      if ok {
        added := added + 1;
      }
      if outcome(p).Skipped? || (outcome(p).Landed? && ok) {
        posted := posted + 1;
      }
      if arrives && !ok {
        refused := refused + 1;
      }
    }
    assert plan[..|plan|] == plan;
  }

  // --- in terms of v1 ---

  /** The prints of `h` inside the window and beyond `floor` that arrive, in order. */
  function Missing(h: Hist, floor: int, cutoff: int, i: nat, outcome: Print -> Outcome): Hist {
    if h == [] then []
    else
      var rest := Missing(h[..|h| - 1], floor, cutoff, i, outcome);
      var ts := h[|h| - 1];
      if cutoff <= ts && floor < ts && Arrives(outcome(Print(i, ts))) then rest + [ts] else rest
  }

  lemma {:induction false} MissingMembers(h: Hist, floor: int, cutoff: int, i: nat, outcome: Print -> Outcome)
    requires Monotone(h)
    ensures forall ts :: ts in Missing(h, floor, cutoff, i, outcome) <==>
              ts in h && cutoff <= ts && floor < ts && Arrives(outcome(Print(i, ts)))
    ensures Rising(Missing(h, floor, cutoff, i, outcome))
  {
    if h != [] {
      var before, ts := h[..|h| - 1], h[|h| - 1];
      assert h == before + [ts];
      MissingMembers(before, floor, cutoff, i, outcome);
      assert forall x :: x in before ==> x < ts;
      RisingOneMore(Missing(before, floor, cutoff, i, outcome), ts);
    }
  }

  lemma RisingTail(s: seq<int>)
    requires Rising(s) && s != []
    ensures Rising(s[1..])
    ensures forall x :: x in s ==> s[0] <= x && (x in s[1..] <==> x != s[0])
    ensures forall x :: x in s[1..] ==> x in s
  {}

  lemma {:induction false} RisingIsUnique(s: seq<int>, t: seq<int>)
    requires Rising(s) && Rising(t) && forall x :: x in s <==> x in t
    ensures s == t
  {
    if t != [] {
      assert t[0] in t;
    }
    if s != [] {
      assert s[0] in s;
      RisingTail(s);
      RisingTail(t);
      assert s[0] == t[0];
      RisingIsUnique(s[1..], t[1..]);
      assert t == [t[0]] + t[1..] && s == [s[0]] + s[1..];
    }
  }

  /** What a backfill leaves on index `i`. */
  function Filled(v1: seq<Hist>, v2: seq<Hist>, i: nat, window: int, read: set<nat>, outcome: Print -> Outcome): Hist
    requires i < |v1| == |v2|
  {
    v2[i] + if i in read then Missing(v1[i], Latest(v2[i]), Latest(v1[i]) - window, i, outcome) else []
  }

  /** Copying a plan gives every index read exactly v1's prints inside the window
      and beyond v2's own newest, those lost left out, whether v2 could be read or not. */
  lemma CopiedIsFilled(plan: seq<Print>, v1: seq<Hist>, v2: seq<Hist>, window: int, read: set<nat>, blind: set<nat>,
                       outcome: Print -> Outcome, i: nat)
    requires i < |v1| == |v2| && (forall h :: h in v1 ==> Monotone(h)) && (forall h :: h in v2 ==> Monotone(h))
    requires IsPlan(plan, v1, Floors(v2, blind), window, read)
    ensures Copied(v2, plan, outcome)[i] == Filled(v1, v2, i, window, read, outcome)
  {
    assert v1[i] in v1 && v2[i] in v2;
    NewsMembers(v2[i], plan, i, outcome);
    var news := News(v2[i], plan, i, outcome);
    if i in read {
      var cutoff := Latest(v1[i]) - window;
      MissingMembers(v1[i], Latest(v2[i]), cutoff, i, outcome);
      var missing := Missing(v1[i], Latest(v2[i]), cutoff, i, outcome);
      forall ts ensures ts in news <==> ts in missing {
        if ts in missing {
          assert Wanted(v1[i], Floors(v2, blind)[i], window, ts);
        }
      }
      RisingIsUnique(news, missing);
    } else {
      RisingIsUnique(news, []);
    }
  }

  /** An index so filled is still monotone, never past v1, and level with v1 when
      it was read and v1's newest print is not lost. */
  lemma FilledMeansLevel(v1: seq<Hist>, v2: seq<Hist>, i: nat, window: int, read: set<nat>, outcome: Print -> Outcome)
    requires i < |v1| == |v2| && (forall h :: h in v1 ==> Monotone(h)) && (forall h :: h in v2 ==> Monotone(h))
    ensures var after := Filled(v1, v2, i, window, read, outcome);
            && Monotone(after)
            && Latest(v2[i]) <= Latest(after) <= HighOf(Latest(v2[i]), Latest(v1[i]))
            && (window < 0 ==> after == v2[i])
            && (i in read && 0 <= window && Arrives(outcome(Print(i, Latest(v1[i])))) ==>
                  Latest(after) == HighOf(Latest(v2[i]), Latest(v1[i])))
  {
    assert v1[i] in v1 && v2[i] in v2;
    if i in read {
      MissingMembers(v1[i], Latest(v2[i]), Latest(v1[i]) - window, i, outcome);
      var missing := Missing(v1[i], Latest(v2[i]), Latest(v1[i]) - window, i, outcome);
      MonotoneJoin(v2[i], missing);
      if missing != [] {
        assert missing[|missing| - 1] in missing && missing[0] in missing;
      }
      if window < 0 {
        assert missing == [];
      }
      if 0 <= window && Arrives(outcome(Print(i, Latest(v1[i])))) && Latest(v2[i]) < Latest(v1[i]) {
        assert Latest(v1[i]) in missing;
      }
    }
  }

  lemma MonotoneJoin(h: Hist, news: seq<int>)
    requires Monotone(h) && Rising(news) && forall ts :: ts in news ==> Latest(h) < ts
    ensures Monotone(h + news) && Latest(h + news) == if news == [] then Latest(h) else news[|news| - 1]
  {
    var joined := h + news;
    if h != [] {
      assert forall i :: 0 <= i < |h| ==> h[i] <= Latest(h);
    }
    forall i | 0 <= i < |joined| ensures 0 < joined[i] && (i >= |h| ==> Latest(h) < joined[i]) {
      if i >= |h| {
        assert joined[i] == news[i - |h|] && news[i - |h|] in news;
      }
    }
    forall i, j | 0 <= i < j < |joined| ensures joined[i] < joined[j] {
    }
  }

  /** Planned: wanted of an index that could be read, v2 standing where it seems to. */
  predicate IsPlanned(p: Print, v1: seq<Hist>, v2: seq<Hist>, window: int, read: set<nat>, blind: set<nat>)
    requires |v1| == |v2|
  {
    p.index < |v1| && p.index in read && Wanted(v1[p.index], Floors(v2, blind)[p.index], window, p.ts)
  }

  ghost predicate AnyPlanned(v1: seq<Hist>, v2: seq<Hist>, window: int, read: set<nat>, blind: set<nat>)
    requires |v1| == |v2|
  {
    exists p :: IsPlanned(p, v1, v2, window, read, blind)
  }

  /** Some planned post whose call returned. */
  ghost predicate AnyReturned(v1: seq<Hist>, v2: seq<Hist>, window: int, read: set<nat>, blind: set<nat>,
                              outcome: Print -> Outcome)
    requires |v1| == |v2|
  {
    exists p :: IsPlanned(p, v1, v2, window, read, blind) && Returns(p, outcome(p), v2)
  }

  /** The backfill. Whatever becomes of its posts, every index read gains exactly v1's
      prints in the window beyond v2's own newest that arrive, in order, and no
      other index changes. So v2 is never carried past v1, an index read ends level
      with v1's newest print unless that very post does not arrive, and nothing is
      refused as long as v2's own timestamps could be read. It exits with 0 exactly
      when it was a dry run, there was nothing to plan though something was read, or
      some call returned; `online` says that v1 can be read at all and, unless this
      is a dry run, that there is a signer for v2. */
  method Backfill(v1: Oracle, v2: Oracle, ids: seq<nat>, window: int, read: set<nat>, blind: set<nat>,
                  outcome: Print -> Outcome, dryRun: bool, online: bool)
    returns (code: int, posted: nat, refused: nat)
    requires v1 != v2 && Ready(v1.hist, v2.hist, ids) && forall i :: i in read ==> i < |v1.hist|
    modifies v2
    ensures Ready(v1.hist, v2.hist, ids) && (blind == {} ==> refused == 0)
    ensures dryRun || !online ==> v2.hist == old(v2.hist)
    ensures !dryRun && online ==> WellFilled(v1.hist, old(v2.hist), v2.hist, window, read, outcome)
    ensures code == 0 || code == 1
    ensures code == 0 <==>
              && online
              && if AnyPlanned(v1.hist, old(v2.hist), window, read, blind)
                 then dryRun || AnyReturned(v1.hist, old(v2.hist), window, read, blind, outcome)
                 else read != {}
  {
    posted, refused, code := 0, 0, 0;
    if !online {
      return 1, 0, 0;
    }
    ghost var before := v2.hist;
    var plan := BuildPlan(ids, v1.hist, Floors(v2.hist, blind), window, read);
    PlanMeans(plan, v1.hist, before, window, read, blind, outcome);
    if plan == [] {
      FilledEverywhere(plan, v1.hist, before, window, read, blind, outcome);
      NothingCopied(before, outcome);
      return (if read == {} then 1 else 0), 0, 0;
    }
    if dryRun {
      return;
    }
    ghost var added;
    posted, refused, added := PostPlan(v2, plan, outcome);
    FilledEverywhere(plan, v1.hist, before, window, read, blind, outcome);
    code := if posted > 0 then 0 else 1;
  }

  /** Every index holds what it should: v1's wanted prints that arrived, strictly
      ascending, never past v1, and level with v1 when its newest print arrived. */
  ghost predicate WellFilled(v1: seq<Hist>, v2: seq<Hist>, after: seq<Hist>, window: int, read: set<nat>,
                             outcome: Print -> Outcome)
    requires |v1| == |v2|
  {
    && |after| == |v1| && (forall h :: h in after ==> Monotone(h))
    && (forall i :: 0 <= i < |v1| ==> after[i] == Filled(v1, v2, i, window, read, outcome))
    && (forall i :: 0 <= i < |v1| ==> Latest(v2[i]) <= Latest(after[i]) <= HighOf(Latest(v2[i]), Latest(v1[i])))
    && (0 <= window ==>
          forall i :: 0 <= i < |v1| && i in read && Arrives(outcome(Print(i, Latest(v1[i])))) ==>
                        Latest(after[i]) == HighOf(Latest(v2[i]), Latest(v1[i])))
  }

  /** A plan, its counts and the prints it should hold. */
  lemma PlanMeans(plan: seq<Print>, v1: seq<Hist>, v2: seq<Hist>, window: int, read: set<nat>, blind: set<nat>,
                  outcome: Print -> Outcome)
    requires |v1| == |v2| && (forall h :: h in v1 ==> Monotone(h))
    requires IsPlan(plan, v1, Floors(v2, blind), window, read)
    ensures forall p :: p in plan ==> p.index < |v2| && 0 < p.ts
    ensures plan != [] <==> AnyPlanned(v1, v2, window, read, blind)
    ensures 0 < Count(plan, outcome, v2, Returns) <==> AnyReturned(v1, v2, window, read, blind, outcome)
    ensures blind == {} ==> Count(plan, outcome, v2, IsTurnedDown) == 0
  {
    PlanIsInRange(plan, v1, v2, window, read, blind);
    CountsIff(plan, outcome, v2, Returns);
    CountsIff(plan, outcome, v2, IsTurnedDown);
    forall p: Print ensures p in plan <==> IsPlanned(p, v1, v2, window, read, blind) {
      assert p == Print(p.index, p.ts);
    }
    if plan != [] {
      assert plan[0] in plan;
    }
  }

  /** What the exit code of a backfill that planned something is worth. v2 gains a
      print exactly when a planned one arrives ahead of it. Exit code 0 implies that
      unless some call was skipped; exit code 1 excludes it unless a print landed
      and was reported as a failure. */
  lemma ExitCodeMeans(v1: seq<Hist>, v2: seq<Hist>, window: int, read: set<nat>, blind: set<nat>,
                        outcome: Print -> Outcome)
    requires |v1| == |v2| && (forall h :: h in v1 ==> Monotone(h)) && (forall h :: h in v2 ==> Monotone(h))
    ensures (exists i :: 0 <= i < |v1| && Filled(v1, v2, i, window, read, outcome) != v2[i])
            <==> exists p :: IsPlanned(p, v1, v2, window, read, blind) && Adds(p, outcome(p), v2)
    ensures AnyReturned(v1, v2, window, read, blind, outcome)
            && (forall p :: IsPlanned(p, v1, v2, window, read, blind) ==> !outcome(p).Skipped?)
            ==> exists p :: IsPlanned(p, v1, v2, window, read, blind) && Adds(p, outcome(p), v2)
    ensures !AnyReturned(v1, v2, window, read, blind, outcome) ==>
              forall p :: IsPlanned(p, v1, v2, window, read, blind) && Adds(p, outcome(p), v2) ==>
                            outcome(p).LandedButRaised?
  {
    forall i | 0 <= i < |v1|
      ensures Filled(v1, v2, i, window, read, outcome) != v2[i]
              <==> exists p: Print :: p.index == i && IsPlanned(p, v1, v2, window, read, blind)
                                      && Adds(p, outcome(p), v2)
    {
      AddsToIndexIff(v1, v2, i, window, read, blind, outcome);
    }
    if p :| IsPlanned(p, v1, v2, window, read, blind) && Adds(p, outcome(p), v2) {
      assert 0 <= p.index < |v1| && Filled(v1, v2, p.index, window, read, outcome) != v2[p.index];
    }
  }

  lemma AddsToIndexIff(v1: seq<Hist>, v2: seq<Hist>, i: nat, window: int, read: set<nat>, blind: set<nat>,
                       outcome: Print -> Outcome)
    requires i < |v1| == |v2| && (forall h :: h in v1 ==> Monotone(h)) && (forall h :: h in v2 ==> Monotone(h))
    ensures Filled(v1, v2, i, window, read, outcome) != v2[i]
            <==> exists p: Print :: p.index == i && IsPlanned(p, v1, v2, window, read, blind) && Adds(p, outcome(p), v2)
  {
    assert v1[i] in v1 && v2[i] in v2;
    if i in read {
      var cutoff := Latest(v1[i]) - window;
      MissingMembers(v1[i], Latest(v2[i]), cutoff, i, outcome);
      var missing := Missing(v1[i], Latest(v2[i]), cutoff, i, outcome);
      if missing != [] {
        assert missing[0] in missing;
        assert IsPlanned(Print(i, missing[0]), v1, v2, window, read, blind);
        assert Adds(Print(i, missing[0]), outcome(Print(i, missing[0])), v2);
      }
      if p: Print :| p.index == i && IsPlanned(p, v1, v2, window, read, blind) && Adds(p, outcome(p), v2) {
        assert p == Print(i, p.ts) && p.ts in missing;
      }
    }
  }

  lemma FilledEverywhere(plan: seq<Print>, v1: seq<Hist>, v2: seq<Hist>, window: int, read: set<nat>,
                         blind: set<nat>, outcome: Print -> Outcome)
    requires |v1| == |v2| && (forall h :: h in v1 ==> Monotone(h)) && (forall h :: h in v2 ==> Monotone(h))
    requires IsPlan(plan, v1, Floors(v2, blind), window, read)
    ensures WellFilled(v1, v2, Copied(v2, plan, outcome), window, read, outcome)
  {
    var after := Copied(v2, plan, outcome);
    forall i | 0 <= i < |v1|
      ensures after[i] == Filled(v1, v2, i, window, read, outcome) && Monotone(after[i])
      ensures Latest(v2[i]) <= Latest(after[i]) <= HighOf(Latest(v2[i]), Latest(v1[i]))
      ensures i in read && 0 <= window && Arrives(outcome(Print(i, Latest(v1[i])))) ==>
                Latest(after[i]) == HighOf(Latest(v2[i]), Latest(v1[i]))
    {
      CopiedIsFilled(plan, v1, v2, window, read, blind, outcome, i);
      FilledMeansLevel(v1, v2, i, window, read, outcome);
    }
  }

  /** Every planned print is one of v1's, and unless v2 could not be read it is
      ahead of v2. */
  lemma PlanIsInRange(plan: seq<Print>, v1: seq<Hist>, v2: seq<Hist>, window: int, read: set<nat>, blind: set<nat>)
    requires |v1| == |v2| && (forall h :: h in v1 ==> Monotone(h))
    requires IsPlan(plan, v1, Floors(v2, blind), window, read)
    ensures forall p :: p in plan ==> p.index < |v2| && 0 < p.ts <= Latest(v1[p.index]) && 0 <= window
    ensures blind == {} ==> forall p :: p in plan ==> Ahead(p, v2)
  {
    forall p | p in plan ensures 0 < p.ts <= Latest(v1[p.index]) && 0 <= window {
      NothingBeyondV1(plan, v1, Floors(v2, blind), window, read, p);
    }
  }

  function LoseSecond(p: Print): Outcome {
    if p == Print(0, 2) then Lost else Landed
  }

  /** A backfill of two indices in which one post is lost, and one index is level. */
  method FillWithOneLost() returns (filled: seq<Hist>)
    ensures filled == [[1, 3], [7]]
  {
    var v1 := new Oracle([[1, 2, 3], [7]]);
    var v2 := new Oracle([[], [7]]);
    var code, posted, refused := Backfill(v1, v2, [1, 0], 2, {0, 1}, {}, LoseSecond, false, true);
    FilledExample();
    filled := v2.hist;
  }

  lemma FilledExample()
    ensures Filled([[1, 2, 3], [7]], [[], [7]], 0, 2, {0, 1}, LoseSecond) == [1, 3]
    ensures Filled([[1, 2, 3], [7]], [[], [7]], 1, 2, {0, 1}, LoseSecond) == [7]
  {
    assert [1, 2, 3][..2] == [1, 2] && [1, 2][..1] == [1] && [1][..0] == [] && [7][..0] == [];
    assert Missing([1], 0, 1, 0, LoseSecond) == [1];
    assert Missing([1, 2], 0, 1, 0, LoseSecond) == [1];
    assert Missing([7], 7, 5, 1, LoseSecond) == [];
  }

  // --- why a lost post matters ---

  function PostedAll(h: Hist, stamps: seq<int>): Hist
    decreases |stamps|
  {
    if stamps == [] then h else PostedAll(Posted(h, stamps[0]), stamps[1..])
  }

  /** A print v2 has passed without taking it can never be added, whatever is
      posted later: a re-run does not repair a lost post unless it was the newest. */
  lemma {:induction false} SkippedForGood(h: Hist, ts: int, stamps: seq<int>)
    requires 0 < ts <= Latest(h) && ts !in h
    ensures ts !in PostedAll(h, stamps)
    decreases |stamps|
  {
    if stamps != [] {
      SkippedForGood(Posted(h, stamps[0]), ts, stamps[1..]);
    }
  }

  /** Re-running a completed backfill plans nothing; so does a negative window. */
  lemma LevelPlansNothing(plan: seq<Print>, v1: seq<Hist>, v2: seq<Hist>, window: int, read: set<nat>)
    requires |v1| == |v2| && (forall h :: h in v1 ==> Monotone(h))
    requires IsPlan(plan, v1, Floors(v2, {}), window, read)
    requires window < 0 || forall i :: i in read && i < |v1| ==> Latest(v1[i]) <= Latest(v2[i])
    ensures plan == []
  {
    if plan != [] {
      var p := plan[0];
      assert p in plan;
      NothingBeyondV1(plan, v1, Floors(v2, {}), window, read, p);
    }
  }

  /** One cycle over every index. With every timestamp read, no post is refused:
      each oracle gains exactly the prints that reached it. */
  method LiveCycle(v1: Oracle, v2: Oracle, step: int, outcomes: seq<Outcome>, mirrored: seq<bool>)
    returns (ts: int, refused: nat)
    requires v1 != v2 && |v1.hist| == |v2.hist| == |outcomes| == |mirrored| && step > 0
    requires (forall h :: h in v1.hist ==> Monotone(h)) && (forall h :: h in v2.hist ==> Monotone(h))
    modifies v1, v2
    ensures refused == 0 && ts == NextTs(Newest(old(v1.hist), old(v2.hist)), step)
    ensures |v1.hist| == |v2.hist| == old(|v1.hist|)
    ensures forall i :: 0 <= i < |v1.hist| ==>
              && v1.hist[i] == V1After(old(v1.hist)[i], outcomes[i], ts)
              && v2.hist[i] == V2After(old(v2.hist)[i], outcomes[i], mirrored[i], ts)
  {
    ghost var h1, h2 := v1.hist, v2.hist;
    ts := NextTs(Newest(v1.hist, v2.hist), step);
    refused := 0;
    NextTsBeyond(Newest(h1, h2), step);
    for i := 0 to |outcomes|
      invariant refused == 0 && |v1.hist| == |h1| && |v2.hist| == |h2|
      invariant forall j :: i <= j < |h1| ==> v1.hist[j] == h1[j] && v2.hist[j] == h2[j]
      invariant forall j :: 0 <= j < i ==>
                  && v1.hist[j] == V1After(h1[j], outcomes[j], ts)
                  && v2.hist[j] == V2After(h2[j], outcomes[j], mirrored[j], ts)
    {
      NewestOfBounds(h1, i);
      NewestOfBounds(h2, i);
      var delivered := Arrives(outcomes[i]);
      var ok := v1.Post(i, ts, delivered);
      if delivered && !ok {
        refused := refused + 1;
      }
      if outcomes[i].Landed? || outcomes[i].Skipped? {
        ok := v2.Post(i, ts, mirrored[i]);
        if mirrored[i] && !ok {
          refused := refused + 1;
        }
      }
    }
  }

  /** What a live post adds to an index of v1, and its mirror to v2. */
  function V1After(h: Hist, o: Outcome, ts: int): Hist {
    if Arrives(o) then h + [ts] else h
  }

  function V2After(h: Hist, o: Outcome, mirrored: bool, ts: int): Hist {
    if (o.Landed? || o.Skipped?) && mirrored then h + [ts] else h
  }

  /** From level oracles, a live cycle puts v2 ahead of v1 on an index exactly when
      the v1 post was skipped and its mirror arrived, and behind exactly when the v1
      post landed and its mirror did not or was never sent. */
  lemma LiveLeadsIff(h1: Hist, h2: Hist, o: Outcome, mirrored: bool, ts: int)
    requires Latest(h1) == Latest(h2) < ts
    ensures Latest(V1After(h1, o, ts)) < Latest(V2After(h2, o, mirrored, ts)) <==> o.Skipped? && mirrored
    ensures Latest(V2After(h2, o, mirrored, ts)) < Latest(V1After(h1, o, ts))
            <==> o.LandedButRaised? || (o.Landed? && !mirrored)
  {}
}
