/** Two oracles written by a live poster and a backfill, interleaved post by post;
    any single post may be lost. A cycle writes each index to v1 and then mirrors
    it to v2; a backfill works through a plan taken when it began. */
module OracleProtocol {
  import opened OracleHistory
  import opened BackfillPlan

  /** A cycle in flight: its timestamp, the index it is at, and whether that
      index is already past v1 and waiting for its mirror post. */
  datatype Live = Idle | Cycle(ts: int, at: nat, mirror: bool)

  datatype Fill = Rest | Filling(todo: seq<Print>)

  /** `overtaken`: the indices on which a live print reached v2 since the
      backfill in flight took its plan. `stale`: the planned prints v2 was already
      past at that moment, planned because its own timestamp could not be read. */
  datatype State = State(v1: seq<Hist>, v2: seq<Hist>, live: Live, fill: Fill, overtaken: set<nat>, stale: set<Print>)

  datatype Step =
    | BeginCycle
    | PostV1(delivered: bool, raises: bool)
    | PostV2(delivered: bool)
    | BeginFill(plan: seq<Print>, window: int, read: set<nat>, blind: set<nat>)
    | PostFill(delivered: bool)

  function NewestOf(hs: seq<Hist>): int {
    if hs == [] then 0
    else
      var rest := NewestOf(hs[..|hs| - 1]);
      if rest < Latest(hs[|hs| - 1]) then Latest(hs[|hs| - 1]) else rest
  }

  function Newest(v1: seq<Hist>, v2: seq<Hist>): int {
    if NewestOf(v1) < NewestOf(v2) then NewestOf(v2) else NewestOf(v1)
  }

  /** The smallest multiple of `step` beyond `newest`; from empty oracles the
      first print clock of a fresh store, which is the same formula. */
  function NextTs(newest: int, step: int): int
    requires step > 0
  {
    (newest / step + 1) * step
  }

  /** Where a backfill takes v2 to stand; on a `blind` index the read failed,
      which looks like an index without prints. */
  function Floors(v2: seq<Hist>, blind: set<nat>): (f: seq<int>)
    ensures |f| == |v2| && forall i :: 0 <= i < |v2| ==> f[i] == if i in blind then 0 else Latest(v2[i])
  {
    seq(|v2|, i requires 0 <= i < |v2| => if i in blind then 0 else Latest(v2[i]))
  }

  /** The planned prints v2 is already past. */
  function StaleOf(plan: seq<Print>, v2: seq<Hist>): set<Print> {
    set p | p in plan && p.index < |v2| && p.ts <= Latest(v2[p.index])
  }

  function Onward(s: State): Live
    requires s.live.Cycle?
  {
    if s.live.at + 1 < |s.v1| then Cycle(s.live.ts, s.live.at + 1, false) else Idle
  }

  ghost predicate Enabled(s: State, a: Step) {
    match a
    case BeginCycle => s.live.Idle? && 0 < |s.v1|
    case PostV1(_, _) => s.live.Cycle? && !s.live.mirror && s.live.at < |s.v1|
    case PostV2(_) => s.live.Cycle? && s.live.mirror && s.live.at < |s.v2|
    case BeginFill(plan, window, read, blind) =>
      s.fill.Rest? && |s.v1| == |s.v2| && IsPlan(plan, s.v1, Floors(s.v2, blind), window, read)
    case PostFill(_) => s.fill.Filling? && s.fill.todo != [] && s.fill.todo[0].index < |s.v2|
  }

  /** A post the contract turned down for its timestamp. */
  predicate Refused(s: State, a: Step) {
    match a
    case PostV1(delivered, _) =>
      delivered && s.live.Cycle? && s.live.at < |s.v1| && !Accepts(s.v1[s.live.at], s.live.ts)
    case PostV2(delivered) => delivered && s.live.Cycle? && s.live.at < |s.v2| && !Accepts(s.v2[s.live.at], s.live.ts)
    case PostFill(delivered) =>
      delivered && s.fill.Filling? && s.fill.todo != [] && s.fill.todo[0].index < |s.v2|
      && !Accepts(s.v2[s.fill.todo[0].index], s.fill.todo[0].ts)
    case _ => false
  }

  function Deliver(hs: seq<Hist>, i: nat, ts: int, delivered: bool): seq<Hist>
    requires i < |hs|
  {
    if delivered then hs[i := Posted(hs[i], ts)] else hs
  }

  /** One step. A v1 post that raises (a revert always does; a landed post may,
      on a timeout) abandons its index; one that does not, skipped for want of
      gas included, goes on to the mirror. */
  ghost function Next(s: State, a: Step, step: int): State
    requires step > 0 && Enabled(s, a)
  {
    match a
    case BeginCycle => s.(live := Cycle(NextTs(Newest(s.v1, s.v2), step), 0, false))
    case PostV1(delivered, raises) =>
      s.(v1 := Deliver(s.v1, s.live.at, s.live.ts, delivered),
         live := if raises || Refused(s, a) then Onward(s) else s.live.(mirror := true))
    case PostV2(delivered) =>
      s.(v2 := Deliver(s.v2, s.live.at, s.live.ts, delivered), live := Onward(s),
         overtaken := if delivered && !Refused(s, a) then s.overtaken + {s.live.at} else s.overtaken)
    case BeginFill(plan, _, _, _) =>
      s.(fill := if plan == [] then Rest else Filling(plan), overtaken := {}, stale := StaleOf(plan, s.v2))
    case PostFill(delivered) =>
      var p := s.fill.todo[0];
      s.(v2 := Deliver(s.v2, p.index, p.ts, delivered),
         fill := if |s.fill.todo| == 1 then Rest else Filling(s.fill.todo[1..]))
  }

  // --- the invariant ---

  ghost predicate Histories(s: State) {
    |s.v1| == |s.v2| && (forall h :: h in s.v1 ==> Monotone(h)) && (forall h :: h in s.v2 ==> Monotone(h))
  }

  /** Everything on chain is at or below the cycle's timestamp, and strictly
      below it wherever the cycle has not posted yet; only v2 at the index being
      mirrored may already hold it. */
  ghost predicate CycleAhead(s: State)
    requires Histories(s)
  {
    s.live.Cycle? ==>
      && s.live.at < |s.v1| && 0 < s.live.ts
      && (forall i :: 0 <= i < |s.v1| ==> Latest(s.v1[i]) <= s.live.ts && Latest(s.v2[i]) <= s.live.ts)
      && (forall i :: s.live.at <= i < |s.v1| && (s.live.mirror ==> s.live.at < i) ==>
                        Latest(s.v1[i]) < s.live.ts && Latest(s.v2[i]) < s.live.ts)
  }

  /** Every print still to be copied is v1's, and v2 is below it exactly when it
      is neither stale nor overtaken by a live print. */
  ghost predicate FillSound(s: State)
    requires Histories(s)
  {
    s.fill.Filling? ==>
      && Ascending(s.fill.todo)
      && forall p :: p in s.fill.todo ==>
           && p.index < |s.v1| && 0 < p.ts <= Latest(s.v1[p.index])
           && (p.index in s.overtaken || p in s.stale <==> p.ts <= Latest(s.v2[p.index]))
  }

  ghost predicate Inv(s: State) {
    Histories(s) && CycleAhead(s) && FillSound(s)
  }

  lemma NewestOfBounds(hs: seq<Hist>, i: nat)
    requires i < |hs|
    ensures Latest(hs[i]) <= NewestOf(hs)
  {
    if i < |hs| - 1 {
      NewestOfBounds(hs[..|hs| - 1], i);
    }
  }

  lemma NewestOfNonNegative(hs: seq<Hist>)
    ensures 0 <= NewestOf(hs)
  {}

  lemma NextTsBeyond(newest: int, step: int)
    requires step > 0
    ensures newest < NextTs(newest, step)
  {}

  lemma PostedMonotone(h: Hist, ts: int)
    requires Monotone(h) && 0 < ts
    ensures Monotone(Posted(h, ts)) && Latest(Posted(h, ts)) == if Latest(h) < ts then ts else Latest(h)
  {}

  lemma DeliverKeepsMonotone(hs: seq<Hist>, i: nat, ts: int, delivered: bool)
    requires i < |hs| && 0 < ts && forall h :: h in hs ==> Monotone(h)
    ensures forall h :: h in Deliver(hs, i, ts, delivered) ==> Monotone(h)
    ensures Latest(Deliver(hs, i, ts, delivered)[i]) ==
            if delivered && Latest(hs[i]) < ts then ts else Latest(hs[i])
  {
    assert hs[i] in hs;
    PostedMonotone(hs[i], ts);
  }

  lemma CycleBegins(s: State, step: int)
    requires Inv(s) && step > 0 && Enabled(s, BeginCycle)
    ensures Inv(Next(s, BeginCycle, step))
  {
    var newest := Newest(s.v1, s.v2);
    NextTsBeyond(newest, step);
    NewestOfNonNegative(s.v1);
    forall i | 0 <= i < |s.v1| ensures Latest(s.v1[i]) <= newest && Latest(s.v2[i]) <= newest {
      NewestOfBounds(s.v1, i);
      NewestOfBounds(s.v2, i);
    }
  }

  lemma FillBegins(s: State, a: Step, step: int)
    requires Inv(s) && step > 0 && a.BeginFill? && Enabled(s, a)
    ensures Inv(Next(s, a, step))
  {
    forall p | p in a.plan ensures 0 < p.ts <= Latest(s.v1[p.index]) {
      NothingBeyondV1(a.plan, s.v1, Floors(s.v2, a.blind), a.window, a.read, p);
    }
  }

  lemma V1Posts(s: State, a: Step, step: int)
    requires Inv(s) && step > 0 && a.PostV1? && Enabled(s, a)
    ensures Inv(Next(s, a, step)) && !Refused(s, a)
  {
    DeliverKeepsMonotone(s.v1, s.live.at, s.live.ts, a.delivered);
  }

  lemma V2Posts(s: State, a: Step, step: int)
    requires Inv(s) && step > 0 && a.PostV2? && Enabled(s, a)
    ensures Inv(Next(s, a, step))
    ensures Refused(s, a) <==> a.delivered && Latest(s.v2[s.live.at]) == s.live.ts
  {
    DeliverKeepsMonotone(s.v2, s.live.at, s.live.ts, a.delivered);
  }

  /** A v1 post is mirrored exactly when its call returned, landed or not; one that
      raised takes the cycle to its next index, or ends it, as every mirror post does. */
  lemma MirrorFollowsReturn(s: State, a: Step, step: int)
    requires Inv(s) && step > 0 && Enabled(s, a) && (a.PostV1? || a.PostV2?)
    ensures Next(s, a, step).live ==
            if a.PostV1? && !a.raises then Cycle(s.live.ts, s.live.at, true)
            else if s.live.at + 1 < |s.v1| then Cycle(s.live.ts, s.live.at + 1, false)
            else Idle
  {
    if a.PostV1? {
      V1Posts(s, a, step);
    }
  }

  lemma TailAscends(todo: seq<Print>)
    requires Ascending(todo) && todo != []
    ensures Ascending(todo[1..])
    ensures forall q :: q in todo[1..] ==> q in todo && (q.index == todo[0].index ==> todo[0].ts < q.ts)
  {
    assert forall b :: 0 <= b < |todo| - 1 ==> todo[1..][b] == todo[b + 1];
  }

  lemma FillPosts(s: State, a: Step, step: int)
    requires Inv(s) && step > 0 && a.PostFill? && Enabled(s, a)
    ensures Inv(Next(s, a, step))
    ensures Refused(s, a) <==> a.delivered && (s.fill.todo[0].index in s.overtaken || s.fill.todo[0] in s.stale)
  {
    var p := s.fill.todo[0];
    assert p in s.fill.todo;
    DeliverKeepsMonotone(s.v2, p.index, p.ts, a.delivered);
    TailAscends(s.fill.todo);
  }

  /** Every step keeps the invariant. */
  lemma StepKeepsInv(s: State, a: Step, step: int)
    requires Inv(s) && step > 0 && Enabled(s, a)
    ensures Inv(Next(s, a, step))
  {
    match a
    case BeginCycle => CycleBegins(s, step);
    case PostV1(_, _) => V1Posts(s, a, step);
    case PostV2(_) => V2Posts(s, a, step);
    case BeginFill(_, _, _, _) => FillBegins(s, a, step);
    case PostFill(_) => FillPosts(s, a, step);
  }

  // --- whole runs ---

  /** `trace` is a run: each state follows from the one before by an enabled step. */
  ghost predicate IsRun(trace: seq<State>, steps: seq<Step>, step: int)
    requires step > 0
  {
    && |trace| == |steps| + 1
    && forall k :: 0 <= k < |steps| ==> Enabled(trace[k], steps[k]) && trace[k + 1] == Next(trace[k], steps[k], step)
  }

  ghost predicate Start(s: State) {
    Histories(s) && s.live.Idle? && s.fill.Rest?
  }

  lemma {:induction false} RunKeepsInv(trace: seq<State>, steps: seq<Step>, step: int, k: nat)
    requires step > 0 && IsRun(trace, steps, step) && Start(trace[0]) && k < |trace|
    ensures Inv(trace[k])
  {
    if k > 0 {
      RunKeepsInv(trace, steps, step, k - 1);
      StepKeepsInv(trace[k - 1], steps[k - 1], step);
    }
  }

  /** Over every interleaving: a v1 post is never refused; a mirror post is
      refused only where v2 already holds that very print; a backfill post is
      refused exactly where a live print has overtaken it or it was stale from the
      start. */
  lemma WhoIsRefused(trace: seq<State>, steps: seq<Step>, step: int, k: nat)
    requires step > 0 && IsRun(trace, steps, step) && Start(trace[0]) && k < |steps|
    ensures var s, a := trace[k], steps[k];
            && (a.PostV1? ==> !Refused(s, a))
            && (a.PostV2? ==> (Refused(s, a) <==> a.delivered && s.live.ts in s.v2[s.live.at]))
            && (a.PostFill? ==>
                  var p := s.fill.todo[0];
                  Refused(s, a) <==> a.delivered && (p.index in s.overtaken || p in s.stale))
  {
    RunKeepsInv(trace, steps, step, k);
    var s, a := trace[k], steps[k];
    if a.PostV1? {
      V1Posts(s, a, step);
    } else if a.PostV2? {
      V2Posts(s, a, step);
      var h := s.v2[s.live.at];
      assert h in s.v2;
      if s.live.ts in h {
        var j :| 0 <= j < |h| && h[j] == s.live.ts;
      }
    } else if a.PostFill? {
      FillPosts(s, a, step);
    }
  }

  // --- refusals that do happen ---

  /** One index, both oracles empty, a clock of ten. */
  const FRESH := State([[]], [[]], Idle, Rest, {}, {})

  const POSTED_ONCE := State([[10]], [[]], Cycle(10, 0, true), Rest, {}, {})

  /** A backfill that begins while a cycle is between its two posts copies the
      print the cycle is about to mirror: the mirror post is refused. */
  lemma MirrorCanBeRefused() returns (trace: seq<State>, steps: seq<Step>)
    ensures IsRun(trace, steps, 10) && Start(trace[0]) && |steps| == 5
    ensures steps[4] == PostV2(true) && Refused(trace[4], steps[4])
  {
    var plan := [Print(0, 10)];
    CycleFromFresh();
    PlanOfOne(10);
    var copied := POSTED_ONCE.(v2 := [[10]]);
    var after := copied.(live := Idle);
    steps := [BeginCycle, PostV1(true, false), BeginFill(plan, 0, {0}, {}), PostFill(true), PostV2(true)];
    trace := [FRESH, FRESH.(live := Cycle(10, 0, false)), POSTED_ONCE, POSTED_ONCE.(fill := Filling(plan)), copied,
              after];
  }

  /** ... and when the mirror post comes first, the planned copy is refused. */
  lemma BackfillCanBeRefused() returns (trace: seq<State>, steps: seq<Step>)
    ensures IsRun(trace, steps, 10) && Start(trace[0]) && |steps| == 5
    ensures steps[4] == PostFill(true) && Refused(trace[4], steps[4])
  {
    var plan := [Print(0, 10)];
    CycleFromFresh();
    PlanOfOne(10);
    var mirrored := State([[10]], [[10]], Idle, Filling(plan), {0}, {});
    var after := mirrored.(fill := Rest);
    steps := [BeginCycle, PostV1(true, false), BeginFill(plan, 0, {0}, {}), PostV2(true), PostFill(true)];
    trace := [FRESH, FRESH.(live := Cycle(10, 0, false)), POSTED_ONCE, POSTED_ONCE.(fill := Filling(plan)), mirrored,
              after];
  }

  lemma CycleFromFresh()
    ensures Next(FRESH, BeginCycle, 10) == FRESH.(live := Cycle(10, 0, false))
    ensures Next(FRESH.(live := Cycle(10, 0, false)), PostV1(true, false), 10)
            == POSTED_ONCE
  {
    assert NewestOf([[]]) == 0;
    assert Posted([], 10) == [10];
    assert Deliver([[]], 0, 10, true) == [[10]];
  }

  lemma PlanOfOne(ts: int)
    requires 0 < ts
    ensures IsPlan([Print(0, ts)], [[ts]], Floors([[]], {}), 0, {0})
  {}

  /** Copying never carries v2 past v1. */
  lemma BackfillStaysBehind(trace: seq<State>, steps: seq<Step>, step: int, k: nat, i: nat)
    requires step > 0 && IsRun(trace, steps, step) && Start(trace[0]) && k < |steps| && steps[k].PostFill?
    requires i < |trace[k].v1|
    ensures |trace[k].v2| == |trace[k + 1].v2| == |trace[k].v1|
    ensures Latest(trace[k + 1].v2[i]) != Latest(trace[k].v2[i]) ==>
              Latest(trace[k + 1].v2[i]) <= Latest(trace[k].v1[i])
  {
    RunKeepsInv(trace, steps, step, k);
    assert trace[k].fill.todo[0] in trace[k].fill.todo;
  }

  /** A run in which a backfill and a cycle are never both in flight, and every
      backfill could read where v2 stands. */
  ghost predicate TakesTurns(trace: seq<State>, steps: seq<Step>) {
    && (forall k :: 0 <= k < |trace| ==> trace[k].live.Idle? || trace[k].fill.Rest?)
    && (forall k :: 0 <= k < |steps| && steps[k].BeginFill? ==> steps[k].blind == {})
  }

  ghost predicate Apart(s: State) {
    && (s.fill.Filling? ==> s.overtaken == {} && s.stale == {})
    && (s.live.Cycle? ==> forall i :: s.live.at <= i < |s.v2| ==> Latest(s.v2[i]) < s.live.ts)
  }

  lemma ApartKept(s: State, a: Step, step: int)
    requires Inv(s) && Apart(s) && step > 0 && Enabled(s, a) && (a.BeginFill? ==> a.blind == {})
    requires s.live.Idle? || s.fill.Rest?
    ensures Apart(Next(s, a, step))
  {
    StepKeepsInv(s, a, step);
  }

  lemma {:induction false} TurnsKeepApart(trace: seq<State>, steps: seq<Step>, step: int, k: nat)
    requires step > 0 && IsRun(trace, steps, step) && Start(trace[0]) && TakesTurns(trace, steps) && k < |trace|
    ensures Inv(trace[k]) && Apart(trace[k])
  {
    RunKeepsInv(trace, steps, step, k);
    if k > 0 {
      TurnsKeepApart(trace, steps, step, k - 1);
      ApartKept(trace[k - 1], steps[k - 1], step);
    }
  }

  /** When backfills and cycles take turns, nothing is ever refused, whatever is lost. */
  lemma NothingRefusedInTurns(trace: seq<State>, steps: seq<Step>, step: int, k: nat)
    requires step > 0 && IsRun(trace, steps, step) && Start(trace[0]) && TakesTurns(trace, steps) && k < |steps|
    ensures !Refused(trace[k], steps[k])
  {
    TurnsKeepApart(trace, steps, step, k);
    var s, a := trace[k], steps[k];
    match a
    case BeginCycle =>
    case PostV1(_, _) => V1Posts(s, a, step);
    case PostV2(_) => V2Posts(s, a, step);
    case BeginFill(_, _, _, _) =>
    case PostFill(_) => FillPosts(s, a, step);
  }

  /** Whatever happened before, the next cycle can post every index to both
      oracles: there is no stall to dig out of. */
  lemma NoStall(trace: seq<State>, steps: seq<Step>, step: int, k: nat, i: nat)
    requires step > 0 && IsRun(trace, steps, step) && Start(trace[0]) && k < |steps| && steps[k].BeginCycle?
    requires i < |trace[k].v1|
    ensures |trace[k].v2| == |trace[k].v1|
    ensures Accepts(trace[k].v1[i], trace[k + 1].live.ts) && Accepts(trace[k].v2[i], trace[k + 1].live.ts)
  {
    RunKeepsInv(trace, steps, step, k);
    RunKeepsInv(trace, steps, step, k + 1);
  }

  // --- what a finished backfill achieved ---

  /** Steps `b` to `e` are one backfill: begun at `b`, at rest again at `e`, every
      post of it delivered, with live posts anywhere in between. */
  ghost predicate IsFaultFreeFill(trace: seq<State>, steps: seq<Step>, b: nat, e: nat)
    requires |trace| == |steps| + 1 && b < e < |trace|
  {
    && steps[b].BeginFill? && trace[e].fill.Rest?
    && (forall k :: b < k < e ==> trace[k].fill.Filling? && (steps[k].PostFill? ==> steps[k].delivered))
  }

  /** v2 has reached print `p`, or it is still to be posted. */
  ghost predicate OnItsWay(s: State, p: Print) {
    p.index < |s.v2| && (p.ts <= Latest(s.v2[p.index]) || (s.fill.Filling? && p in s.fill.todo))
  }

  lemma DeliverOnlyRaises(hs: seq<Hist>, i: nat, ts: int, delivered: bool, j: nat)
    requires i < |hs| && j < |hs| && 0 < ts && forall h :: h in hs ==> Monotone(h)
    ensures Latest(hs[j]) <= Latest(Deliver(hs, i, ts, delivered)[j])
    ensures delivered && i == j ==> ts <= Latest(Deliver(hs, i, ts, delivered)[j])
  {
    DeliverKeepsMonotone(hs, i, ts, delivered);
  }

  lemma StaysOnItsWay(s: State, a: Step, step: int, p: Print)
    requires Inv(s) && step > 0 && Enabled(s, a) && OnItsWay(s, p)
    requires s.fill.Filling? && (a.PostFill? ==> a.delivered)
    ensures OnItsWay(Next(s, a, step), p)
  {
    if a.PostV2? {
      DeliverOnlyRaises(s.v2, s.live.at, s.live.ts, a.delivered, p.index);
    } else if a.PostFill? {
      var q := s.fill.todo[0];
      assert q in s.fill.todo;
      DeliverOnlyRaises(s.v2, q.index, q.ts, a.delivered, p.index);
      assert p in s.fill.todo ==> p == q || p in s.fill.todo[1..];
    }
  }

  /** v1's newest print of an index read is planned, unless v2 is at or past it. */
  lemma NewestGetsOnItsWay(s: State, a: Step, step: int, i: nat)
    requires Inv(s) && step > 0 && Enabled(s, a) && a.BeginFill? && 0 <= a.window
    requires i in a.read && i < |s.v1| && s.v1[i] != []
    ensures OnItsWay(Next(s, a, step), Print(i, Latest(s.v1[i])))
  {
    var h, p := s.v1[i], Print(i, Latest(s.v1[i]));
    assert s.v2[i] in s.v2;
    if Latest(s.v2[i]) < p.ts {
      assert Wanted(h, Floors(s.v2, a.blind)[i], a.window, p.ts);
      assert p in a.plan;
    }
  }

  lemma {:induction false} OnItsWayThroughout(trace: seq<State>, steps: seq<Step>, step: int, b: nat, e: nat,
                                             k: nat, i: nat)
    requires step > 0 && IsRun(trace, steps, step) && Start(trace[0]) && b < e < |trace|
    requires IsFaultFreeFill(trace, steps, b, e) && 0 <= steps[b].window
    requires b < k <= e && i in steps[b].read && i < |trace[b].v1| && trace[b].v1[i] != []
    ensures OnItsWay(trace[k], Print(i, Latest(trace[b].v1[i])))
  {
    var p := Print(i, Latest(trace[b].v1[i]));
    if k == b + 1 {
      RunKeepsInv(trace, steps, step, b);
      NewestGetsOnItsWay(trace[b], steps[b], step, i);
    } else {
      OnItsWayThroughout(trace, steps, step, b, e, k - 1, i);
      RunKeepsInv(trace, steps, step, k - 1);
      StaysOnItsWay(trace[k - 1], steps[k - 1], step, p);
    }
  }

  /** Over every interleaving, a backfill none of whose posts is lost ends with every
      index read at or past v1's newest print as it was when the plan was taken. */
  lemma FinishedFillIsLevel(trace: seq<State>, steps: seq<Step>, step: int, b: nat, e: nat, i: nat)
    requires step > 0 && IsRun(trace, steps, step) && Start(trace[0]) && b < e < |trace|
    requires IsFaultFreeFill(trace, steps, b, e) && 0 <= steps[b].window
    requires i in steps[b].read && i < |trace[b].v1|
    ensures i < |trace[e].v2| && Latest(trace[b].v1[i]) <= Latest(trace[e].v2[i])
  {
    RunKeepsInv(trace, steps, step, e);
    SameIndices(trace, steps, step, b, e);
    if trace[b].v1[i] == [] {
      assert trace[e].v2[i] in trace[e].v2;
    } else {
      OnItsWayThroughout(trace, steps, step, b, e, e, i);
    }
  }

  lemma {:induction false} SameIndices(trace: seq<State>, steps: seq<Step>, step: int, b: nat, e: nat)
    requires step > 0 && IsRun(trace, steps, step) && Start(trace[0]) && b <= e < |trace|
    ensures |trace[e].v2| == |trace[b].v1|
    decreases e
  {
    RunKeepsInv(trace, steps, step, b);
    if b < e {
      SameIndices(trace, steps, step, b, e - 1);
    }
  }

  /** The newest timestamp seen by a cycle whose reads of v1 succeed on `r1` and
      of v2 on `r2`; a failed read looks like an empty oracle. */
  function NewestSeen(v1: seq<Hist>, v2: seq<Hist>, r1: set<nat>, r2: set<nat>): int {
    Newest(OnlyRead(v1, r1), OnlyRead(v2, r2))
  }

  function OnlyRead(hs: seq<Hist>, read: set<nat>): seq<Hist> {
    seq(|hs|, i requires 0 <= i < |hs| => if i in read then hs[i] else [])
  }

  predicate AllAccept(hs: seq<Hist>, ts: int) {
    forall i :: 0 <= i < |hs| ==> Accepts(hs[i], ts)
  }

  lemma {:induction false} NewestOfAccepts(hs: seq<Hist>, ts: int)
    requires 0 < ts && forall h :: h in hs ==> Monotone(h)
    ensures AllAccept(hs, ts) <==> NewestOf(hs) < ts
  {
    if hs != [] {
      var n := |hs| - 1;
      assert hs[n] in hs && hs == hs[..n] + [hs[n]];
      NewestOfAccepts(hs[..n], ts);
    }
  }

  /** A cycle that could read only some of the timestamps is accepted by both
      oracles on every index exactly when the newest print it saw lies in the same
      clock step as the newest there is. */
  lemma BlindCycleIsSafeIff(v1: seq<Hist>, v2: seq<Hist>, r1: set<nat>, r2: set<nat>, step: int)
    requires step > 0 && (forall h :: h in v1 ==> Monotone(h)) && (forall h :: h in v2 ==> Monotone(h))
    ensures var ts := NextTs(NewestSeen(v1, v2, r1, r2), step);
            AllAccept(v1, ts) && AllAccept(v2, ts) <==> Newest(v1, v2) / step == NewestSeen(v1, v2, r1, r2) / step
  {
    var seen, newest := NewestSeen(v1, v2, r1, r2), Newest(v1, v2);
    NewestOfOnlyRead(v1, r1);
    NewestOfOnlyRead(v2, r2);
    NewestOfNonNegative(OnlyRead(v1, r1));
    NextTsBeyond(seen, step);
    NewestOfAccepts(v1, NextTs(seen, step));
    NewestOfAccepts(v2, NextTs(seen, step));
    NextTsBeyondIff(seen, newest, step);
    QuotientMonotone(seen, newest, step);
  }

  lemma {:induction false} NewestOfOnlyRead(hs: seq<Hist>, read: set<nat>)
    requires forall h :: h in hs ==> Monotone(h)
    ensures NewestOf(OnlyRead(hs, read)) <= NewestOf(hs)
  {
    if hs != [] {
      var n := |hs| - 1;
      assert hs[n] in hs;
      assert OnlyRead(hs, read)[..n] == OnlyRead(hs[..n], read);
      NewestOfOnlyRead(hs[..n], read);
      NewestOfNonNegative(hs[..n]);
    }
  }

  lemma QuotientMonotone(x: int, y: int, step: int)
    requires step > 0 && x <= y
    ensures x / step <= y / step
  {
    if y / step < x / step {
      Multiples(step, x / step - y / step - 1);
    }
  }

  lemma NextTsBeyondIff(seen: int, newest: int, step: int)
    requires step > 0
    ensures newest < NextTs(seen, step) <==> newest / step <= seen / step
  {
    var a, b := seen / step, newest / step;
    assert step * b <= newest < step * b + step;
    assert (a + 1) * step == step * b + step + step * (a - b);
    if b <= a {
      Multiples(step, a - b);
    } else {
      Multiples(step, b - a - 1);
      assert step * (b - a - 1) == -(step * (a - b)) - step;
    }
  }

  lemma Multiples(step: int, k: int)
    requires 0 < step && 0 <= k
    ensures 0 <= step * k
  {}
}
