/** Sizing a maker's collateral: the search for the least collateral whose thin
    side clears a target, the depth formula beside it, and the capped top-up. */
module Collateral {
  import opened Rounding
  import opened Desk

  datatype Option<+T> = None | Some(value: T)

  /** Quoted room on the thinner side when both parties post `collateral`. */
  function Thin(per: real, collateral: real, inventory: real): real {
    var room := Feasible(per, collateral, 0.0, collateral, inventory);
    Min(room.buy, room.sell)
  }

  lemma ThinMonotone(per: real, a: real, b: real, inventory: real)
    requires a <= b
    ensures Thin(per, a, inventory) <= Thin(per, b, inventory)
  {
    if per > 0.0 {
      CapMonotone(a, b, per);
      ClampMonotone(RawBuy(per, a, 0.0, a, inventory), RawBuy(per, b, 0.0, b, inventory));
      ClampMonotone(RawSell(per, a, 0.0, a, inventory), RawSell(per, b, 0.0, b, inventory));
    }
  }

  /** The thin side in one term: with equal collateral on both sides, inventory either
      way costs the room it takes. */
  lemma ThinIs(per: real, collateral: real, inventory: real)
    requires per > 0.0
    ensures Thin(per, collateral, inventory) == Clamp(Cap(collateral, per) - Abs(inventory))
  {
    var cap := Cap(collateral, per);
    ClampMonotone(cap - Abs(inventory), RawBuy(per, collateral, 0.0, collateral, inventory));
    ClampMonotone(cap - Abs(inventory), RawSell(per, collateral, 0.0, collateral, inventory));
  }

  /** So it is, to the nearest cent and within the desk's range, the cap less the
      inventory: a target within range is cleared only by a cap that covers both. */
  lemma TargetNeedsCap(per: real, collateral: real, inventory: real, target: real)
    requires per > 0.0 && 0.005 < target <= 2.0
    ensures target <= Thin(per, collateral, inventory) ==> target + Abs(inventory) <= Cap(collateral, per) + 0.005
    ensures target + Abs(inventory) + 0.005 <= Cap(collateral, per) ==>
              target <= Thin(per, collateral, inventory)
  {
    ThinIs(per, collateral, inventory);
    ClampIsNearest(Cap(collateral, per) - Abs(inventory));
  }

  /** No collateral makes the desk quote more than MAX_QTY, so a larger target
      is out of reach. */
  lemma TargetAboveMaximum(per: real, collateral: real, inventory: real)
    ensures Thin(per, collateral, inventory) <= MAX_QTY
  {
    if per > 0.0 {
      ClampRange(RawBuy(per, collateral, 0.0, collateral, inventory));
    }
  }

  function Pow2(k: nat): real {
    if k == 0 then 1.0 else 2.0 * Pow2(k - 1)
  }

  /** The largest collateral the doubling search ever asks about. */
  const LARGEST_PROBE := 549755813888.0

  /** Width of the bracket after 60 halvings, at most. */
  const FINAL_WIDTH := 1.0 / 4194304.0

  lemma {:induction false} Pow2Sum(j: nat, k: nat)
    ensures Pow2(j + k) == Pow2(j) * Pow2(k)
  {
    if j > 0 {
      Pow2Sum(j - 1, k);
    }
  }

  lemma PowersNeeded()
    ensures Pow2(39) == LARGEST_PROBE && Pow2(38) == FINAL_WIDTH * Pow2(60)
  {
    assert Pow2(10) == 32.0 * Pow2(5) && Pow2(5) == 32.0;
    Pow2Sum(9, 10);
    Pow2Sum(19, 20);
    Pow2Sum(10, 10);
    Pow2Sum(2, 20);
    Pow2Sum(38, 22);
    assert Pow2(9) == 512.0 && Pow2(2) == 4.0;
  }

  lemma Pow2Monotone(j: nat, k: nat)
    requires j <= k
    ensures 1.0 <= Pow2(j) <= Pow2(k)
    decreases k
  {
    if j < k {
      Pow2Monotone(j, k - 1);
    } else if 0 < j {
      Pow2Monotone(j - 1, k - 1);
    }
  }

  /** Width left after `k` halvings of `w`. */
  function Halved(w: real, k: nat): real {
    if k == 0 then w else Halved(w, k - 1) / 2.0
  }

  lemma HalvedTimesPow2(w: real, k: nat)
    ensures Halved(w, k) * Pow2(k) == w
  {}

  lemma BracketIsNarrow(w: real)
    requires 0.0 <= w <= Pow2(38)
    ensures 0.0 <= Halved(w, 60) <= FINAL_WIDTH
  {
    HalvedTimesPow2(w, 60);
    PowersNeeded();
    Pow2Monotone(0, 60);
  }

  /** The search. It answers `None` (infinity) exactly when even the largest
      probe falls short; otherwise the answer clears the target and costs at most
      one cent and the final bracket more than any collateral that does. */
  method RequiredCollateral(mark: real, multiplier: int, marginBps: int, inventory: real, target: real)
    returns (r: Option<real>)
    ensures var per := PerContract(mark, multiplier, marginBps);
            && (r.None? <==> Thin(per, LARGEST_PROBE, inventory) < target)
            && (r.Some? ==> target <= Thin(per, r.value, inventory))
            && (r.Some? ==> forall c: real :: 0.0 <= c && target <= Thin(per, c, inventory) ==>
                                                r.value <= c + FINAL_WIDTH + 0.01)
  {
    var per := PerContract(mark, multiplier, marginBps);
    var lo, hi := 0.0, 1.0;
    var k := 0;
    while k < 40 && Thin(per, hi, inventory) < target
      invariant 0 <= k <= 40 && hi == Pow2(k) && lo == (if k == 0 then 0.0 else Pow2(k - 1))
      invariant k == 0 || Thin(per, lo, inventory) < target
    {
      lo, hi := hi, hi * 2.0;
      k := k + 1;
    }
    PowersNeeded();
    if k == 40 {
      return None;
    }
    Pow2Monotone(k, 39);
    ThinMonotone(per, hi, LARGEST_PROBE, inventory);
    ghost var width := hi - lo;
    assert 0.0 <= width <= Pow2(38) by {
      if k > 0 {
        Pow2Monotone(k - 1, 38);
      } else {
        Pow2Monotone(0, 38);
      }
    }
    for j := 0 to 60
      invariant 0.0 <= lo && hi - lo == Halved(width, j)
      invariant target <= Thin(per, hi, inventory)
      invariant lo == 0.0 || Thin(per, lo, inventory) < target
    {
      var mid := (lo + hi) / 2.0;
      if Thin(per, mid, inventory) >= target {
        hi := mid;
      } else {
        lo := mid;
      }
    }
    BracketIsNarrow(width);
    r := Some(Cents(hi + 0.005));
    ThinMonotone(per, hi, r.value, inventory);
    forall c: real | 0.0 <= c && target <= Thin(per, c, inventory)
      ensures r.value <= c + FINAL_WIDTH + 0.01
    {
      if c < lo {
        ThinMonotone(per, c, lo, inventory);
      }
    }
  }

  // --- depth ---

  /** The largest trade a faucet-funded reader can put on. */
  function ReaderTradeSize(per: real): real {
    if per <= 0.0 then 0.0 else Min(MARGIN_SAFETY * FAUCET_USDC / per, MAX_QTY)
  }

  /** Full reader trades the book absorbs before it freezes. */
  function Depth(per: real, collateral: real, inventory: real): real
    requires per > 0.0
  {
    (Cap(collateral, per) - Abs(inventory)) / ReaderTradeSize(per)
  }

  /** Collateral for a cap of `need` contracts, rounded up to the cent or so. */
  function CollateralForCap(per: real, need: real): real {
    Cents(need * per / MARGIN_SAFETY + 0.005)
  }

  function CollateralForDepth(per: real, inventory: real, unit: real, trades: real): real {
    if per <= 0.0 || unit <= 0.0 then 0.0 else CollateralForCap(per, trades * unit + Abs(inventory))
  }

  lemma UnitPositive(per: real)
    requires per > 0.0
    ensures ReaderTradeSize(per) > 0.0
  {}

  lemma CapFormulaSuffices(per: real, need: real, collateral: real)
    requires per > 0.0
    ensures CollateralForCap(per, need) <= collateral ==> need <= Cap(collateral, per)
  {
    if CollateralForCap(per, need) <= collateral {
      CapReaches(collateral, per, need);
    }
  }

  lemma DepthFits(cap: real, inventory: real, trades: real, unit: real)
    requires 0.0 < unit
    ensures trades * unit + Abs(inventory) <= cap ==> trades <= (cap - Abs(inventory)) / unit
  {
    if trades * unit + Abs(inventory) <= cap {
      AtMostQuotient(trades, cap - Abs(inventory), unit);
    }
  }

  lemma DepthReached(per: real, collateral: real, inventory: real, trades: real)
    requires per > 0.0
    ensures CollateralForDepth(per, inventory, ReaderTradeSize(per), trades) <= collateral ==>
              trades <= Depth(per, collateral, inventory)
  {
    var unit := ReaderTradeSize(per);
    UnitPositive(per);
    CapFormulaSuffices(per, trades * unit + Abs(inventory), collateral);
    DepthFits(Cap(collateral, per), inventory, trades, unit);
  }

  /** Depth counts the trades of reader size that fit between inventory and cap. */
  lemma DepthIs(per: real, collateral: real, inventory: real, trades: real)
    requires per > 0.0
    ensures trades <= Depth(per, collateral, inventory)
            <==> Abs(inventory) + trades * ReaderTradeSize(per) <= Cap(collateral, per)
  {
    UnitPositive(per);
    DepthFits(Cap(collateral, per), inventory, trades, ReaderTradeSize(per));
    if trades <= Depth(per, collateral, inventory) {
      DepthNeeds(Cap(collateral, per), inventory, trades, ReaderTradeSize(per));
    }
  }

  /** A reader's trade is, to the cent, what the desk quotes someone flat with a
      faucet drip of half a USDC when the maker does not bind. */
  lemma ReaderTradeIsQuoted(per: real, makerColl: real, maker: real)
    requires per > 0.0 && Cap(0.5, per) <= Cap(makerColl, per) + maker
    ensures Feasible(per, 0.5, 0.0, makerColl, maker).buy == Cents(ReaderTradeSize(per))
  {
    assert Cap(0.5, per) == MARGIN_SAFETY * FAUCET_USDC / per;
    assert 0.0 <= Cap(0.5, per) by { CapIs(0.0, 0.5, per); }
  }

  lemma DepthNeeds(cap: real, inventory: real, trades: real, unit: real)
    requires 0.0 < unit && trades <= (cap - Abs(inventory)) / unit
    ensures trades * unit + Abs(inventory) <= cap
  {
    QuotientAtLeast(trades, cap - Abs(inventory), unit);
  }

  /** What a cap covers costs at most its share of the collateral. */
  lemma CapCosts(need: real, collateral: real, per: real)
    requires per > 0.0 && need <= Cap(collateral, per)
    ensures need * per <= MARGIN_SAFETY * collateral
  {
    CapTimesPer(collateral, per);
    Scaled(need, Cap(collateral, per), per);
  }

  lemma CapFormulaIsTight(per: real, need: real, collateral: real)
    requires per > 0.0 && need <= Cap(collateral, per)
    ensures CollateralForCap(per, need) <= collateral + 0.01
  {
    CapCosts(need, collateral, per);
    ShareAtMost(need * per, collateral);
  }

  lemma ShareAtMost(cost: real, collateral: real)
    requires cost <= MARGIN_SAFETY * collateral
    ensures Cents(cost / MARGIN_SAFETY + 0.005) <= collateral + 0.01
  {}

  /** The formula asks for no more than a cent beyond what the depth needs. */
  lemma DepthFormulaIsTight(per: real, collateral: real, inventory: real, trades: real)
    requires per > 0.0
    ensures trades <= Depth(per, collateral, inventory) ==>
              CollateralForDepth(per, inventory, ReaderTradeSize(per), trades) <= collateral + 0.01
  {
    UnitPositive(per);
    if trades <= Depth(per, collateral, inventory) {
      DepthNeeds(Cap(collateral, per), inventory, trades, ReaderTradeSize(per));
      CapFormulaIsTight(per, trades * ReaderTradeSize(per) + Abs(inventory), collateral);
    }
  }

  lemma QuotientAtLeast(x: real, y: real, k: real)
    requires 0.0 < k && x <= y / k
    ensures x * k <= y
  {
    Scaled(x, y / k, k);
  }

  lemma Scaled(x: real, y: real, k: real)
    requires 0.0 <= k && x <= y
    ensures x * k <= y * k
  {
    assert 0.0 <= (y - x) * k;
  }

  // --- the plan ---

  datatype Plan =
    | AtTarget
    | Unreachable
    | CannotPost(need: real, want: real)
    | Post(amount: real, need: real, want: real)

  /** Both goals the operator set: headroom in contracts and depth in trades. */
  predicate BothGoals(per: real, collateral: real, inventory: real, target: real, trades: real)
    requires per > 0.0
  {
    target <= Thin(per, collateral, inventory) && trades <= Depth(per, collateral, inventory)
  }

  /** `want` meets both goals, and any more does too; it exceeds the collateral that
      any book needs for them by a cent and the search's last bracket at most. */
  ghost predicate JustEnough(per: real, want: real, inventory: real, target: real, trades: real)
    requires per > 0.0
  {
    && (forall c: real :: want <= c ==> BothGoals(per, c, inventory, target, trades))
    && (forall c: real :: 0.0 <= c && BothGoals(per, c, inventory, target, trades) ==> want <= c + FINAL_WIDTH + 0.01)
  }

  /** The need, cut by the run's ceiling and by what the wallet can spare. */
  function Capped(need: real, maxTopUp: real, balance: real, walletFloor: real): real {
    Min(Min(need, maxTopUp), Cents(Max(0.0, balance - walletFloor)))
  }

  /** That is the largest amount within all three. */
  lemma CappedIsLargest(need: real, maxTopUp: real, balance: real, walletFloor: real)
    ensures var amount := Capped(need, maxTopUp, balance, walletFloor);
            var spare := Cents(Max(0.0, balance - walletFloor));
            && amount <= need && amount <= maxTopUp && amount <= spare
            && (amount == need || amount == maxTopUp || amount == spare)
            && (walletFloor <= balance ==> balance - walletFloor - 0.005 <= spare <= balance - walletFloor + 0.005)
            && (balance <= walletFloor ==> spare == 0.0)
  {
    assert Cents(0.0) == 0.0 by { RoundWhole(0); }
  }

  /** From the desk's reads to the amount to post. Nothing is posted exactly when
      the book is at target, the target is out of reach, or less than a cent is
      needed or allowed; what is posted leaves the wallet above its floor, half a
      cent of rounding aside. */
  method PlanTopUp(mark: real, multiplier: int, marginBps: int, posted: real, inventory: real, balance: real,
                   target: real, trades: real, maxTopUp: real, walletFloor: real)
    returns (plan: Plan)
    requires PerContract(mark, multiplier, marginBps) > 0.0
    ensures var per := PerContract(mark, multiplier, marginBps);
            && (plan.AtTarget? <==> BothGoals(per, posted, inventory, target, trades))
            && (plan.Unreachable? <==> !plan.AtTarget? && Thin(per, LARGEST_PROBE, inventory) < target)
            && (plan.CannotPost? || plan.Post? ==>
                  && JustEnough(per, plan.want, inventory, target, trades)
                  && plan.need == Cents(plan.want - posted)
                  && (plan.Post? <==> 0.01 <= Capped(plan.need, maxTopUp, balance, walletFloor)))
            && (plan.Post? ==>
                  && plan.amount == Capped(plan.need, maxTopUp, balance, walletFloor)
                  && plan.amount <= plan.need && plan.amount <= maxTopUp
                  && walletFloor - 0.005 <= balance - plan.amount)
  {
    var per := PerContract(mark, multiplier, marginBps);
    var unit := ReaderTradeSize(per);
    UnitPositive(per);
    if Thin(per, posted, inventory) >= target && Depth(per, posted, inventory) >= trades {
      return AtTarget;
    }
    var required := RequiredCollateral(mark, multiplier, marginBps, inventory, target);
    if required.None? {
      return Unreachable;
    }
    var want := Max(required.value, CollateralForDepth(per, inventory, unit, trades));
    WantIsJustEnough(per, required.value, inventory, target, trades);
    var need := Cents(want - posted);
    var affordable := Cents(Max(0.0, balance - walletFloor));
    var capped := Min(Min(need, maxTopUp), affordable);
    if capped < 0.01 {
      return CannotPost(need, want);
    }
    assert Cents(0.0) == 0.0 by { RoundWhole(0); }
    plan := Post(capped, need, want);
  }

  lemma WantIsJustEnough(per: real, required: real, inventory: real, target: real, trades: real)
    requires per > 0.0 && target <= Thin(per, required, inventory)
    requires forall c: real :: 0.0 <= c && target <= Thin(per, c, inventory) ==> required <= c + FINAL_WIDTH + 0.01
    ensures JustEnough(per, Max(required, CollateralForDepth(per, inventory, ReaderTradeSize(per), trades)),
                       inventory, target, trades)
  {
    var want := Max(required, CollateralForDepth(per, inventory, ReaderTradeSize(per), trades));
    forall c: real | want <= c ensures BothGoals(per, c, inventory, target, trades) {
      ThinMonotone(per, required, c, inventory);
      DepthReached(per, c, inventory, trades);
    }
    forall c: real | 0.0 <= c && BothGoals(per, c, inventory, target, trades)
      ensures want <= c + FINAL_WIDTH + 0.01
    {
      DepthFormulaIsTight(per, c, inventory, trades);
    }
  }

  /** An uncapped top-up reaches `want` (a whole number of cents) exactly when the
      sub-cent part of what is already posted rounds down: `need` is itself
      rounded to the cent, so a larger remainder leaves the book short. */
  lemma NeedReachesWant(wantCents: int, posted: real)
    ensures var want := wantCents as real / 100.0;
            var whole := (100.0 * posted).Floor;
            var part := 100.0 * posted - whole as real;
            want <= posted + Cents(want - posted)
            <==> part < 0.5 || (part == 0.5 && (wantCents - whole) % 2 == 0)
  {
    var want := wantCents as real / 100.0;
    var whole := (100.0 * posted).Floor;
    var part := 100.0 * posted - whole as real;
    var x := 100.0 * (want - posted);
    assert x == (wantCents - whole) as real - part;
    if part == 0.0 {
      RoundWhole(wantCents - whole);
    } else {
      assert x.Floor == wantCents - whole - 1;
    }
  }

  /** A book the plan calls fully funded that is still short of its depth. */
  lemma FullTopUpCanStopShort()
    ensures var per, inventory, posted := 0.9, 0.999, 1.006;
            var want := CollateralForDepth(per, inventory, ReaderTradeSize(per), 4.0);
            want == 3.0 && Depth(per, posted + Cents(want - posted), inventory) < 4.0
  {
    var per, inventory, posted := 0.9, 0.999, 1.006;
    assert ReaderTradeSize(per) == 0.5;
    assert (4.0 * 0.5 + Abs(inventory)) * per / MARGIN_SAFETY + 0.005 == 3.004;
    assert Cents(3.004) == 3.0;
    assert Cents(3.0 - posted) == 1.99;
    assert Cap(2.996, per) == 2.996;
  }
}
