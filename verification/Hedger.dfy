/** The mandate-holding agent: which margin blocks it, how much it may add, what
    it orders, and what it may spend on data. */
module Hedger {
  import opened Rounding
  import opened Desk

  datatype Option<+T> = None | Some(value: T)

  // --- whose margin binds ---

  /** The agent's own term of the raw room, and the maker's. */
  function Mine(want: real, tCap: real, position: real): real {
    if want > 0.0 then tCap - position else tCap + position
  }

  function Theirs(want: real, mCap: real, makerInv: real): real {
    if want > 0.0 then mCap + makerInv else mCap - makerInv
  }

  function RawRoom(want: real, tCap: real, position: real, mCap: real, makerInv: real): real {
    Min(Mine(want, tCap, position), Theirs(want, mCap, makerInv))
  }

  predicate MarginBound(want: real, tCap: real, position: real, mCap: real, makerInv: real) {
    Mine(want, tCap, position) < Theirs(want, mCap, makerInv)
  }

  /** It is the desk's own room, before clamping, on the side the order is on. */
  lemma RawRoomIsDesks(want: real, per: real, mine: real, position: real, makerColl: real, makerInv: real)
    requires per > 0.0
    ensures RawRoom(want, Cap(mine, per), position, Cap(makerColl, per), makerInv)
            == if want > 0.0 then RawBuy(per, mine, position, makerColl, makerInv)
               else RawSell(per, mine, position, makerColl, makerInv)
  {}

  /** The test answers the question it is asked for: more margin of one's own
      makes more room exactly when it says so. */
  lemma MarginBoundIffMarginHelps(want: real, tCap: real, position: real, mCap: real, makerInv: real, extra: real)
    requires extra > 0.0
    ensures MarginBound(want, tCap, position, mCap, makerInv)
            <==> RawRoom(want, tCap, position, mCap, makerInv) < RawRoom(want, tCap + extra, position, mCap, makerInv)
  {}

  // --- the top-up ---

  function NeedCollateral(want: real, position: real, per: real, safety: real): real
    requires safety > 0.0
  {
    (Abs(want) + if want > 0.0 then position else -position) * per / safety
  }

  /** The tighter of the per-tick ceiling and what is left under the total one. */
  function Allowance(posted: real, topUpMax: real, cap: real): real {
    Min(topUpMax, Max(0.0, cap - posted))
  }

  function TopUp(want: real, position: real, per: real, safety: real, posted: real, topUpMax: real, cap: real): real {
    if per <= 0.0 || safety <= 0.0 then 0.0
    else
      var short := NeedCollateral(want, position, per, safety) - posted;
      if short <= 0.0 then 0.0
      else Cents(Min(short + 0.01, Allowance(posted, topUpMax, cap)) + 0.004)
  }

  /** The need is exact: it is the least collateral whose cap covers the order. */
  lemma NeedIsExact(want: real, position: real, per: real, collateral: real)
    requires per > 0.0
    ensures NeedCollateral(want, position, per, 0.9) <= collateral
            <==> Abs(want) <= Mine(want, Cap(collateral, per), position)
  {
    var exposure := Abs(want) + if want > 0.0 then position else -position;
    CapIs(exposure, collateral, per);
    NinthsOf(exposure * per, collateral);
  }

  lemma NinthsOf(x: real, y: real)
    ensures x / 0.9 <= y <==> x <= 0.9 * y
  {}

  /** The amount never exceeds what is short by more than two cents, and keeps both
      ceilings but for rounding: the run's own, and the total posted. */
  lemma TopUpIsTight(want: real, position: real, per: real, safety: real, posted: real, topUpMax: real, cap: real)
    requires per > 0.0 && safety > 0.0
    ensures var add := TopUp(want, position, per, safety, posted, topUpMax, cap);
            && (0.0 < add ==> add <= NeedCollateral(want, position, per, safety) - posted + 0.019)
            && (0.0 <= topUpMax ==> add <= topUpMax + 0.009)
            && (posted <= cap && 0.0 <= topUpMax ==> posted + add <= cap + 0.009)
  {}

  /** When neither ceiling binds, the amount brings the agent's own term up to
      the whole order. */
  lemma TopUpCoversOrder(want: real, position: real, per: real, posted: real, topUpMax: real, cap: real)
    requires per > 0.0
    requires NeedCollateral(want, position, per, MARGIN_SAFETY) - posted + 0.01 <= Allowance(posted, topUpMax, cap)
    ensures var add := TopUp(want, position, per, MARGIN_SAFETY, posted, topUpMax, cap);
            Abs(want) <= Mine(want, Cap(posted + add, per), position)
  {
    var add := TopUp(want, position, per, MARGIN_SAFETY, posted, topUpMax, cap);
    CapReaches(posted + add, per, Abs(want) + if want > 0.0 then position else -position);
  }

  /** ... so a quote still short of the order afterwards is short because of the book. */
  lemma RemainingShortfallIsTheBooks(want: real, position: real, per: real, posted: real, topUpMax: real, cap: real,
                                     makerColl: real, makerInv: real)
    requires per > 0.0
    requires NeedCollateral(want, position, per, MARGIN_SAFETY) - posted + 0.01 <= Allowance(posted, topUpMax, cap)
    ensures var add := TopUp(want, position, per, MARGIN_SAFETY, posted, topUpMax, cap);
            Quote(want, per, posted + add, position, makerColl, makerInv) < Clamp(Abs(want))
            ==> Theirs(want, Cap(makerColl, per), makerInv) < Abs(want)
  {
    TopUpCoversOrder(want, position, per, posted, topUpMax, cap);
    var add := TopUp(want, position, per, MARGIN_SAFETY, posted, topUpMax, cap);
    if Abs(want) <= Theirs(want, Cap(makerColl, per), makerInv) {
      ClampMonotone(Abs(want), RawRoom(want, Cap(posted + add, per), position, Cap(makerColl, per), makerInv));
    }
  }

  /** The rounding can carry the amount past the allowance, never by more than
      0.009, and exactly when the unrounded amount exceeds the allowance's whole
      cents by more than a tenth of a cent (a tie goes to the even cent). */
  lemma TopUpAgainstAllowance(want: real, position: real, per: real, safety: real, posted: real, topUpMax: real,
                              cap: real)
    requires per > 0.0 && safety > 0.0
    requires NeedCollateral(want, position, per, safety) > posted
    ensures var allowed := Allowance(posted, topUpMax, cap);
            var add := TopUp(want, position, per, safety, posted, topUpMax, cap);
            var exact := 100.0 * Min(NeedCollateral(want, position, per, safety) - posted + 0.01, allowed);
            var whole := (100.0 * allowed).Floor;
            && add <= allowed + 0.009
            && (allowed < add <==> exact > whole as real + 0.1 || (exact == whole as real + 0.1 && whole % 2 != 0))
  {
    var allowed := Allowance(posted, topUpMax, cap);
    var m := Min(NeedCollateral(want, position, per, safety) - posted + 0.01, allowed);
    var y := 100.0 * (m + 0.004);
    var whole := (100.0 * allowed).Floor;
    assert y == 100.0 * m + 0.4;
    var n := Round(y);
    assert allowed < Cents(m + 0.004) <==> whole + 1 <= n;
    if y > whole as real + 0.5 {
      assert n as real > whole as real;
    } else if y < whole as real + 0.5 {
      assert n as real <= y + 0.5 < whole as real + 1.0;
    } else {
      assert y.Floor == whole;
    }
  }

  /** Nothing is added exactly when nothing is short or a tenth of a cent or less is allowed. */
  lemma TopUpIsNothing(want: real, position: real, per: real, safety: real, posted: real, topUpMax: real, cap: real)
    requires per > 0.0 && safety > 0.0
    ensures TopUp(want, position, per, safety, posted, topUpMax, cap) <= 0.0
            <==> NeedCollateral(want, position, per, safety) <= posted || Allowance(posted, topUpMax, cap) <= 0.001
  {
    var allowed := Allowance(posted, topUpMax, cap);
    var m := Min(NeedCollateral(want, position, per, safety) - posted + 0.01, allowed);
    var y := 100.0 * (m + 0.004);
    assert y == 100.0 * m + 0.4;
    if y > 0.5 {
      assert Round(y) >= 1;
    } else if y < 0.5 {
      assert Round(y) as real < 1.0;
    } else {
      assert y.Floor == 0;
    }
  }

  // --- one order ---

  function Quote(want: real, per: real, mine: real, position: real, makerColl: real, makerInv: real): real {
    var room := Feasible(per, mine, position, makerColl, makerInv);
    if want > 0.0 then room.buy else room.sell
  }

  /** The cap, none when a contract costs nothing to margin. */
  function CapOf(collateral: real, per: real): real {
    if per > 0.0 then Cap(collateral, per) else 0.0
  }

  datatype Why = BookFull | NothingToAdd | NotShownYet | StillNoRoom

  datatype Sized = Refused(why: Why) | Order(qty: real, posted: real)

  /** The order for a gap, rounded to two places. */
  function OrderFor(want: real, room: real): real {
    Cents(Min(Abs(want), room) * if want > 0.0 then 1.0 else -1.0)
  }

  /** Sizing after all reads: `mineAfter` is the agent's collateral as re-read
      after a top-up. A book-bound order with some room left has no exit of its
      own and goes on to the top-up. */
  function SizeOrder(want: real, position: real, per: real, mine: real, makerColl: real, makerInv: real,
                     topUpMax: real, cap: real, mineAfter: Option<real>): Sized {
    var room := Quote(want, per, mine, position, makerColl, makerInv);
    if room >= Abs(want) then Order(OrderFor(want, room), 0.0)
    else if !MarginBound(want, CapOf(mine, per), position, CapOf(makerColl, per), makerInv) && room <= 0.0 then
      Refused(BookFull)
    else
      var add := TopUp(want, position, per, MARGIN_SAFETY, mine, topUpMax, cap);
      if add <= 0.0 then Refused(NothingToAdd)
      else if mineAfter.None? || mineAfter.value <= mine then Refused(NotShownYet)
      else
        var roomAfter := Quote(want, per, mineAfter.value, position, makerColl, makerInv);
        if roomAfter <= 0.0 then Refused(StillNoRoom)
        else Order(OrderFor(want, roomAfter), add)
  }

  /** A book-bound order with room left is refused, for want of a top-up, exactly
      when the agent's margin already covers it or next to nothing may be added. */
  lemma BookBoundOrderNeedsTopUp(want: real, position: real, per: real, mine: real, makerColl: real, makerInv: real,
                                 topUpMax: real, cap: real, mineAfter: Option<real>)
    requires !MarginBound(want, CapOf(mine, per), position, CapOf(makerColl, per), makerInv)
    requires 0.0 < Quote(want, per, mine, position, makerColl, makerInv) < Abs(want)
    ensures SizeOrder(want, position, per, mine, makerColl, makerInv, topUpMax, cap, mineAfter) == Refused(NothingToAdd)
            <==> NeedCollateral(want, position, per, MARGIN_SAFETY) <= mine || Allowance(mine, topUpMax, cap) <= 0.001
  {
    TopUpIsNothing(want, position, per, MARGIN_SAFETY, mine, topUpMax, cap);
  }

  /** The book quotes a full contract, yet the agent refuses the two it wants. */
  lemma RoomLeftButRefused()
    ensures Quote(2.0, 0.9, 3.0, 0.0, 1.0, 0.0) == 1.0
    ensures SizeOrder(2.0, 0.0, 0.9, 3.0, 1.0, 0.0, 0.5, 3.0, None) == Refused(NothingToAdd)
  {
    assert Cap(3.0, 0.9) == 3.0 && Cap(1.0, 0.9) == 1.0;
    assert Cents(1.0) == 1.0 by { RoundWhole(100); }
    assert NeedCollateral(2.0, 0.0, 0.9, MARGIN_SAFETY) == 2.0;
    TopUpIsNothing(2.0, 0.0, 0.9, MARGIN_SAFETY, 3.0, 0.5, 3.0);
  }

  /** An order points at the target and overshoots the gap by half a cent at most. */
  lemma OrderClosesGap(want: real, room: real)
    requires 0.0 <= room
    ensures var q := OrderFor(want, room);
            && Abs(want - q) <= Max(Abs(want), 0.005)
            && (want > 0.0 ==> 0.0 <= q <= want + 0.005) && (want <= 0.0 ==> want - 0.005 <= q <= 0.0)
  {
    var m := Min(Abs(want), room);
    CentsNegated(m);
    assert m * 1.0 == m && m * -1.0 == -m;
    assert Cents(0.0) == 0.0 by { RoundWhole(0); }
    CentsMonotone(0.0, m);
  }

  /** Its size is the smaller of the gap and the room, to the nearest cent. */
  lemma OrderIsExact(want: real, room: real)
    requires 0.0 <= room
    ensures var q, m := OrderFor(want, room), Min(Abs(want), room);
            m - 0.005 <= Abs(q) <= m + 0.005
  {
    var m := Min(Abs(want), room);
    OrderClosesGap(want, room);
    CentsNegated(m);
    assert m * 1.0 == m && m * -1.0 == -m;
  }

  lemma QuoteInRange(want: real, per: real, mine: real, position: real, makerColl: real, makerInv: real)
    ensures 0.0 <= Quote(want, per, mine, position, makerColl, makerInv) <= MAX_QTY
  {
    if per > 0.0 {
      ClampRange(RawBuy(per, mine, position, makerColl, makerInv));
      ClampRange(RawSell(per, mine, position, makerColl, makerInv));
    }
  }

  // --- data spend ---

  /** What is booked when a payment answer names no amount. */
  const ASSUMED_PRICE := 0.0001

  /** An amount as the payment layer is told it: six decimals. */
  function MaxAmount(x: real): real {
    Round(1000000.0 * x) as real / 1000000.0
  }

  /** How a payment ends: not made; made, but with no answer that could be read
      (a timeout, say); or answered, naming an amount or not. */
  datatype Payment = NotMade | Unanswered(price: real) | Answered(price: real, reported: Option<real>)

  datatype Purchase = Purchase(booked: real, charged: real)

  function BookedFor(reported: Option<real>): real {
    if reported.Some? && reported.value != 0.0 then reported.value else ASSUMED_PRICE
  }

  /** One purchase. The payment layer refuses to charge more than the amount it is told. */
  function BuyThePrint(spendCap: real, spent: real, pay: Payment): Purchase {
    var priceCap := Min(spendCap - spent, spendCap);
    if priceCap <= 0.0 || pay.NotMade? || pay.price > MaxAmount(priceCap) then Purchase(0.0, 0.0)
    else Purchase(if pay.Unanswered? then 0.0 else BookedFor(pay.reported), pay.price)
  }

  /** What a run of purchases books and what it is charged. */
  function Ledger(spendCap: real, pays: seq<Payment>): Purchase {
    if pays == [] then Purchase(0.0, 0.0)
    else
      var l := Ledger(spendCap, pays[..|pays| - 1]);
      var p := BuyThePrint(spendCap, l.booked, pays[|pays| - 1]);
      Purchase(l.booked + p.booked, l.charged + p.charged)
  }

  /** By how much the purchases made were booked below their charge. */
  function Underbooked(spendCap: real, pays: seq<Payment>): real {
    if pays == [] then 0.0
    else
      var before := pays[..|pays| - 1];
      var p := BuyThePrint(spendCap, Ledger(spendCap, before).booked, pays[|pays| - 1]);
      Underbooked(spendCap, before) + Max(0.0, p.charged - p.booked)
  }

  predicate Priced(pays: seq<Payment>) {
    forall k :: 0 <= k < |pays| && !pays[k].NotMade? ==> 0.0 <= pays[k].price
  }

  /** Nothing smaller than one millionth. */
  predicate WholeMicros(x: real) {
    1000000.0 * x == (1000000.0 * x).Floor as real
  }

  predicate BookedInMicros(pays: seq<Payment>) {
    forall k :: 0 <= k < |pays| && pays[k].Answered? ==> WholeMicros(BookedFor(pays[k].reported))
  }

  /** A maximum told in whole millionths is told exactly. */
  lemma MaxAmountExact(x: real)
    ensures x - 0.0000005 <= MaxAmount(x) <= x + 0.0000005
    ensures WholeMicros(x) ==> MaxAmount(x) == x
  {
    if WholeMicros(x) {
      RoundWhole((1000000.0 * x).Floor);
    }
  }

  lemma MaxAmountMonotone(x: real, y: real)
    requires x <= y
    ensures MaxAmount(x) <= MaxAmount(y)
  {
    RoundMonotone(1000000.0 * x, 1000000.0 * y);
  }

  lemma WholeDifference(m: int, n: int)
    ensures (m as real - n as real).Floor == m - n && (m as real + n as real).Floor == m + n
  {
    assert m as real - n as real == (m - n) as real;
    assert m as real + n as real == (m + n) as real;
  }

  lemma WholeMicrosMinus(x: real, y: real)
    requires WholeMicros(x) && WholeMicros(y)
    ensures WholeMicros(x - y) && WholeMicros(x + y)
  {
    WholeDifference((1000000.0 * x).Floor, (1000000.0 * y).Floor);
    assert 1000000.0 * (x - y) == 1000000.0 * x - 1000000.0 * y;
    assert 1000000.0 * (x + y) == 1000000.0 * x + 1000000.0 * y;
  }

  lemma {:induction false} BookedStaysWhole(spendCap: real, pays: seq<Payment>)
    requires BookedInMicros(pays)
    ensures WholeMicros(Ledger(spendCap, pays).booked)
  {
    if pays != [] {
      var before, pay := pays[..|pays| - 1], pays[|pays| - 1];
      BookedStaysWhole(spendCap, before);
      if pay.Answered? {
        WholeMicrosMinus(Ledger(spendCap, before).booked, BookedFor(pay.reported));
      }
    }
  }

  /** What rounding the maximum to six decimals may let through. */
  function MaximumSlack(spendCap: real, pays: seq<Payment>): real {
    if WholeMicros(spendCap) && BookedInMicros(pays) then 0.0 else 0.0000005
  }

  lemma PurchaseWithinMaximum(spendCap: real, pays: seq<Payment>, pay: Payment)
    requires Priced([pay])
    ensures var l := Ledger(spendCap, pays);
            var p := BuyThePrint(spendCap, l.booked, pay);
            0.0 <= p.charged <= Max(0.0, spendCap - l.booked + MaximumSlack(spendCap, pays))
  {
    var l := Ledger(spendCap, pays);
    assert !pay.NotMade? ==> 0.0 <= [pay][0].price;
    MaxAmountExact(Min(spendCap - l.booked, spendCap));
    if WholeMicros(spendCap) && BookedInMicros(pays) {
      BookedStaysWhole(spendCap, pays);
      WholeMicrosMinus(spendCap, l.booked);
    }
  }

  /** Whatever the answers say, the total charged passes the cap by no more than
      purchases were booked below their charge, plus half a millionth that
      whole-millionth amounts do not need. */
  lemma {:induction false} LedgerWithinCap(spendCap: real, pays: seq<Payment>)
    requires Priced(pays)
    ensures var l, under := Ledger(spendCap, pays), Underbooked(spendCap, pays);
            && 0.0 <= l.charged <= l.booked + under && 0.0 <= under
            && l.charged <= Max(0.0, spendCap) + MaximumSlack(spendCap, pays) + under
  {
    if pays != [] {
      var before, pay := pays[..|pays| - 1], pays[|pays| - 1];
      LedgerWithinCap(spendCap, before);
      assert Priced([pay]) && MaximumSlack(spendCap, before) <= MaximumSlack(spendCap, pays);
      PurchaseWithinMaximum(spendCap, before, pay);
    }
  }

  /** Answers that own up to the charge leave nothing underbooked. */
  lemma {:induction false} HonestAnswersBookAll(spendCap: real, pays: seq<Payment>)
    requires Priced(pays)
    requires forall k :: 0 <= k < |pays| ==>
               pays[k].NotMade? || (pays[k].Answered? && pays[k].price <= BookedFor(pays[k].reported))
    ensures Underbooked(spendCap, pays) == 0.0
  {
    if pays != [] {
      HonestAnswersBookAll(spendCap, pays[..|pays| - 1]);
    }
  }

  /** When the payment answer names no amount the cap does not hold: two prints
      at 0.004 are bought under a cap of 0.005. */
  lemma UnreportedPaymentsPassTheCap()
    ensures Ledger(0.005, [Answered(0.004, None), Answered(0.004, None)]).charged == 0.008
  {
    var pay := Answered(0.004, None);
    assert [pay, pay][..1] == [pay] && [pay][..0] == [];
    assert MaxAmount(0.005) == 0.005 by { RoundWhole(5000); assert 1000000.0 * 0.005 == 5000 as real; }
    assert MaxAmount(0.0049) == 0.0049 by { RoundWhole(4900); assert 1000000.0 * 0.0049 == 4900 as real; }
    assert Ledger(0.005, []) == Purchase(0.0, 0.0);
    assert BuyThePrint(0.005, 0.0, pay) == Purchase(ASSUMED_PRICE, 0.004);
    assert Ledger(0.005, [pay]) == Purchase(ASSUMED_PRICE, 0.004);
  }

  // --- when the cap holds ---

  /** Purchases of one price, however they end. */
  predicate AtPrice(pays: seq<Payment>, price: real) {
    forall k :: 0 <= k < |pays| && !pays[k].NotMade? ==> pays[k].price == price
  }

  /** The cost of `n` purchases. */
  function Total(n: nat, price: real): real {
    if n == 0 then 0.0 else Total(n - 1, price) + price
  }

  lemma {:induction false} TotalIsProduct(n: nat, price: real)
    ensures Total(n, price) == n as real * price
  {
    if n > 0 {
      TotalIsProduct(n - 1, price);
      var x := (n - 1) as real;
      assert n as real == x + 1.0;
      assert (x + 1.0) * price == x * price + price;
    }
  }

  lemma {:induction false} TotalMonotone(m: nat, n: nat, price: real)
    requires m <= n && 0.0 <= price
    ensures 0.0 <= Total(m, price) <= Total(n, price)
    decreases n
  {
    if m < n {
      TotalMonotone(m, n - 1, price);
    } else if n > 0 {
      TotalMonotone(m - 1, n - 1, price);
    }
  }

  lemma {:induction false} ChargedAtMost(spendCap: real, pays: seq<Payment>, price: real)
    requires 0.0 < price && AtPrice(pays, price)
    ensures Ledger(spendCap, pays).charged <= Total(|pays|, price)
    ensures price > MaxAmount(spendCap) ==> Ledger(spendCap, pays).charged == 0.0
  {
    if pays != [] {
      var before := pays[..|pays| - 1];
      ChargedAtMost(spendCap, before, price);
      MaxAmountMonotone(Min(spendCap - Ledger(spendCap, before).booked, spendCap), spendCap);
    }
  }

  lemma {:induction false} AllUnanswered(spendCap: real, pays: seq<Payment>, price: real)
    requires 0.0 < price <= MaxAmount(spendCap)
    requires forall k :: 0 <= k < |pays| ==> pays[k] == Unanswered(price)
    ensures Ledger(spendCap, pays) == Purchase(0.0, Total(|pays|, price))
  {
    assert 0.0 < spendCap by { MaxAmountPositive(spendCap); }
    if pays != [] {
      AllUnanswered(spendCap, pays[..|pays| - 1], price);
    }
  }

  lemma MaxAmountPositive(x: real)
    requires 0.0 < MaxAmount(x)
    ensures 0.0 < x
  {
    if x <= 0.0 {
      RoundMonotone(1000000.0 * x, 0.0);
      RoundWhole(0);
    }
  }

  /** With payments that may go unanswered, the cap holds over every run of up to
      `ticks` ticks exactly when the price is above what the payment layer is first
      told, or that many purchases fit under the cap. */
  lemma UnansweredCapIff(spendCap: real, price: real, ticks: nat)
    requires 0.0 < price
    ensures (forall pays :: |pays| <= ticks && AtPrice(pays, price) ==>
               Ledger(spendCap, pays).charged <= Max(0.0, spendCap))
            <==> price > MaxAmount(spendCap) || Total(ticks, price) <= spendCap
  {
    forall pays | |pays| <= ticks && AtPrice(pays, price)
                  && (price > MaxAmount(spendCap) || Total(ticks, price) <= spendCap)
      ensures Ledger(spendCap, pays).charged <= Max(0.0, spendCap)
    {
      ChargedAtMost(spendCap, pays, price);
      TotalMonotone(|pays|, ticks, price);
    }
    if price <= MaxAmount(spendCap) && Total(ticks, price) > spendCap {
      var worst := seq(ticks, _ => Unanswered(price));
      MaxAmountPositive(spendCap);
      AllUnanswered(spendCap, worst, price);
      assert AtPrice(worst, price);
    }
  }

  /** Purchases at given prices, one a tick, however they end. */
  predicate AtPrices(pays: seq<Payment>, prices: seq<real>) {
    |pays| == |prices| && forall k :: 0 <= k < |pays| && !pays[k].NotMade? ==> pays[k].price == prices[k]
  }

  /** The sum of the prices that do not exceed what the payment layer is first told. */
  function Affordable(spendCap: real, prices: seq<real>): real {
    if prices == [] then 0.0
    else
      var p := prices[|prices| - 1];
      Affordable(spendCap, prices[..|prices| - 1]) + if p <= MaxAmount(spendCap) then p else 0.0
  }

  predicate Positive(prices: seq<real>) {
    forall k :: 0 <= k < |prices| ==> 0.0 < prices[k]
  }

  lemma {:induction false} ChargedAtMostAffordable(spendCap: real, pays: seq<Payment>, prices: seq<real>)
    requires AtPrices(pays, prices) && Positive(prices)
    ensures Ledger(spendCap, pays).charged <= Affordable(spendCap, prices)
  {
    if pays != [] {
      var before := pays[..|pays| - 1];
      ChargedAtMostAffordable(spendCap, before, prices[..|pays| - 1]);
      MaxAmountMonotone(Min(spendCap - Ledger(spendCap, before).booked, spendCap), spendCap);
    }
  }

  function Unheard(prices: seq<real>): seq<Payment> {
    seq(|prices|, k requires 0 <= k < |prices| => Unanswered(prices[k]))
  }

  lemma {:induction false} UnheardChargesAll(spendCap: real, prices: seq<real>)
    requires Positive(prices)
    ensures Ledger(spendCap, Unheard(prices)) == Purchase(0.0, Affordable(spendCap, prices))
  {
    if prices != [] {
      var n := |prices| - 1;
      UnheardChargesAll(spendCap, prices[..n]);
      assert Unheard(prices)[..n] == Unheard(prices[..n]);
      if prices[n] <= MaxAmount(spendCap) {
        MaxAmountPositive(spendCap);
      }
    }
  }

  /** With payments that may go unanswered, the cap holds over a run at given prices,
      however its payments end, exactly when the prices the payment layer would let
      through at first fit under it together. */
  lemma PricesCapIff(spendCap: real, prices: seq<real>)
    requires Positive(prices)
    ensures (forall pays :: AtPrices(pays, prices) ==> Ledger(spendCap, pays).charged <= Max(0.0, spendCap))
            <==> Affordable(spendCap, prices) <= Max(0.0, spendCap)
  {
    forall pays | AtPrices(pays, prices) && Affordable(spendCap, prices) <= Max(0.0, spendCap)
      ensures Ledger(spendCap, pays).charged <= Max(0.0, spendCap)
    {
      ChargedAtMostAffordable(spendCap, pays, prices);
    }
    UnheardChargesAll(spendCap, prices);
    assert AtPrices(Unheard(prices), prices);
  }

  /** Purchases of one price whose answers name no amount. */
  predicate Unnamed(pays: seq<Payment>, price: real) {
    forall k :: 0 <= k < |pays| ==>
      pays[k].NotMade? || (pays[k].Answered? && pays[k].price == price
                           && (pays[k].reported.None? || pays[k].reported.value == 0.0))
  }

  /** How many such purchases the payment layer lets through. */
  function NumberBought(spendCap: real, price: real): nat {
    var slack := (MaxAmount(spendCap) - price) / ASSUMED_PRICE;
    if slack < 0.0 then 0 else slack.Floor + 1
  }

  lemma RoundShift(x: real, k: int)
    ensures Round(x - (2 * k) as real) == Round(x) - 2 * k
  {
    var y := x - (2 * k) as real;
    assert y.Floor == x.Floor - 2 * k;
  }

  /** After `bought` purchases the layer lets another through exactly when fewer
      than that number were bought. */
  lemma BuysAnother(spendCap: real, price: real, bought: nat)
    requires 0.0 < price
    ensures var priceCap := Min(spendCap - Total(bought, ASSUMED_PRICE), spendCap);
            0.0 < priceCap && price <= MaxAmount(priceCap) <==> bought < NumberBought(spendCap, price)
  {
    TotalIsProduct(bought, ASSUMED_PRICE);
    var booked := bought as real * ASSUMED_PRICE;
    var priceCap := spendCap - booked;
    assert 1000000.0 * priceCap == 1000000.0 * spendCap - (2 * (50 * bought)) as real;
    RoundShift(1000000.0 * spendCap, 50 * bought);
    assert MaxAmount(priceCap) == MaxAmount(spendCap) - booked;
    var slack := (MaxAmount(spendCap) - price) / ASSUMED_PRICE;
    assert slack * ASSUMED_PRICE == MaxAmount(spendCap) - price;
    assert bought as real <= slack <==> booked <= MaxAmount(spendCap) - price;
    if price <= MaxAmount(priceCap) {
      MaxAmountPositive(priceCap);
    }
  }

  function Fewer(m: nat, n: nat): nat {
    if m < n then m else n
  }

  lemma {:induction false} UnnamedLedger(spendCap: real, pays: seq<Payment>, price: real) returns (bought: nat)
    requires 0.0 < price && Unnamed(pays, price)
    ensures bought <= Fewer(|pays|, NumberBought(spendCap, price))
    ensures (forall k :: 0 <= k < |pays| ==> pays[k].Answered?) ==>
              bought == Fewer(|pays|, NumberBought(spendCap, price))
    ensures Ledger(spendCap, pays) == Purchase(Total(bought, ASSUMED_PRICE), Total(bought, price))
  {
    bought := 0;
    if pays != [] {
      var before := UnnamedLedger(spendCap, pays[..|pays| - 1], price);
      BuysAnother(spendCap, price, before);
      bought := if pays[|pays| - 1].Answered? && before < NumberBought(spendCap, price) then before + 1 else before;
    }
  }

  /** When answers name no amount, the cap holds over every run of up to `ticks`
      ticks exactly when the purchases let through in that many ticks fit under it. */
  lemma UnnamedCapIff(spendCap: real, price: real, ticks: nat)
    requires 0.0 < price
    ensures (forall pays :: |pays| <= ticks && Unnamed(pays, price) ==>
               Ledger(spendCap, pays).charged <= Max(0.0, spendCap))
            <==> Total(Fewer(ticks, NumberBought(spendCap, price)), price) <= Max(0.0, spendCap)
  {
    var most := Fewer(ticks, NumberBought(spendCap, price));
    forall pays | |pays| <= ticks && Unnamed(pays, price) && Total(most, price) <= Max(0.0, spendCap)
      ensures Ledger(spendCap, pays).charged <= Max(0.0, spendCap)
    {
      var bought := UnnamedLedger(spendCap, pays, price);
      TotalMonotone(bought, most, price);
    }
    var worst := seq(ticks, _ => Answered(price, None));
    var bought := UnnamedLedger(spendCap, worst, price);
    assert |worst| <= ticks && Unnamed(worst, price);
  }

  // --- the run ---

  datatype Config = Config(target: real, minTrade: real, positionCap: real, gasFloor: real, spendCap: real,
                           topUpMax: real, collateralCap: real)

  /** What one tick meets. `per` is what a contract costs to margin at the mark
      read in this tick (`None`: no live series or no mark); `seen` is false when
      the position read fails. A trade command may report success or failure
      (`tradeOk`) whether or not its trade lands. */
  datatype Tick = Tick(stop: bool, gas: real, pay: Payment, per: Option<real>, seen: bool, mine: Option<real>,
                       reread: Option<real>, makerColl: Option<real>, makerInv: real, mineAfter: Option<real>,
                       tradeOk: bool, tradeLands: bool)

  function Pays(ticks: seq<Tick>): seq<Payment> {
    seq(|ticks|, k requires 0 <= k < |ticks| => ticks[k].pay)
  }

  datatype Decision = Stop | Hold | Trade(qty: real)

  /** The agent's own collateral, re-read after a first posting when it was empty. */
  function OwnCollateral(t: Tick): Option<real> {
    if t.mine.None? || t.mine.value > 0.0 then t.mine
    else if t.reread.Some? && t.reread.value > 0.0 then t.reread
    else None
  }

  /** Everything after the purchase, from the position the agent believes it holds. */
  function Decide(cfg: Config, position: real, t: Tick): Decision {
    var gap := cfg.target - position;
    var mine := OwnCollateral(t);
    if t.per.None? || t.mine.None? then Stop
    else if Abs(gap) < cfg.minTrade then Hold
    else if Abs(position + gap) > cfg.positionCap || mine.None? || t.makerColl.None? then Stop
    else
      var sized := SizeOrder(gap, position, t.per.value, mine.value, t.makerColl.value, t.makerInv,
                             cfg.topUpMax, cfg.collateralCap, t.mineAfter);
      if sized.Refused? then Stop else Trade(sized.qty)
  }

  /** A failed position read counts as holding nothing. */
  function Believed(position: real, t: Tick): real {
    if t.seen then position else 0.0
  }

  /** An order that closes the gap but for rounding keeps what the mandate asks. */
  lemma ClosingKeepsBounds(target: real, position: real, q: real, cap: real)
    requires Abs(target) <= cap && Abs(target - position - q) <= Max(Abs(target - position), 0.005)
    requires if target > position then 0.0 <= q <= target - position + 0.005
             else target - position - 0.005 <= q <= 0.0
    ensures Abs(target - (position + q)) <= Max(Abs(target - position), 0.005)
    ensures Abs(position + q) <= Max(Abs(position), cap + 0.005)
  {}

  lemma DecidedOrderClosesGap(cfg: Config, position: real, t: Tick)
    ensures var d := Decide(cfg, position, t);
            d.Trade? ==>
              && Abs(cfg.target - (position + d.qty)) <= Max(Abs(cfg.target - position), 0.005)
              && Abs(position + d.qty) <= Max(Abs(position), cfg.positionCap + 0.005)
              && cfg.minTrade <= Abs(cfg.target - position)
  {
    var d, mine := Decide(cfg, position, t), OwnCollateral(t);
    if d.Trade? {
      SizedOrderClosesGap(cfg.target - position, position, t.per.value, mine.value, t.makerColl.value, t.makerInv,
                          cfg.topUpMax, cfg.collateralCap, t.mineAfter);
      ClosingKeepsBounds(cfg.target, position, d.qty, cfg.positionCap);
    }
  }

  /** The kill switch, and the gas floor: a tick that ends the run before it buys. */
  predicate Halts(cfg: Config, t: Tick) {
    t.stop || t.gas < cfg.gasFloor
  }

  /** Where a decision leaves the position, and whether the run goes on from it. */
  function After(position: real, d: Decision, t: Tick): real {
    if d.Trade? && t.tradeLands then position + d.qty else position
  }

  predicate GoesOn(d: Decision, t: Tick) {
    d.Hold? || (d.Trade? && t.tradeOk)
  }

  /** Where the agent stands: its position, what it booked and what it was charged. */
  datatype Standing = Standing(position: real, spent: real, charged: real)

  /** ... after these ticks, decided so. */
  function Stand(cfg: Config, start: real, ticks: seq<Tick>, ds: seq<Decision>): Standing
    requires |ds| == |ticks|
  {
    if ticks == [] then Standing(start, 0.0, 0.0)
    else
      var n := |ticks| - 1;
      var s := Stand(cfg, start, ticks[..n], ds[..n]);
      var bought := BuyThePrint(cfg.spendCap, s.spent, ticks[n].pay);
      Standing(After(s.position, ds[n], ticks[n]), s.spent + bought.booked, s.charged + bought.charged)
  }

  /** Decision `k` is what the agent decides from where it believes it stands. */
  predicate DecidedAt(cfg: Config, start: real, ticks: seq<Tick>, ds: seq<Decision>, k: nat)
    requires |ds| == |ticks| && k < |ticks|
  {
    ds[k] == Decide(cfg, Believed(Stand(cfg, start, ticks[..k], ds[..k]).position, ticks[k]), ticks[k])
  }

  /** Every decision is the agent's own, no tick halts it, and none but the last ends it. */
  predicate IsRun(cfg: Config, start: real, ticks: seq<Tick>, ds: seq<Decision>) {
    && |ds| == |ticks|
    && (forall k: nat :: k < |ticks| ==> DecidedAt(cfg, start, ticks, ds, k))
    && (forall k :: 0 <= k < |ticks| ==> !Halts(cfg, ticks[k]))
    && (forall k :: 0 <= k < |ticks| - 1 ==> GoesOn(ds[k], ticks[k]))
  }

  /** The agent's loop, when only its own fills move its position. It takes its ticks
      one by one until one halts it or ends it, and no further. The books and the
      charges are the ledger of the purchases made on the way, and the position
      bounds hold as long as the position can be read. */
  method Run(cfg: Config, start: real, ticks: seq<Tick>, once: bool)
    returns (position: real, spent: real, charged: real, ghost ds: seq<Decision>)
    ensures |ds| <= |ticks| && (once ==> |ds| <= 1) && IsRun(cfg, start, ticks[..|ds|], ds)
    ensures Standing(position, spent, charged) == Stand(cfg, start, ticks[..|ds|], ds)
    ensures forall k :: 0 <= k < |ds| ==> !ticks[k].stop && cfg.gasFloor <= ticks[k].gas
    ensures |ds| < |ticks| && (once ==> ds == []) ==>
              || ticks[|ds|].stop || ticks[|ds|].gas < cfg.gasFloor
              || (ds != [] && (ds[|ds| - 1].Stop? || (ds[|ds| - 1].Trade? && !ticks[|ds| - 1].tradeOk)))
    ensures (forall t :: t in ticks ==> t.seen) ==> KeptToMandate(cfg, start, position)
    ensures var pays := Pays(ticks[..|ds|]);
            && Purchase(spent, charged) == Ledger(cfg.spendCap, pays)
            && (Priced(pays) ==>
                  charged <= Max(0.0, cfg.spendCap) + MaximumSlack(cfg.spendCap, pays)
                             + Underbooked(cfg.spendCap, pays))
  {
    var s;
    s, ds := TakeTicks(cfg, start, ticks, if once && |ticks| > 1 then 1 else |ticks|);
    position, spent, charged := s.position, s.spent, s.charged;
    assert forall k :: 0 <= k < |ds| ==> ticks[..|ds|][k] == ticks[k] && !Halts(cfg, ticks[k]);
    StandIsLedger(cfg, start, ticks[..|ds|], ds);
    if forall t :: t in ticks ==> t.seen {
      StandKeepsMandate(cfg, start, ticks[..|ds|], ds);
    }
  }

  /** The loop over at most `most` ticks. */
  method TakeTicks(cfg: Config, start: real, ticks: seq<Tick>, most: nat)
    returns (s: Standing, ghost ds: seq<Decision>)
    requires most <= |ticks|
    ensures |ds| <= most && IsRun(cfg, start, ticks[..|ds|], ds) && s == Stand(cfg, start, ticks[..|ds|], ds)
    ensures |ds| < most ==>
              Halts(cfg, ticks[|ds|]) || (ds != [] && !GoesOn(ds[|ds| - 1], ticks[|ds| - 1]))
  {
    s, ds := Standing(start, 0.0, 0.0), [];
    ghost var taken := [];
    for k := 0 to most
      invariant |ds| == k && taken == ticks[..k] && IsRun(cfg, start, taken, ds)
      invariant s == Stand(cfg, start, taken, ds)
      invariant forall j :: 0 <= j < k ==> GoesOn(ds[j], ticks[j])
    {
      var t := ticks[k];
      if t.stop || t.gas < cfg.gasFloor {
        break;
      }
      var d;
      d, s := TakeTick(cfg, start, taken, ds, s, t);
      taken, ds := taken + [t], ds + [d];
      assert taken == ticks[..k + 1];
      if d.Stop? || (d.Trade? && !t.tradeOk) {
        break;
      }
    }
  }

  /** One tick past its guards: buy, then hold, refuse and stop, or trade. */
  method TakeTick(cfg: Config, ghost start: real, ghost ticks: seq<Tick>, ghost ds: seq<Decision>, s: Standing, t: Tick)
    returns (d: Decision, after: Standing)
    requires IsRun(cfg, start, ticks, ds) && s == Stand(cfg, start, ticks, ds) && !Halts(cfg, t)
    requires forall k :: 0 <= k < |ticks| ==> GoesOn(ds[k], ticks[k])
    ensures IsRun(cfg, start, ticks + [t], ds + [d]) && after == Stand(cfg, start, ticks + [t], ds + [d])
  {
    d := Decide(cfg, Believed(s.position, t), t);
    var bought := BuyThePrint(cfg.spendCap, s.spent, t.pay);
    after := Standing(After(s.position, d, t), s.spent + bought.booked, s.charged + bought.charged);
    OneMoreTick(cfg, start, ticks, ds, t, d);
  }

  lemma OneMoreTick(cfg: Config, start: real, ticks: seq<Tick>, ds: seq<Decision>, t: Tick, d: Decision)
    requires IsRun(cfg, start, ticks, ds) && !Halts(cfg, t)
    requires forall k :: 0 <= k < |ticks| ==> GoesOn(ds[k], ticks[k])
    requires d == Decide(cfg, Believed(Stand(cfg, start, ticks, ds).position, t), t)
    ensures IsRun(cfg, start, ticks + [t], ds + [d])
    ensures (ticks + [t])[..|ticks|] == ticks && (ds + [d])[..|ds|] == ds
  {
    var n, ts, es := |ticks|, ticks + [t], ds + [d];
    assert ts[..n] == ticks && es[..n] == ds;
    forall k: nat | k < |ts| ensures DecidedAt(cfg, start, ts, es, k) {
      assert k < n ==> ts[..k] == ticks[..k] && es[..k] == ds[..k] && DecidedAt(cfg, start, ticks, ds, k);
    }
  }

  lemma {:induction false} StandIsLedger(cfg: Config, start: real, ticks: seq<Tick>, ds: seq<Decision>)
    requires |ds| == |ticks|
    ensures var s, pays := Stand(cfg, start, ticks, ds), Pays(ticks);
            && Purchase(s.spent, s.charged) == Ledger(cfg.spendCap, pays)
            && (Priced(pays) ==>
                  s.charged <= Max(0.0, cfg.spendCap) + MaximumSlack(cfg.spendCap, pays)
                               + Underbooked(cfg.spendCap, pays))
  {
    if ticks != [] {
      var n := |ticks| - 1;
      StandIsLedger(cfg, start, ticks[..n], ds[..n]);
      assert Pays(ticks)[..n] == Pays(ticks[..n]);
    }
    if Priced(Pays(ticks)) {
      LedgerWithinCap(cfg.spendCap, Pays(ticks));
    }
  }

  lemma StartsAgain(cfg: Config, start: real, ticks: seq<Tick>, ds: seq<Decision>, n: nat)
    requires IsRun(cfg, start, ticks, ds) && n <= |ticks|
    ensures IsRun(cfg, start, ticks[..n], ds[..n])
  {
    forall k: nat | k < n ensures DecidedAt(cfg, start, ticks[..n], ds[..n], k) {
      assert ticks[..n][..k] == ticks[..k] && ds[..n][..k] == ds[..k];
      assert DecidedAt(cfg, start, ticks, ds, k);
    }
  }

  lemma {:induction false} StandKeepsMandate(cfg: Config, start: real, ticks: seq<Tick>, ds: seq<Decision>)
    requires IsRun(cfg, start, ticks, ds) && forall t :: t in ticks ==> t.seen
    ensures KeptToMandate(cfg, start, Stand(cfg, start, ticks, ds).position)
  {
    if ticks != [] {
      var n := |ticks| - 1;
      StartsAgain(cfg, start, ticks, ds, n);
      StandKeepsMandate(cfg, start, ticks[..n], ds[..n]);
      assert DecidedAt(cfg, start, ticks, ds, n) && ticks[n] in ticks;
      DecidedOrderKeepsMandate(cfg, start, Stand(cfg, start, ticks[..n], ds[..n]).position, ticks[n]);
    }
  }

  /** The agent holds exactly when it can read the mark and its collateral and is
      within the minimum trade of the target; it trades only beyond that and never
      for a target outside its cap. */
  lemma HoldsIff(cfg: Config, position: real, t: Tick)
    ensures Decide(cfg, position, t).Hold?
            <==> t.per.Some? && t.mine.Some? && Abs(cfg.target - position) < cfg.minTrade
    ensures Decide(cfg, position, t).Trade? ==>
              cfg.minTrade <= Abs(cfg.target - position) && Abs(cfg.target) <= cfg.positionCap
  {}

  /** With nothing posted yet, the agent decides by what it reads after posting; a
      venue that still shows nothing stops it, unless it would hold anyway. */
  lemma FirstPostingIsReread(cfg: Config, position: real, t: Tick)
    requires t.per.Some? && t.mine.Some? && t.mine.value <= 0.0
    ensures t.reread.Some? && t.reread.value > 0.0 ==>
              Decide(cfg, position, t) == Decide(cfg, position, t.(mine := t.reread))
    ensures (t.reread.None? || t.reread.value <= 0.0) && cfg.minTrade <= Abs(cfg.target - position) ==>
              Decide(cfg, position, t).Stop?
  {}

  /** Everything read and room for the whole gap: the agent asks for all of it, and
      the fill leaves it within half a cent of the target. */
  lemma RoomReachesTarget(cfg: Config, position: real, t: Tick)
    requires t.per.Some? && t.mine.Some? && t.mine.value > 0.0 && t.makerColl.Some?
    requires cfg.minTrade <= Abs(cfg.target - position) && Abs(cfg.target) <= cfg.positionCap
    requires Abs(cfg.target - position)
             <= Quote(cfg.target - position, t.per.value, t.mine.value, position, t.makerColl.value, t.makerInv)
    ensures Decide(cfg, position, t).Trade?
    ensures t.tradeLands ==> Abs(cfg.target - After(position, Decide(cfg, position, t), t)) <= 0.005
  {
    var gap := cfg.target - position;
    var room := Quote(gap, t.per.value, t.mine.value, position, t.makerColl.value, t.makerInv);
    OrderIsExact(gap, room);
    OrderClosesGap(gap, room);
  }

  /** Short of room, the agent asks for what a top-up, once shown, makes room for. */
  lemma ToppedUpOrderIsExact(want: real, position: real, per: real, mine: real, makerColl: real, makerInv: real,
                             topUpMax: real, cap: real, mineAfter: Option<real>)
    ensures var s := SizeOrder(want, position, per, mine, makerColl, makerInv, topUpMax, cap, mineAfter);
            s.Order? ==>
              var shown := if s.posted == 0.0 then mine else mineAfter.value;
              var m := Min(Abs(want), Quote(want, per, shown, position, makerColl, makerInv));
              && (s.posted == 0.0 <==> Abs(want) <= Quote(want, per, mine, position, makerColl, makerInv))
              && (s.posted != 0.0 ==>
                    mineAfter.Some? && mine < mineAfter.value
                    && 0.0 < Quote(want, per, mineAfter.value, position, makerColl, makerInv))
              && m - 0.005 <= Abs(s.qty) <= m + 0.005
  {
    QuoteInRange(want, per, mine, position, makerColl, makerInv);
    OrderIsExact(want, Quote(want, per, mine, position, makerColl, makerInv));
    if mineAfter.Some? {
      QuoteInRange(want, per, mineAfter.value, position, makerColl, makerInv);
      OrderIsExact(want, Quote(want, per, mineAfter.value, position, makerColl, makerInv));
    }
  }

  lemma DecidedOrderKeepsMandate(cfg: Config, start: real, position: real, t: Tick)
    requires KeptToMandate(cfg, start, position)
    ensures var d := Decide(cfg, position, t); d.Trade? ==> KeptToMandate(cfg, start, position + d.qty)
  {
    DecidedOrderClosesGap(cfg, position, t);
  }

  /** No further from the target than at the start, inside the cap once inside,
      and untouched when the start was close enough; half a cent aside. */
  predicate KeptToMandate(cfg: Config, start: real, position: real) {
    && Abs(cfg.target - position) <= Max(Abs(cfg.target - start), 0.005)
    && Abs(position) <= Max(Abs(start), cfg.positionCap + 0.005)
    && (Abs(cfg.target - start) < cfg.minTrade ==> position == start)
  }

  lemma SizedOrderClosesGap(want: real, position: real, per: real, mine: real, makerColl: real, makerInv: real,
                            topUpMax: real, cap: real, mineAfter: Option<real>)
    ensures var s := SizeOrder(want, position, per, mine, makerColl, makerInv, topUpMax, cap, mineAfter);
            s.Order? ==>
              && Abs(want - s.qty) <= Max(Abs(want), 0.005)
              && (want > 0.0 ==> 0.0 <= s.qty <= want + 0.005) && (want <= 0.0 ==> want - 0.005 <= s.qty <= 0.0)
  {
    var room := Quote(want, per, mine, position, makerColl, makerInv);
    QuoteInRange(want, per, mine, position, makerColl, makerInv);
    OrderClosesGap(want, room);
    if mineAfter.Some? {
      QuoteInRange(want, per, mineAfter.value, position, makerColl, makerInv);
      OrderClosesGap(want, Quote(want, per, mineAfter.value, position, makerColl, makerInv));
    }
  }

  // --- when the position cannot be read ---

  /** The largest order, signed, that a tick sends when it takes an unreadable
      position for flat. A target beyond the desk's quote needs a top-up first. */
  function BlindOrder(cfg: Config): real {
    if Abs(cfg.target) < cfg.minTrade || Abs(cfg.target) > cfg.positionCap then 0.0
    else if Abs(cfg.target) > MAX_QTY && (cfg.topUpMax <= 0.001 || cfg.collateralCap <= 0.001) then 0.0
    else OrderFor(cfg.target, MAX_QTY)
  }

  lemma OrderIsSigned(want: real, room: real)
    ensures OrderFor(want, room) == if want > 0.0 then Cents(Min(Abs(want), room)) else -Cents(Min(Abs(want), room))
  {
    var m := Min(Abs(want), room);
    CentsNegated(m);
    assert m * 1.0 == m && m * -1.0 == -m;
  }

  lemma OrderGrowsWithRoom(want: real, room: real, more: real)
    requires 0.0 <= room <= more
    ensures want > 0.0 ==> 0.0 <= OrderFor(want, room) <= OrderFor(want, more)
    ensures want <= 0.0 ==> OrderFor(want, more) <= OrderFor(want, room) <= 0.0
  {
    OrderIsSigned(want, room);
    OrderIsSigned(want, more);
    assert Cents(0.0) == 0.0 by { RoundWhole(0); }
    CentsMonotone(0.0, Min(Abs(want), room));
    CentsMonotone(Min(Abs(want), room), Min(Abs(want), more));
  }

  /** No blind tick orders more than that, nor the other way. */
  lemma BlindOrderIsLargest(cfg: Config, t: Tick)
    ensures var d := Decide(cfg, 0.0, t);
            d.Trade? ==> (cfg.target > 0.0 ==> 0.0 <= d.qty <= BlindOrder(cfg))
                         && (cfg.target <= 0.0 ==> BlindOrder(cfg) <= d.qty <= 0.0)
  {
    var want, mine := cfg.target, OwnCollateral(t);
    if Decide(cfg, 0.0, t).Trade? {
      var per, maker := t.per.value, t.makerColl.value;
      QuoteInRange(want, per, mine.value, 0.0, maker, t.makerInv);
      OrderGrowsWithRoom(want, Quote(want, per, mine.value, 0.0, maker, t.makerInv), MAX_QTY);
      if t.mineAfter.Some? {
        QuoteInRange(want, per, t.mineAfter.value, 0.0, maker, t.makerInv);
        OrderGrowsWithRoom(want, Quote(want, per, t.mineAfter.value, 0.0, maker, t.makerInv), MAX_QTY);
      }
      if per > 0.0 {
        TopUpIsNothing(want, 0.0, per, MARGIN_SAFETY, mine.value, cfg.topUpMax, cfg.collateralCap);
      }
    }
  }

  /** A tick in which nothing can be read of the position and both sides hold
      plenty, the agent's own share of it only after a top-up. */
  function Plenty(cfg: Config): Tick {
    var own := if Abs(cfg.target) <= MAX_QTY then 200.0 else Min(1.0, (cfg.collateralCap - 0.001) / 2.0);
    Tick(false, cfg.gasFloor, NotMade, Some(1.0), false, Some(own), None, Some(200.0), 0.0, Some(200.0), true, true)
  }

  lemma QuoteOfPlenty(want: real, mine: real)
    requires mine == 200.0
    ensures Quote(want, 1.0, mine, 0.0, 200.0, 0.0) == MAX_QTY
  {
    assert Cap(200.0, 1.0) == 180.0;
    assert Cents(MAX_QTY) == MAX_QTY by { RoundWhole(200); }
  }

  lemma BlindOrderIsSent(cfg: Config)
    requires BlindOrder(cfg) != 0.0
    ensures Decide(cfg, 0.0, Plenty(cfg)) == Trade(BlindOrder(cfg))
  {
    var t, want := Plenty(cfg), cfg.target;
    QuoteOfPlenty(want, 200.0);
    if Abs(want) > MAX_QTY {
      var own := t.mine.value;
      assert 0.0 < own <= 1.0;
      assert Cap(own, 1.0) == MARGIN_SAFETY * own && Cap(200.0, 1.0) == 180.0;
      QuoteBelow(want, own);
      assert NeedCollateral(want, 0.0, 1.0, MARGIN_SAFETY) >= Abs(want);
      assert Allowance(own, cfg.topUpMax, cfg.collateralCap) > 0.001;
      TopUpIsNothing(want, 0.0, 1.0, MARGIN_SAFETY, own, cfg.topUpMax, cfg.collateralCap);
    } else {
      assert OrderFor(want, MAX_QTY) == OrderFor(want, Abs(want));
    }
  }

  lemma QuoteBelow(want: real, own: real)
    requires 0.0 < own <= 1.0
    ensures Quote(want, 1.0, own, 0.0, 200.0, 0.0) <= 1.0
  {
    assert Cap(own, 1.0) == MARGIN_SAFETY * own && Cap(200.0, 1.0) == 180.0;
    ClampMonotone(MARGIN_SAFETY * own, 1.0);
    assert Cents(1.0) == 1.0 by { RoundWhole(100); }
  }

  /** From a position inside the cap, a tick that cannot read it stays inside the
      cap, whatever else it meets, exactly when the position has room for the
      largest order the mandate could send from flat. */
  lemma BlindTickKeepsCapIff(cfg: Config, position: real)
    requires Abs(position) <= cfg.positionCap
    ensures (forall t: Tick :: !t.seen && Decide(cfg, Believed(position, t), t).Trade? ==>
               Abs(position + Decide(cfg, Believed(position, t), t).qty) <= cfg.positionCap)
            <==> Abs(position + BlindOrder(cfg)) <= cfg.positionCap
  {
    forall t: Tick | !t.seen && Decide(cfg, Believed(position, t), t).Trade?
                     && Abs(position + BlindOrder(cfg)) <= cfg.positionCap
      ensures Abs(position + Decide(cfg, Believed(position, t), t).qty) <= cfg.positionCap
    {
      BlindOrderIsLargest(cfg, t);
    }
    if BlindOrder(cfg) != 0.0 {
      BlindOrderIsSent(cfg);
      assert Believed(position, Plenty(cfg)) == 0.0;
    }
  }

  /** From any position, such a tick moves no further from the target, rounding
      aside, exactly when that largest order does not. */
  lemma BlindTickKeepsTargetIff(cfg: Config, position: real)
    ensures var bound := Max(Abs(cfg.target - position), 0.005);
            (forall t: Tick :: !t.seen && Decide(cfg, Believed(position, t), t).Trade? ==>
               Abs(cfg.target - (position + Decide(cfg, Believed(position, t), t).qty)) <= bound)
            <==> Abs(cfg.target - (position + BlindOrder(cfg))) <= bound
  {
    var bound := Max(Abs(cfg.target - position), 0.005);
    forall t: Tick | !t.seen && Decide(cfg, Believed(position, t), t).Trade?
                     && Abs(cfg.target - (position + BlindOrder(cfg))) <= bound
      ensures Abs(cfg.target - (position + Decide(cfg, Believed(position, t), t).qty)) <= bound
    {
      BlindOrderIsLargest(cfg, t);
    }
    if BlindOrder(cfg) != 0.0 {
      BlindOrderIsSent(cfg);
      assert Believed(position, Plenty(cfg)) == 0.0;
    }
  }
}
