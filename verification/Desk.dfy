/** The desk's margin arithmetic: what one contract costs to margin, and how much
    room the taker's and the maker's collateral leave on each side. */
module Desk {
  import opened Rounding

  const MARGIN_SAFETY := 0.9
  const MAX_QTY := 2.0
  const FAUCET_USDC := 0.5

  function PerContract(mark: real, multiplier: int, marginBps: int): real {
    mark * multiplier as real * (marginBps as real / 10000.0)
  }

  /** Contracts that `collateral` margins at the desk's safety factor. */
  function Cap(collateral: real, per: real): real
    requires per > 0.0
  {
    MARGIN_SAFETY * collateral / per
  }

  function Clamp(x: real): real {
    Cents(Max(0.0, Min(MAX_QTY, x)))
  }

  datatype Room = Room(buy: real, sell: real)

  function RawBuy(per: real, takerColl: real, taker: real, makerColl: real, maker: real): real
    requires per > 0.0
  {
    Min(Cap(takerColl, per) - taker, Cap(makerColl, per) + maker)
  }

  function RawSell(per: real, takerColl: real, taker: real, makerColl: real, maker: real): real
    requires per > 0.0
  {
    Min(Cap(takerColl, per) + taker, Cap(makerColl, per) - maker)
  }

  /** `feasible_qty`: the largest buy and the largest sell quoted. */
  function Feasible(per: real, takerColl: real, taker: real, makerColl: real, maker: real): Room {
    if per <= 0.0 then Room(0.0, 0.0)
    else Room(Clamp(RawBuy(per, takerColl, taker, makerColl, maker)),
              Clamp(RawSell(per, takerColl, taker, makerColl, maker)))
  }

  /** What a contract costs at the venue: its mark, and the series' constants. */
  datatype Terms = Terms(mark: real, multiplier: nat, marginBps: nat)

  function Per(t: Terms): real {
    PerContract(t.mark, t.multiplier, t.marginBps)
  }

  /** The venue's requirement for a position, in millionths of a USDC; both of its
      divisions round down. */
  function Requirement(position: real, t: Terms): int {
    (1000000.0 * (Abs(position) * (t.mark * t.multiplier as real))).Floor * t.marginBps / 10000
  }

  /** The venue's own check after a fill. */
  predicate VenueAccepts(collateral: real, t: Terms, position: real) {
    Requirement(position, t) as real <= 1000000.0 * collateral
  }

  lemma FloorOfShare(x: real, bps: nat)
    ensures (x.Floor * bps / 10000) as real <= x * (bps as real / 10000.0)
  {
    var q := x.Floor * bps / 10000;
    assert 10000 * q <= x.Floor * bps;
    assert (10000 * q) as real <= (x.Floor * bps) as real;
    Product(x.Floor, bps, x.Floor * bps);
    assert 0.0 <= (x - x.Floor as real) * bps as real;
    assert (x - x.Floor as real) * bps as real == x * bps as real - x.Floor as real * bps as real;
    assert x * (bps as real / 10000.0) == x * bps as real / 10000.0;
  }

  lemma Product(m: int, n: int, product: int)
    requires product == m * n
    ensures product as real == m as real * n as real
  {}

  lemma Regroup(p: real, unit: real, share: real, whole: real)
    requires p * (unit * share) <= whole
    ensures 1000000.0 * (p * unit) * share <= 1000000.0 * whole
  {
    var x, y := p * unit, p * (unit * share);
    assert x * share == y;
    assert (1000000.0 * x) * share == 1000000.0 * (x * share);
  }

  /** Rounding down only ever accepts more than the unrounded requirement. */
  lemma RequirementAtMost(collateral: real, position: real, t: Terms)
    requires Abs(position) * Per(t) <= collateral
    ensures VenueAccepts(collateral, t, position)
  {
    var unit, share := t.mark * t.multiplier as real, t.marginBps as real / 10000.0;
    var p := Abs(position);
    assert p * (unit * share) <= collateral;
    Regroup(p, unit, share, collateral);
    FloorOfShare(1000000.0 * (p * unit), t.marginBps);
    assert 1000000.0 * (p * unit) * share <= 1000000.0 * collateral;
  }

  /** ... by less than two millionths of a USDC at a margin rate up to 100%. */
  lemma RequirementAtLeast(position: real, t: Terms)
    requires t.marginBps <= 10000
    ensures 1000000.0 * (Abs(position) * (t.mark * t.multiplier as real)) * (t.marginBps as real / 10000.0)
            < Requirement(position, t) as real + 2.0
  {
    var x := 1000000.0 * (Abs(position) * (t.mark * t.multiplier as real));
    ShareOfFloor(x, t.marginBps);
  }

  lemma ScaledUp(x: real, y: real, b: real)
    requires x <= y && 0.0 <= b
    ensures x * b <= y * b
  {
    assert 0.0 <= (y - x) * b;
  }

  lemma ScaledUpStrictly(x: real, y: real, b: real)
    requires x < y && 0.0 < b
    ensures x * b < y * b
  {
    assert 0.0 < (y - x) * b;
  }

  lemma TenThousandths(x: real, b: real, bound: real)
    requires x * b <= bound
    ensures x * (b / 10000.0) <= bound / 10000.0
  {
    assert x * (b / 10000.0) == x * b / 10000.0;
  }

  lemma BelowNext(x: real, next: int, bps: nat, whole: int)
    requires x <= next as real && whole == next * bps
    ensures x * bps as real <= whole as real
  {
    Product(next, bps, whole);
    ScaledUp(x, next as real, bps as real);
  }

  lemma ShareOfFloor(x: real, bps: nat)
    requires bps <= 10000
    ensures x * (bps as real / 10000.0) < (x.Floor * bps / 10000) as real + 2.0
  {
    var m := x.Floor;
    var whole := (m + 1) * bps;
    BelowNext(x, m + 1, bps, whole);
    assert whole == m * bps + bps;
    TenThousandths(x, bps as real, whole as real);
    Spill(m * bps, bps);
  }

  lemma Spill(n: int, bps: nat)
    requires bps <= 10000
    ensures (n + bps) as real / 10000.0 < (n / 10000) as real + 2.0
  {}

  lemma CapTimesPer(collateral: real, per: real)
    requires per > 0.0
    ensures Cap(collateral, per) * per == MARGIN_SAFETY * collateral
  {}

  lemma Cancel(d: real, k: real)
    requires 0.0 < k && 0.0 <= d * k
    ensures 0.0 <= d
  {}

  lemma AtMostQuotient(x: real, y: real, k: real)
    requires 0.0 < k && x * k <= y
    ensures x <= y / k
  {
    var q := y / k;
    assert q * k == y;
    assert (q - x) * k == q * k - x * k;
    Cancel(q - x, k);
  }

  lemma CapMonotone(a: real, b: real, per: real)
    requires per > 0.0 && a <= b
    ensures Cap(a, per) <= Cap(b, per)
  {
    CapTimesPer(a, per);
    AtMostQuotient(Cap(a, per), MARGIN_SAFETY * b, per);
  }

  /** Collateral worth `need` contracts raises the cap to `need`. */
  lemma CapReaches(collateral: real, per: real, need: real)
    requires per > 0.0 && need * per / MARGIN_SAFETY <= collateral
    ensures need <= Cap(collateral, per)
  {
    AtMostQuotient(need, MARGIN_SAFETY * collateral, per);
  }

  lemma ClampMonotone(x: real, y: real)
    requires x <= y
    ensures Clamp(x) <= Clamp(y)
  {
    CentsMonotone(Max(0.0, Min(MAX_QTY, x)), Max(0.0, Min(MAX_QTY, y)));
  }

  /** Inside the range a quote is the nearest whole cent, and it stops at the ends. */
  lemma ClampIsNearest(x: real)
    ensures 0.0 <= x <= 2.0 ==> x - 0.005 <= Clamp(x) <= x + 0.005
    ensures x <= 0.0 ==> Clamp(x) == 0.0
    ensures x >= 2.0 ==> Clamp(x) == 2.0
  {
    assert Cents(2.0) == 2.0 by { RoundWhole(200); }
    assert Cents(0.0) == 0.0 by { RoundWhole(0); }
  }

  /** The cap: what the collateral margins at nine tenths of its worth. */
  lemma CapIs(exposure: real, collateral: real, per: real)
    requires per > 0.0
    ensures exposure <= Cap(collateral, per) <==> exposure * per <= 0.9 * collateral
  {
    var cap := Cap(collateral, per);
    CapTimesPer(collateral, per);
    if exposure <= cap {
      ScaledUp(exposure, cap, per);
    } else {
      ScaledUpStrictly(cap, exposure, per);
    }
  }

  /** The quoted buy is the largest there is, to the nearest cent and up to two
      contracts: every smaller one leaves taker and maker within their caps, and
      none that does is larger. A contract that costs nothing has no quote. */
  lemma BuyQuoteIsLargest(per: real, takerColl: real, taker: real, makerColl: real, maker: real, q: real)
    ensures per <= 0.0 ==> Feasible(per, takerColl, taker, makerColl, maker) == Room(0.0, 0.0)
    ensures per > 0.0 && 0.0 <= q <= 2.0 && taker + q <= Cap(takerColl, per) && -(maker - q) <= Cap(makerColl, per) ==>
              q <= Feasible(per, takerColl, taker, makerColl, maker).buy + 0.005
    ensures per > 0.0 && 0.0 <= q && q + 0.005 <= Feasible(per, takerColl, taker, makerColl, maker).buy ==>
              q <= 2.0 && taker + q <= Cap(takerColl, per) && -(maker - q) <= Cap(makerColl, per)
  {
    if per > 0.0 {
      QuoteIsNearest(RawBuy(per, takerColl, taker, makerColl, maker), q);
    }
  }

  /** So is the quoted sell, on the other side of both. */
  lemma SellQuoteIsLargest(per: real, takerColl: real, taker: real, makerColl: real, maker: real, q: real)
    ensures per > 0.0 && 0.0 <= q <= 2.0 && -(taker - q) <= Cap(takerColl, per) && maker + q <= Cap(makerColl, per) ==>
              q <= Feasible(per, takerColl, taker, makerColl, maker).sell + 0.005
    ensures per > 0.0 && 0.0 <= q && q + 0.005 <= Feasible(per, takerColl, taker, makerColl, maker).sell ==>
              q <= 2.0 && -(taker - q) <= Cap(takerColl, per) && maker + q <= Cap(makerColl, per)
  {
    if per > 0.0 {
      QuoteIsNearest(RawSell(per, takerColl, taker, makerColl, maker), q);
    }
  }

  lemma QuoteIsNearest(raw: real, q: real)
    ensures 0.0 <= q <= 2.0 && q <= raw ==> q <= Clamp(raw) + 0.005
    ensures 0.0 <= q && q + 0.005 <= Clamp(raw) ==> q <= raw && q <= 2.0
  {
    ClampIsNearest(raw);
  }

  /** A quote is within [0, MAX_QTY], and a positive quote overstates the room
      by half a cent at most. */
  lemma ClampRange(x: real)
    ensures 0.0 <= Clamp(x) <= MAX_QTY
    ensures 0.0 < Clamp(x) ==> Clamp(x) <= x + 0.005
  {
    CentsMonotone(0.0, Max(0.0, Min(MAX_QTY, x)));
    CentsMonotone(Max(0.0, Min(MAX_QTY, x)), MAX_QTY);
    assert Cents(MAX_QTY) == MAX_QTY by { RoundWhole(200); }
    assert Cents(0.0) == 0.0 by { RoundWhole(0); }
  }
}
