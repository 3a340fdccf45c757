/** The constructed wash attack: rings of identities trading in one direction. */
module Injection {
  import opened Rounding
  import Decimal

  datatype Option<+T> = None | Some(value: T)

  datatype Event = Event(id: string, ts: real, seller: string, buyer: string, price: real, size: real)

  /** The shape of an injection: `perCluster` trades in each cluster of `ring`
      identities, each trade of `size` units at `price`. */
  datatype Plan = Plan(price: real, size: real, clusters: nat, perCluster: nat, ring: nat, t0: real, t1: real)

  function AdversePrice(m0: real, up: bool, relMove: real): real {
    if up then m0 * (1.0 + 5.0 * relMove) else m0 * (1.0 - 5.0 * relMove)
  }

  function AtLeast(x: int, y: int): int {
    if x < y then y else x
  }

  /** The attack pays five times the move it wants, above the honest level to push
      it up and below to push it down. */
  lemma AdversePriceIs(m0: real, up: bool, relMove: real)
    requires m0 * relMove > 0.0
    ensures var p := AdversePrice(m0, up, relMove);
            && (up <==> p > m0) && (!up <==> p < m0)
            && (if up then p - m0 else m0 - p) == 5.0 * (m0 * relMove)
  {}

  /** Enough trades for the notional at the usual trade size, and for every
      identity of a cluster to appear. */
  function TradesPerCluster(notional: real, clusters: nat, tradeNotional: real, ring: nat): (n: nat)
    requires clusters > 0 && tradeNotional != 0.0
    ensures ring <= n
  {
    AtLeast(ring, Round(notional / clusters as real / tradeNotional))
  }

  /** The trade count is the nearest to the usual trade size, unless the ring needs more. */
  lemma TradeCountIsNearest(notional: real, clusters: nat, tradeNotional: real, ring: nat, n: nat)
    requires clusters > 0 && tradeNotional > 0.0
    requires n == TradesPerCluster(notional, clusters, tradeNotional, ring)
    ensures n == ring || (ring < n && n as real - 0.5 <= notional / clusters as real / tradeNotional <= n as real + 0.5)
    ensures n == ring ==> notional / clusters as real / tradeNotional <= ring as real + 0.5
  {}

  function Address(cluster: nat, i: nat): string {
    "0xatk" + (Decimal.Digits(cluster) + "_" + Decimal.Padded(i, 3))
  }

  function EventId(cluster: nat, k: nat): string {
    "atk-" + (Decimal.Digits(cluster) + "-" + Decimal.Digits(k))
  }

  /** Evenly spread over `width` from `t0`, never at its far end. */
  function When(t0: real, width: real, k: nat): (t: real)
    ensures width > 0.0 ==> t0 <= t < t0 + width
  {
    PartOf(width, Fraction(k));
    t0 + width * Fraction(k)
  }

  lemma PartOf(width: real, part: real)
    requires 0.0 <= part < 1.0
    ensures width > 0.0 ==> 0.0 <= width * part < width
  {
    if width > 0.0 {
      var rest := 1.0 - part;
      assert width * rest > 0.0;
      assert width * part + width * rest == width * (part + rest);
    }
  }

  function Times(n: nat, m: nat): nat {
    if n == 0 then 0 else Times(n - 1, m) + m
  }

  lemma {:induction false} TimesIsProduct(n: nat, m: nat)
    ensures Times(n, m) == n * m
  {
    if n > 0 {
      TimesIsProduct(n - 1, m);
      assert n * m == (n - 1) * m + m;
    }
  }

  /** `n` equal parts added up. */
  function Repeated(n: nat, part: real): real {
    if n == 0 then 0.0 else Repeated(n - 1, part) + part
  }

  lemma OneMore(n: int, part: real)
    ensures n as real * part == (n - 1) as real * part + part
  {
    var x := (n - 1) as real;
    assert n as real == x + 1.0;
  }

  lemma {:induction false} RepeatedIsProduct(n: nat, part: real)
    ensures Repeated(n, part) == n as real * part
  {
    if n > 0 {
      RepeatedIsProduct(n - 1, part);
      OneMore(n, part);
    }
  }

  /** Units in each trade, so that the trades together make up the notional. */
  method SizeEach(notional: real, clusters: nat, perCluster: nat, price: real) returns (size: real, ghost part: real)
    requires clusters > 0 && perCluster > 0 && price > 0.0
    ensures part == price * size && Repeated(Times(clusters, perCluster), part) == notional
  {
    var share := notional / clusters as real / perCluster as real;
    size, part := share / price, share;
    Undo(share, price);
    PartsAddUp(notional, clusters, perCluster, share);
  }

  lemma PartsAddUp(notional: real, a: nat, b: nat, part: real)
    requires a > 0 && b > 0 && part == notional / a as real / b as real
    ensures Repeated(Times(a, b), part) == notional
  {
    TimesIsProduct(a, b);
    RepeatedIsProduct(a * b, part);
    PartsMakeWhole(notional, a, b);
  }

  lemma Undo(x: real, a: real)
    requires a != 0.0
    ensures a * (x / a) == x
  {}

  lemma Associate(a: real, b: real, c: real)
    ensures (a * b) * c == a * (b * c)
  {}

  lemma PartsMakeWhole(notional: real, a: int, b: int)
    requires a > 0 && b > 0
    ensures (a * b) as real * (notional / a as real / b as real) == notional
  {
    var x, y := a as real, b as real;
    Undo(notional, x);
    Undo(notional / x, y);
    Associate(x, y, notional / x / y);
    assert (a * b) as real == x * y;
  }

  function Fraction(k: nat): (f: real)
    ensures 0.0 <= f < 1.0
  {
    (k % 97) as real / 97.0
  }

  /** Times step through the window in 97 equal parts, over and over. */
  lemma TimesStep(t0: real, width: real, k: nat)
    ensures k % 97 == 0 ==> When(t0, width, k) == t0
    ensures k % 97 != 96 ==> When(t0, width, k + 1) - When(t0, width, k) == width / 97.0
  {
    if k % 97 == 0 {
      assert width * 0.0 == 0.0;
    }
    if k % 97 != 96 {
      assert (k + 1) % 97 == k % 97 + 1;
      assert Fraction(k + 1) == Fraction(k) + 1.0 / 97.0;
      Distribute(width, Fraction(k));
    }
  }

  lemma Distribute(width: real, f: real)
    ensures width * (f + 1.0 / 97.0) == width * f + width / 97.0
  {}

  predicate Ready(p: Plan) {
    p.clusters >= 1 && p.perCluster >= p.ring >= 1
  }

  function Seller(p: Plan, c: nat, j: nat): string
    requires Ready(p)
  {
    Address(c, j % p.ring)
  }

  function Buyer(p: Plan, c: nat, j: nat): string
    requires Ready(p)
  {
    Address(c, (j + 1) % p.ring)
  }

  /** Trade `j` of cluster `c`, the `k`-th event overall. */
  function EventOf(p: Plan, c: nat, j: nat, k: nat): Event
    requires Ready(p)
  {
    Event(EventId(c, k), When(p.t0, p.t1 - p.t0, k), Seller(p, c, j), Buyer(p, c, j), p.price, p.size)
  }

  /** The first `m` trades of cluster `c`, when `start` events came before them. */
  function Cluster(p: Plan, c: nat, start: nat, m: nat): (s: seq<Event>)
    requires Ready(p)
    ensures |s| == m
  {
    if m == 0 then [] else Cluster(p, c, start, m - 1) + [EventOf(p, c, m - 1, start + m - 1)]
  }

  /** The first `n` clusters, one after the other. */
  function Injected(p: Plan, n: nat): (s: seq<Event>)
    requires Ready(p)
    ensures |s| == Times(n, p.perCluster)
  {
    if n == 0 then []
    else
      var before := Injected(p, n - 1);
      before + Cluster(p, n - 1, |before|, p.perCluster)
  }

  /** The plan at a given price, `part` the notional of each of its trades. */
  method SizePlan(price: real, notional: real, clusters: nat, perCluster: nat, ring: nat, t0: real, t1: real)
    returns (p: Plan, ghost part: real)
    requires price > 0.0 && clusters > 0 && perCluster >= ring >= 1
    ensures Ready(p) && p == Plan(price, p.size, clusters, perCluster, ring, t0, t1)
    ensures part == p.price * p.size && Repeated(Times(p.clusters, p.perCluster), part) == notional
  {
    var size;
    size, part := SizeEach(notional, clusters, perCluster, price);
    p := Plan(price, size, clusters, perCluster, ring, t0, t1);
  }

  /** The attack at a given price. The events add up to exactly the notional asked for. */
  method Inject(price: real, notional: real, clusters: nat, perCluster: nat, ring: nat, t0: real, t1: real)
    returns (events: seq<Event>, p: Plan)
    requires price > 0.0 && clusters > 0 && perCluster >= ring >= 1
    ensures Ready(p) && events == Injected(p, p.clusters) && SumNotional(events) == notional
    ensures p == Plan(price, p.size, clusters, perCluster, ring, t0, t1)
  {
    ghost var part;
    p, part := SizePlan(price, notional, clusters, perCluster, ring, t0, t1);
    SumOverPlan(p, part);
    events := Lay(p);
  }

  /** The attack as asked for. `None` where the original raises: a zero trade size
      or price, or a price or size its event model refuses. */
  method BuildInjection(m0: real, notional: real, up: bool, nClusters: int, t0: real, t1: real, relMove: real,
                        tradeNotional: real, clusterSize: nat)
    returns (events: Option<seq<Event>>, ghost p: Plan)
    requires clusterSize >= 1
    ensures events.None? <==> tradeNotional == 0.0 || AdversePrice(m0, up, relMove) <= 0.0 || notional <= 0.0
    ensures events.Some? ==>
              && Ready(p) && events.value == Injected(p, p.clusters) && SumNotional(events.value) == notional
              && p.price == AdversePrice(m0, up, relMove) && p.clusters == AtLeast(1, nClusters)
              && p.perCluster == TradesPerCluster(notional, p.clusters, tradeNotional, clusterSize)
              && p.ring == clusterSize && p.t0 == t0 && p.t1 == t1
  {
    var price := AdversePrice(m0, up, relMove);
    var clusters := AtLeast(1, nClusters);
    p := Plan(0.0, 0.0, 0, 0, 0, 0.0, 0.0);
    if tradeNotional == 0.0 || price <= 0.0 || notional <= 0.0 {
      return None, p;
    }
    var n := TradesPerCluster(notional, clusters, tradeNotional, clusterSize);
    var out, plan := Inject(price, notional, clusters, n, clusterSize, t0, t1);
    events, p := Some(out), plan;
  }

  method Lay(p: Plan) returns (out: seq<Event>)
    requires Ready(p)
    ensures out == Injected(p, p.clusters)
  {
    out := [];
    for c := 0 to p.clusters
      invariant out == Injected(p, c)
    {
      out := LayCluster(p, c, out);
    }
  }

  /** One turn of the outer loop; the event counter is the number laid so far. */
  method LayCluster(p: Plan, c: nat, before: seq<Event>) returns (out: seq<Event>)
    requires Ready(p)
    ensures out == before + Cluster(p, c, |before|, p.perCluster)
  {
    out := before;
    var k := |before|;
    for j := 0 to p.perCluster
      invariant k == |out| == |before| + j && out == before + Cluster(p, c, |before|, j)
    {
      out := out + [Event(EventId(c, k), When(p.t0, p.t1 - p.t0, k), Address(c, j % p.ring),
                          Address(c, (j + 1) % p.ring), p.price, p.size)];
      k := k + 1;
    }
  }

  // --- what the attack needs of it ---

  function SumNotional(events: seq<Event>): real {
    if events == [] then 0.0
    else SumNotional(events[..|events| - 1]) + events[|events| - 1].price * events[|events| - 1].size
  }

  lemma {:induction false} SumOfEqualParts(events: seq<Event>, price: real, size: real, part: real)
    requires (forall e :: e in events ==> e.price == price && e.size == size) && part == price * size
    ensures SumNotional(events) == Repeated(|events|, part)
  {
    if events != [] {
      SumOfEqualParts(events[..|events| - 1], price, size, part);
    }
  }

  lemma {:induction false} ClusterTrade(p: Plan, c: nat, start: nat, m: nat, i: nat)
    requires Ready(p) && i < m
    ensures Cluster(p, c, start, m)[i] == EventOf(p, c, i, start + i)
  {
    if i < m - 1 {
      ClusterTrade(p, c, start, m - 1, i);
    }
  }

  /** Every event of the list is some trade of some cluster, numbered by its place. */
  lemma {:induction false} TradeAt(p: Plan, n: nat, k: nat) returns (c: nat, j: nat)
    requires Ready(p) && k < Times(n, p.perCluster)
    ensures k < |Injected(p, n)| && c < n && j < p.perCluster && Injected(p, n)[k] == EventOf(p, c, j, k)
  {
    var before := Injected(p, n - 1);
    if k < |before| {
      c, j := TradeAt(p, n - 1, k);
    } else {
      c, j := n - 1, k - |before|;
      ClusterTrade(p, c, |before|, p.perCluster, j);
    }
  }

  lemma EarlierTradesStay(p: Plan, n: nat, k: nat)
    requires Ready(p) && n > 0 && k < |Injected(p, n - 1)|
    ensures k < |Injected(p, n)| && Injected(p, n)[k] == Injected(p, n - 1)[k]
  {}

  lemma LastClusterIsListed(p: Plan, n: nat, j: nat) returns (k: nat)
    requires Ready(p) && n > 0 && j < p.perCluster
    ensures k < |Injected(p, n)| && Injected(p, n)[k] == EventOf(p, n - 1, j, k)
  {
    var before := Injected(p, n - 1);
    k := |before| + j;
    ClusterTrade(p, n - 1, |before|, p.perCluster, j);
    assert Injected(p, n)[k] == Cluster(p, n - 1, |before|, p.perCluster)[j];
  }

  /** ... and every trade of every cluster is on the list. */
  lemma {:induction false} TradeIsListed(p: Plan, n: nat, c: nat, j: nat) returns (k: nat)
    requires Ready(p) && c < n && j < p.perCluster
    ensures k < |Injected(p, n)| && Injected(p, n)[k] == EventOf(p, c, j, k)
  {
    if c < n - 1 {
      k := TradeIsListed(p, n - 1, c, j);
      EarlierTradesStay(p, n, k);
    } else {
      k := LastClusterIsListed(p, n, j);
    }
  }

  lemma TradesAlike(p: Plan)
    requires Ready(p)
    ensures forall e :: e in Injected(p, p.clusters) ==> e.price == p.price && e.size == p.size
  {
    var events := Injected(p, p.clusters);
    forall e | e in events ensures e.price == p.price && e.size == p.size {
      var k :| 0 <= k < |events| && events[k] == e;
      var c, j := TradeAt(p, p.clusters, k);
    }
  }

  /** The notional of a whole injection. */
  lemma SumOverPlan(p: Plan, part: real)
    requires Ready(p) && part == p.price * p.size
    ensures SumNotional(Injected(p, p.clusters)) == Repeated(Times(p.clusters, p.perCluster), part)
  {
    TradesAlike(p);
    SumOfEqualParts(Injected(p, p.clusters), p.price, p.size, part);
  }

  /** Names as they are printed. */
  lemma NamesArePrinted()
    ensures Address(3, 7) == "0xatk3_007" && EventId(3, 15) == "atk-3-15"
  {
    Decimal.PaddedExamples();
  }

  /** The ring turns one way: whoever buys in a trade sells in the next, and the ring
      closes after as many trades as it has identities. */
  lemma RingTurns(p: Plan, c: nat, j: nat)
    requires Ready(p)
    ensures Buyer(p, c, j) == Seller(p, c, j + 1) && Seller(p, c, j + p.ring) == Seller(p, c, j)
    ensures Seller(p, c, 0) == Address(c, 0)
  {
    var q, r := j / p.ring, j % p.ring;
    assert (q + 1) * p.ring == q * p.ring + p.ring;
    ModIs(j + p.ring, p.ring, q + 1, r);
    ModIs(0, p.ring, 0, 0);
  }

  /** Every identity of every cluster sells and buys. */
  lemma EveryIdentityTrades(p: Plan, c: nat, i: nat)
    requires Ready(p) && c < p.clusters && i < p.ring
    ensures exists e :: e in Injected(p, p.clusters) && e.seller == Address(c, i)
    ensures exists e :: e in Injected(p, p.clusters) && e.buyer == Address(c, i)
  {
    var before := if i == 0 then p.ring - 1 else i - 1;
    ModIs(i, p.ring, 0, i);
    ModIs(before + 1, p.ring, if i == 0 then 1 else 0, i);
    var k := TradeIsListed(p, p.clusters, c, i);
    var m := TradeIsListed(p, p.clusters, c, before);
    assert Injected(p, p.clusters)[k].seller == Address(c, i);
    assert Injected(p, p.clusters)[m].buyer == Address(c, i);
  }

  lemma AddressInjective(c: nat, i: nat, d: nat, j: nat)
    requires Address(c, i) == Address(d, j)
    ensures c == d && i == j
  {
    Decimal.NumeralsAroundMark("0xatk", c, Decimal.Padded(i, 3), d, Decimal.Padded(j, 3), '_');
    Decimal.PaddedInjective(i, j, 3);
  }

  /** No identity appears in two clusters. */
  lemma ClustersAreDisjoint(p: Plan, c: nat, j: nat, d: nat, l: nat)
    requires Ready(p) && c != d
    ensures {Seller(p, c, j), Buyer(p, c, j)} !! {Seller(p, d, l), Buyer(p, d, l)}
  {
    forall x: nat, y: nat ensures Address(c, x) != Address(d, y) {
      if Address(c, x) == Address(d, y) {
        AddressInjective(c, x, d, y);
      }
    }
  }

  lemma ModIs(k: nat, n: nat, q: nat, r: nat)
    requires r < n && k == q * n + r
    ensures k % n == r
  {
    assert n * (k / n - q) == n * (k / n) - n * q;
    SmallMultiple(n, k / n - q);
  }

  lemma SmallMultiple(n: int, d: int)
    requires -n < n * d < n
    ensures d == 0
  {}

  lemma NextAround(j: nat, n: nat)
    requires n >= 1
    ensures (j + 1) % n == if j % n + 1 == n then 0 else j % n + 1
  {
    var q, r := j / n, j % n;
    assert (q + 1) * n == q * n + n;
    if r + 1 == n {
      ModIs(j + 1, n, q + 1, 0);
    } else {
      ModIs(j + 1, n, q, r + 1);
    }
  }

  lemma SelfDealNeedsOne(p: Plan, c: nat, j: nat)
    requires Ready(p) && p.ring >= 2
    ensures Seller(p, c, j) != Buyer(p, c, j)
  {
    NextAround(j, p.ring);
    if Seller(p, c, j) == Buyer(p, c, j) {
      AddressInjective(c, j % p.ring, c, (j + 1) % p.ring);
    }
  }

  /** Nobody trades with itself exactly when a cluster has at least two identities. */
  lemma NoSelfDealIff(p: Plan)
    requires Ready(p)
    ensures (forall e :: e in Injected(p, p.clusters) ==> e.seller != e.buyer) <==> p.ring >= 2
  {
    var events := Injected(p, p.clusters);
    if p.ring >= 2 {
      forall e | e in events ensures e.seller != e.buyer {
        var k :| 0 <= k < |events| && events[k] == e;
        var c, j := TradeAt(p, p.clusters, k);
        SelfDealNeedsOne(p, c, j);
      }
    } else {
      var k := TradeIsListed(p, p.clusters, 0, 0);
      assert events[k].seller == events[k].buyer;
    }
  }

  /** Two trades running against each other. */
  predicate Reciprocal(e: Event, f: Event) {
    e.seller == f.buyer && e.buyer == f.seller
  }

  lemma ReciprocalNeedsTwo(p: Plan, c: nat, j: nat, d: nat, l: nat)
    requires Ready(p) && p.ring >= 3
    ensures !(Seller(p, c, j) == Buyer(p, d, l) && Buyer(p, c, j) == Seller(p, d, l))
  {
    NextAround(j, p.ring);
    NextAround(l, p.ring);
    if Seller(p, c, j) == Buyer(p, d, l) && Buyer(p, c, j) == Seller(p, d, l) {
      AddressInjective(c, j % p.ring, d, (l + 1) % p.ring);
      AddressInjective(c, (j + 1) % p.ring, d, l % p.ring);
    }
  }

  lemma LargeRingsNeverReciprocate(p: Plan, e: Event, f: Event)
    requires Ready(p) && p.ring >= 3 && e in Injected(p, p.clusters) && f in Injected(p, p.clusters)
    ensures !Reciprocal(e, f)
  {
    var events := Injected(p, p.clusters);
    var k :| 0 <= k < |events| && events[k] == e;
    var m :| 0 <= m < |events| && events[m] == f;
    var c, j := TradeAt(p, p.clusters, k);
    var d, l := TradeAt(p, p.clusters, m);
    ReciprocalNeedsTwo(p, c, j, d, l);
  }

  lemma SmallRingTurnsBack(p: Plan)
    requires Ready(p) && p.ring < 3
    ensures Seller(p, 0, 0) == Buyer(p, 0, p.ring - 1) && Buyer(p, 0, 0) == Seller(p, 0, p.ring - 1)
  {
    assert p.ring == 1 || p.ring == 2;
  }

  lemma SmallRingsReciprocate(p: Plan) returns (e: Event, f: Event)
    requires Ready(p) && p.ring < 3
    ensures e in Injected(p, p.clusters) && f in Injected(p, p.clusters) && Reciprocal(e, f)
  {
    var k := TradeIsListed(p, p.clusters, 0, 0);
    var m := TradeIsListed(p, p.clusters, 0, p.ring - 1);
    SmallRingTurnsBack(p);
    e, f := Injected(p, p.clusters)[k], Injected(p, p.clusters)[m];
  }

  /** No two events run against each other exactly when a cluster has at least three. */
  lemma NoReciprocalIff(p: Plan)
    requires Ready(p)
    ensures (forall e, f :: e in Injected(p, p.clusters) && f in Injected(p, p.clusters) ==> !Reciprocal(e, f))
            <==> p.ring >= 3
  {
    if p.ring >= 3 {
      forall e, f | e in Injected(p, p.clusters) && f in Injected(p, p.clusters) ensures !Reciprocal(e, f) {
        LargeRingsNeverReciprocate(p, e, f);
      }
    } else {
      var e, f := SmallRingsReciprocate(p);
    }
  }

  lemma IdInjective(c: nat, k: nat, d: nat, m: nat)
    requires EventId(c, k) == EventId(d, m)
    ensures k == m
  {
    Decimal.NumeralsAroundMark("atk-", c, Decimal.Digits(k), d, Decimal.Digits(m), '-');
    Decimal.DigitsHaveValue(k);
    Decimal.DigitsHaveValue(m);
  }

  /** Event ids never repeat, and every event falls inside the window. */
  lemma IdsUniqueTimesInside(p: Plan, k: nat, m: nat)
    requires Ready(p) && k < |Injected(p, p.clusters)| && m < |Injected(p, p.clusters)|
    ensures k != m ==> Injected(p, p.clusters)[k].id != Injected(p, p.clusters)[m].id
    ensures p.t0 < p.t1 ==> p.t0 <= Injected(p, p.clusters)[k].ts < p.t1
  {
    var c, j := TradeAt(p, p.clusters, k);
    var d, l := TradeAt(p, p.clusters, m);
    if EventId(c, k) == EventId(d, m) {
      IdInjective(c, k, d, m);
    }
  }
}
