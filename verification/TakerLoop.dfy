/** The venue's side of a trade: the maker takes the exact mirror of every fill,
    and a fill that leaves either side under-margined reverts. */
module Venue {
  import opened Rounding
  import opened Desk

  /** Net position over all traders; trader 0 is the maker. */
  function Net(positions: seq<real>): real {
    if positions == [] then 0.0 else Net(positions[..|positions| - 1]) + positions[|positions| - 1]
  }

  lemma {:induction false} NetUpdate(positions: seq<real>, i: nat, x: real)
    requires i < |positions|
    ensures Net(positions[i := x]) == Net(positions) - positions[i] + x
  {
    var n := |positions| - 1;
    if i == n {
      assert positions[i := x][..n] == positions[..n];
    } else {
      assert positions[i := x][..n] == positions[..n][i := x];
      NetUpdate(positions[..n], i, x);
    }
  }

  function Filled(positions: seq<real>, taker: nat, qty: real): seq<real>
    requires 0 < taker < |positions|
  {
    positions[taker := positions[taker] + qty][0 := positions[0] - qty]
  }

  /** Every fill conserves the net position. */
  lemma {:induction false} FillConservesNet(positions: seq<real>, taker: nat, qty: real)
    requires 0 < taker < |positions|
    ensures Net(Filled(positions, taker, qty)) == Net(positions)
  {
    var bought := positions[taker := positions[taker] + qty];
    NetUpdate(positions, taker, positions[taker] + qty);
    assert bought[0] == positions[0];
    NetUpdate(bought, 0, positions[0] - qty);
  }

  class Book {
    var positions: seq<real>
    var collateral: seq<real>

    ghost predicate Valid()
      reads this
    {
      |positions| == |collateral| > 0
    }

    /** `trade`: false stands for the revert, which changes nothing. `open` says
        that the venue takes trades at all: not paused, not expired or settled, a
        mark posted, and room on the series' roster. */
    method Trade(taker: nat, qty: real, terms: Terms, open: bool) returns (ok: bool)
      requires Valid() && 0 < taker < |positions|
      modifies this`positions
      ensures Valid()
      ensures var after := Filled(old(positions), taker, qty);
              && (ok <==> open && qty != 0.0 && VenueAccepts(collateral[taker], terms, after[taker])
                          && VenueAccepts(collateral[0], terms, after[0]))
              && positions == if ok then after else old(positions)
    {
      var after := Filled(positions, taker, qty);
      ok := open && qty != 0.0 && VenueAccepts(collateral[taker], terms, after[taker])
            && VenueAccepts(collateral[0], terms, after[0]);
      if ok {
        positions := after;
      }
    }
  }
}

/** The bounded, mean-reverting taker that keeps the book moving. */
module TakerLoop {
  import opened Rounding
  import opened Desk
  import opened Venue

  const MAX_FAILS := 30

  /** The draw of one step: a magnitude and a direction, and the direction of the
      forced step from a flat position. */
  datatype Draw = Draw(magnitude: int, sells: bool, up: bool)

  predicate ValidDraw(d: Draw) {
    d.magnitude == 1 || d.magnitude == 2
  }

  /** One proposed step: the draw, cut to the band, or a forced step where that
      leaves nothing. */
  function Chosen(inv: real, band: int, d: Draw): int {
    var drawn := if d.sells then -d.magnitude else d.magnitude;
    var cut :=
      if inv + drawn as real > band as real then Trunc(band as real - inv)
      else if inv + drawn as real < -(band as real) then Trunc(-(band as real) - inv)
      else drawn;
    if cut != 0 then cut
    else if inv > 0.0 then -1
    else if inv < 0.0 then 1
    else if d.up then 1 else -1
  }

  /** It is never zero; inside the band it stays inside, and outside it moves
      strictly closer to flat. The draw is kept when it fits; one that does not is
      cut to the last whole contract inside the band, or turned back toward flat. */
  method ChooseQty(inv: real, band: int, d: Draw) returns (qty: int)
    requires 1 <= band && ValidDraw(d)
    ensures qty == Chosen(inv, band, d)
    ensures qty != 0
    ensures Abs(inv) <= band as real ==> Abs(inv + qty as real) <= band as real
    ensures Abs(inv) > band as real ==> Abs(inv + qty as real) < Abs(inv)
    ensures var drawn := if d.sells then -d.magnitude else d.magnitude;
            && (Abs(inv + drawn as real) <= band as real ==> qty == drawn)
            && (Abs(inv) <= band as real && inv + drawn as real > band as real ==>
                  if inv + 1.0 <= band as real then 1 <= qty && band as real < inv + qty as real + 1.0
                  else qty == -1)
            && (Abs(inv) <= band as real && inv + drawn as real < -(band as real) ==>
                  if inv - 1.0 >= -(band as real) then qty <= -1 && inv + qty as real - 1.0 < -(band as real)
                  else qty == 1)
  {
    qty := if d.sells then -d.magnitude else d.magnitude;
    var next := inv + qty as real;
    if next > band as real {
      qty := Trunc(band as real - inv);
    } else if next < -(band as real) {
      qty := Trunc(-(band as real) - inv);
    }
    if qty == 0 {
      if inv > 0.0 {
        qty := -1;
      } else if inv < 0.0 {
        qty := 1;
      } else {
        qty := if d.up then 1 else -1;
      }
    }
  }

  /** What the venue will take right now, in whole contracts. */
  function Fit(qty: int, room: Room): int {
    var low, high := -Trunc(room.sell), Trunc(room.buy);
    var capped := if high < qty then high else qty;
    if low < capped then capped else low
  }

  /** Of what was asked, as many whole contracts as there is room for. */
  lemma FitIsLargest(qty: int, room: Room, n: int)
    requires 0.0 <= room.buy && 0.0 <= room.sell
    ensures 0 <= qty ==> 0 <= Fit(qty, room) <= qty && Fit(qty, room) as real <= room.buy
    ensures qty <= 0 ==> qty <= Fit(qty, room) <= 0 && -(Fit(qty, room) as real) <= room.sell
    ensures 0 <= n <= qty && n as real <= room.buy ==> n <= Fit(qty, room)
    ensures qty <= n <= 0 && -(n as real) <= room.sell ==> Fit(qty, room) <= n
  {}

  /** A fill as it reached the venue, with what was read just before it. */
  datatype Fill = Fill(qty: int, terms: Terms, taker: real, takerColl: real, maker: real, makerColl: real)

  /** The side a fill grows stays within both parties' caps, half a cent of
      quote rounding aside: the taker's long (short) and the maker's mirrored
      short (long) for a buy (sell). */
  predicate WithinCaps(f: Fill) {
    var q := f.qty as real;
    && Per(f.terms) > 0.0
    && (f.qty > 0 ==>
          && f.taker + q <= Cap(f.takerColl, Per(f.terms)) + 0.005
          && -(f.maker - q) <= Cap(f.makerColl, Per(f.terms)) + 0.005)
    && (f.qty < 0 ==>
          && -(f.taker + q) <= Cap(f.takerColl, Per(f.terms)) + 0.005
          && f.maker - q <= Cap(f.makerColl, Per(f.terms)) + 0.005)
  }

  predicate Grows(position: real, qty: int) {
    (qty > 0 && position >= 0.0) || (qty < 0 && position <= 0.0)
  }

  lemma MarginedByCap(exposure: real, collateral: real, per: real)
    requires per > 0.0 && 1.0 <= exposure <= Cap(collateral, per) + 0.005
    ensures exposure * per <= collateral
  {
    CapTimesPer(collateral, per);
    var spare := Cap(collateral, per) - MARGIN_SAFETY * exposure;
    assert 0.0 <= spare;
    assert 0.0 <= spare * per;
    assert spare * per == MARGIN_SAFETY * collateral - MARGIN_SAFETY * (exposure * per);
  }

  /** A fill that grows a party's exposure never trips the venue's margin check
      on that party: the safety factor outweighs the quote's rounding. */
  lemma GrowingFillIsAccepted(f: Fill)
    requires WithinCaps(f) && f.qty != 0
    ensures Grows(f.taker, f.qty) ==> VenueAccepts(f.takerColl, f.terms, f.taker + f.qty as real)
    ensures Grows(f.maker, -f.qty) ==> VenueAccepts(f.makerColl, f.terms, f.maker - f.qty as real)
  {
    if Grows(f.taker, f.qty) {
      MarginedByCap(Abs(f.taker + f.qty as real), f.takerColl, Per(f.terms));
      RequirementAtMost(f.takerColl, f.taker + f.qty as real, f.terms);
    }
    if Grows(f.maker, -f.qty) {
      MarginedByCap(Abs(f.maker - f.qty as real), f.makerColl, Per(f.terms));
      RequirementAtMost(f.makerColl, f.maker - f.qty as real, f.terms);
    }
  }

  lemma FitWithinRoom(qty: int, terms: Terms, takerColl: real, taker: real, makerColl: real, maker: real)
    ensures var room := Feasible(Per(terms), takerColl, taker, makerColl, maker);
            var fit := Fit(qty, room);
            && (0 <= fit <= qty || qty <= fit <= 0 || fit == 0)
            && (fit != 0 ==> WithinCaps(Fill(fit, terms, taker, takerColl, maker, makerColl)))
  {
    if Per(terms) > 0.0 {
      ClampRange(RawBuy(Per(terms), takerColl, taker, makerColl, maker));
      ClampRange(RawSell(Per(terms), takerColl, taker, makerColl, maker));
    }
  }

  /** A trade by someone else, with the terms the venue applies to it. */
  datatype Other = Other(who: nat, qty: real, terms: Terms, open: bool)

  /** What became of a trade: sent, sent but reported as failed (a timeout), never
      sent without saying so, or failed on the way with an exception. */
  datatype Call = Sent | SentButRaised | NotSent | Dropped

  /** One turn of the loop: what the chain answered (`readable` is false when any
      read failed), what the other takers did since the last turn, the draw, what
      became of the call, and what the venue makes of the trade: the mark may have
      moved since it was read. */
  datatype Tick = Tick(readable: bool, gas: real, terms: Terms, collateral: seq<real>, others: seq<Other>,
                       draw: Draw, call: Call, atFill: Terms, open: bool)

  /** One trade the loop asked for: the fill it would be, what became of the call,
      and whether the venue took it. */
  datatype Attempt = Attempt(fill: Fill, call: Call, taken: bool)

  predicate Landed(a: Attempt) {
    a.taken && (a.call.Sent? || a.call.SentButRaised?)
  }

  /** The loop counts a trade when the call returns: landed, or never sent. */
  predicate Counted(a: Attempt) {
    a.call.NotSent? || (a.call.Sent? && a.taken)
  }

  predicate NeverSent(a: Attempt) {
    a.call.NotSent?
  }

  predicate Unheard(a: Attempt) {
    a.call.SentButRaised? && a.taken
  }

  function Count(log: seq<Attempt>, p: Attempt -> bool): nat {
    if log == [] then 0 else Count(log[..|log| - 1], p) + if p(log[|log| - 1]) then 1 else 0
  }

  /** What the attempts did to the taker's inventory. */
  function Moved(log: seq<Attempt>): real {
    if log == [] then 0.0
    else Moved(log[..|log| - 1]) + if Landed(log[|log| - 1]) then log[|log| - 1].fill.qty as real else 0.0
  }

  /** The loop's count is the number of fills exactly when as many trades were never
      sent as landed unheard; in particular when neither happens. */
  lemma {:induction false} CountIsFillsIff(log: seq<Attempt>)
    ensures Count(log, Counted) + Count(log, Unheard) == Count(log, Landed) + Count(log, NeverSent)
    ensures Count(log, Counted) == Count(log, Landed) <==> Count(log, NeverSent) == Count(log, Unheard)
  {
    if log != [] {
      CountIsFillsIff(log[..|log| - 1]);
    }
  }

  /** Other takers trade and everyone's collateral may move between turns. */
  method OthersMove(book: Book, me: nat, others: seq<Other>, collateral: seq<real>)
    requires book.Valid() && 0 < me < |book.positions|
    modifies book
    ensures book.Valid() && |book.positions| == old(|book.positions|)
    ensures book.positions[me] == old(book.positions[me])
    ensures Net(book.positions) == old(Net(book.positions))
  {
    if |collateral| == |book.positions| {
      book.collateral := collateral;
    }
    for k := 0 to |others|
      invariant book.Valid() && |book.positions| == old(|book.positions|)
      invariant book.positions[me] == old(book.positions[me])
      invariant Net(book.positions) == old(Net(book.positions))
    {
      var o := others[k];
      if 0 < o.who < |book.positions| && o.who != me {
        FillConservesNet(book.positions, o.who, o.qty);
        var _ := book.Trade(o.who, o.qty, o.terms, o.open);
      }
    }
  }

  /** The band for one step: the loop's own, narrowed to what the room reaches on
      both sides of flat, and at least one. */
  function Width(inv: real, band: int, room: Room): int {
    var fits := Trunc(Min(room.buy + inv, room.sell - inv));
    var width := if fits < band then fits else band;
    if width < 1 then 1 else width
  }

  lemma WidthIsWidest(inv: real, band: int, room: Room, n: int)
    ensures 1 <= Width(inv, band, room) && (1 <= band ==> Width(inv, band, room) <= band)
    ensures 1 < Width(inv, band, room) ==>
              Width(inv, band, room) as real <= inv + room.buy && Width(inv, band, room) as real <= room.sell - inv
    ensures 1 <= n <= band && n as real <= inv + room.buy && n as real <= room.sell - inv ==>
              n <= Width(inv, band, room)
  {}

  /** The size asked for from what was read. */
  function Proposal(terms: Terms, inv: real, coll: real, maker: real, makerColl: real, band: int, draw: Draw): int {
    var room := Feasible(Per(terms), coll, inv, makerColl, maker);
    Fit(Chosen(inv, Width(inv, band, room), draw), room)
  }

  /** Nothing is asked for exactly when the chosen direction has no room for one
      contract. */
  lemma ProposalIsZeroIff(terms: Terms, inv: real, coll: real, maker: real, makerColl: real, band: int, draw: Draw)
    requires ValidDraw(draw)
    ensures var room := Feasible(Per(terms), coll, inv, makerColl, maker);
            var chosen := Chosen(inv, Width(inv, band, room), draw);
            && chosen != 0
            && (Proposal(terms, inv, coll, maker, makerColl, band, draw) == 0
                <==> if chosen > 0 then room.buy < 1.0 else room.sell < 1.0)
  {
    var room := Feasible(Per(terms), coll, inv, makerColl, maker);
    var chosen := Chosen(inv, Width(inv, band, room), draw);
    RoomIsPositive(Per(terms), coll, inv, makerColl, maker);
    FitIsLargest(chosen, room, if chosen > 0 then 1 else -1);
  }

  lemma RoomIsPositive(per: real, coll: real, inv: real, makerColl: real, maker: real)
    ensures var room := Feasible(per, coll, inv, makerColl, maker); 0.0 <= room.buy && 0.0 <= room.sell
  {
    if per > 0.0 {
      ClampRange(RawBuy(per, coll, inv, makerColl, maker));
      ClampRange(RawSell(per, coll, inv, makerColl, maker));
    }
  }

  /** The size asked for is within both caps, and never takes the inventory further
      out than it was or than the band allows. */
  method Propose(terms: Terms, inv: real, coll: real, maker: real, makerColl: real, band: int, draw: Draw)
    returns (qty: int)
    requires ValidDraw(draw)
    ensures qty == Proposal(terms, inv, coll, maker, makerColl, band, draw)
    ensures qty != 0 ==> WithinCaps(Fill(qty, terms, inv, coll, maker, makerColl))
    ensures Abs(inv + qty as real) <= Max(Abs(inv), Max(1.0, band as real))
  {
    var room := Feasible(Per(terms), coll, inv, makerColl, maker);
    var width := Width(inv, band, room);
    WidthIsWidest(inv, band, room, 1);
    var drawn := ChooseQty(inv, width, draw);
    FitWithinRoom(drawn, terms, coll, inv, makerColl, maker);
    qty := Fit(drawn, room);
    StaysInside(inv, width, drawn, qty);
  }

  /** Part of a step that stays in the band stays in it, or comes no further out. */
  lemma StaysInside(inv: real, width: int, step: int, part: int)
    requires 0 <= part <= step || step <= part <= 0 || part == 0
    requires Abs(inv) <= width as real ==> Abs(inv + step as real) <= width as real
    requires Abs(inv) > width as real ==> Abs(inv + step as real) < Abs(inv)
    ensures Abs(inv + part as real) <= Max(Abs(inv), width as real)
  {}

  /** The size is the one proposed from these reads. */
  predicate AsProposed(f: Fill, t: Tick, band: int) {
    f.terms == t.terms && f.qty == Proposal(f.terms, f.taker, f.takerColl, f.maker, f.makerColl, band, t.draw)
  }

  /** One turn past its reads: a trade that fits, or none. `a` records it with what
      was read just before; `heard` says that the call returned. */
  method TakeTurn(book: Book, me: nat, t: Tick, band: int) returns (qty: int, heard: bool, ghost a: Attempt)
    requires book.Valid() && 0 < me < |book.positions| && ValidDraw(t.draw)
    modifies book`positions
    ensures book.Valid() && |book.positions| == old(|book.positions|)
    ensures Net(book.positions) == old(Net(book.positions))
    ensures Abs(book.positions[me]) <= Max(old(Abs(book.positions[me])), Max(1.0, band as real))
    ensures a.fill.qty == qty && a.call == t.call && (qty != 0 ==> WithinCaps(a.fill))
    ensures a.fill.taker == old(book.positions[me]) && AsProposed(a.fill, t, band)
    ensures book.positions[me] ==
            old(book.positions[me]) + if qty != 0 && Landed(a) then qty as real else 0.0
    ensures heard == (qty != 0 && Counted(a))
  {
    var inv, maker := book.positions[me], book.positions[0];
    var coll, makerColl := book.collateral[me], book.collateral[0];
    qty := Propose(t.terms, inv, coll, maker, makerColl, band, t.draw);
    var ok := false;
    if qty != 0 && (t.call.Sent? || t.call.SentButRaised?) {
      FillConservesNet(book.positions, me, qty as real);
      ok := book.Trade(me, qty as real, t.atFill, t.open);
    }
    a := Attempt(Fill(qty, t.terms, inv, coll, maker, makerColl), t.call, ok);
    heard := qty != 0 && (t.call.NotSent? || (t.call.Sent? && ok));
  }

  /** What one turn came to: a read failed, the gas was below the floor, or a size
      was worked out, of which nothing is sent when it is zero. */
  datatype Turn = Unread | LowGas | Sized(a: Attempt)

  function Attempts(turns: seq<Turn>): seq<Attempt> {
    if turns == [] then []
    else
      var last := turns[|turns| - 1];
      Attempts(turns[..|turns| - 1]) + if last.Sized? && last.a.fill.qty != 0 then [last.a] else []
  }

  /** Neither a size of zero nor a call that returned. */
  predicate Failed(t: Turn) {
    t.Unread? || (t.Sized? && t.a.fill.qty != 0 && !Counted(t.a))
  }

  predicate Returned(t: Turn) {
    t.Sized? && t.a.fill.qty != 0 && Counted(t.a)
  }

  /** Failures since the last call that returned; a size of zero changes nothing. */
  function Fails(turns: seq<Turn>): nat {
    if turns == [] then 0
    else
      var last := turns[|turns| - 1];
      if Returned(last) then 0 else Fails(turns[..|turns| - 1]) + if Failed(last) then 1 else 0
  }

  datatype Limits = Limits(maxTrades: nat, gasFloor: real, once: bool, onceAttempts: int)

  /** When the loop ends: enough calls returned, too little gas, too many failures in
      a row, or, under `once`, one call that returned. */
  predicate Stops(turns: seq<Turn>, l: Limits) {
    || Count(Attempts(turns), Counted) >= l.maxTrades
    || (turns != [] &&
        var last := turns[|turns| - 1];
        || last.LowGas?
        || (Failed(last) && (Fails(turns) >= MAX_FAILS || (l.once && Fails(turns) >= l.onceAttempts)))
        || (l.once && Returned(last)))
  }

  /** Thirty failures in a row end the loop, or as many as `once` allows, and fewer do
      not. */
  lemma {:induction false} FailuresStop(n: nat, l: Limits)
    requires 0 < l.maxTrades
    ensures var turns := seq(n, _ => Unread);
            && Fails(turns) == n && Attempts(turns) == []
            && (Stops(turns, l) <==> n >= 30 || (0 < n && l.once && n >= l.onceAttempts))
  {
    var turns: seq<Turn> := seq(n, _ => Unread);
    if n > 0 {
      FailuresStop(n - 1, l);
      var before: seq<Turn> := seq(n - 1, _ => Unread);
      assert turns[..n - 1] == before;
    }
  }

  /** The turn is what its tick makes of it, at inventory `inv`. */
  predicate FollowsFrom(turn: Turn, t: Tick, inv: real, band: int, l: Limits) {
    match turn
    case Unread => !t.readable
    case LowGas => t.readable && t.gas < l.gasFloor
    case Sized(a) =>
      t.readable && t.gas >= l.gasFloor && a.call == t.call && a.fill.taker == inv && AsProposed(a.fill, t, band)
      && (a.fill.qty != 0 ==> WithinCaps(a.fill))
  }

  /** The turns are those of the ticks, one by one, none after a stop. */
  ghost predicate IsRun(turns: seq<Turn>, ticks: seq<Tick>, start: real, band: int, l: Limits) {
    turns == [] ||
    (var n := |turns| - 1;
     var before := turns[..n];
     && n < |ticks| && IsRun(before, ticks, start, band, l) && !Stops(before, l)
     && FollowsFrom(turns[n], ticks[n], start + Moved(Attempts(before)), band, l))
  }

  lemma OneMoreAttempt(turns: seq<Turn>, turn: Turn)
    ensures Attempts(turns + [turn]) == Attempts(turns) + if turn.Sized? && turn.a.fill.qty != 0 then [turn.a] else []
  {
    var all := turns + [turn];
    assert all[..|all| - 1] == turns && all[|all| - 1] == turn;
  }

  lemma OneMoreFailure(turns: seq<Turn>, turn: Turn)
    ensures Fails(turns + [turn]) == if Returned(turn) then 0 else Fails(turns) + if Failed(turn) then 1 else 0
  {
    var all := turns + [turn];
    assert all[..|all| - 1] == turns && all[|all| - 1] == turn;
  }

  lemma OneMoreTurn(turns: seq<Turn>, turn: Turn)
    ensures (turns + [turn])[..|turns|] == turns
    ensures var more := turn.Sized? && turn.a.fill.qty != 0;
            && Moved(Attempts(turns + [turn])) ==
               Moved(Attempts(turns)) + (if more && Landed(turn.a) then turn.a.fill.qty as real else 0.0)
            && Count(Attempts(turns + [turn]), Counted) ==
               Count(Attempts(turns), Counted) + (if more && Counted(turn.a) then 1 else 0)
  {
    var log := Attempts(turns);
    OneMoreAttempt(turns, turn);
    if turn.Sized? && turn.a.fill.qty != 0 {
      LogOneMore(log, turn.a);
    } else {
      assert log + [] == log;
    }
  }

  lemma {:induction false} AttemptsAreWithinCaps(turns: seq<Turn>, ticks: seq<Tick>, start: real, band: int, l: Limits)
    requires IsRun(turns, ticks, start, band, l)
    ensures forall a :: a in Attempts(turns) ==> a.fill.qty != 0 && WithinCaps(a.fill)
  {
    if turns != [] {
      AttemptsAreWithinCaps(turns[..|turns| - 1], ticks, start, band, l);
    }
  }

  lemma {:induction false} OnceCountsOne(turns: seq<Turn>, ticks: seq<Tick>, start: real, band: int, l: Limits)
    requires IsRun(turns, ticks, start, band, l) && l.once
    ensures Count(Attempts(turns), Counted) <= if turns != [] && Returned(turns[|turns| - 1]) then 1 else 0
  {
    if turns != [] {
      var n := |turns| - 1;
      OnceCountsOne(turns[..n], ticks, start, band, l);
      assert turns == turns[..n] + [turns[n]];
      OneMoreTurn(turns[..n], turns[n]);
    }
  }

  /** The guarded loop. It takes its ticks one by one until it must stop and no
      further. However the reads fail, the marks move, the calls end and the others
      trade, the net position is conserved, every trade asked for respects both
      caps, this taker's own inventory never leaves the band it started in, and it
      moves by exactly what landed. `done` counts the calls that returned, of which
      there are no more than asked for. */
  method Run(book: Book, me: nat, ticks: seq<Tick>, band: int, l: Limits)
    returns (done: nat, ghost turns: seq<Turn>)
    requires book.Valid() && 0 < me < |book.positions|
    requires forall t :: t in ticks ==> ValidDraw(t.draw)
    modifies book
    ensures book.Valid() && |book.positions| == old(|book.positions|)
    ensures Net(book.positions) == old(Net(book.positions))
    ensures Abs(book.positions[me]) <= Max(old(Abs(book.positions[me])), Max(1.0, band as real))
    ensures IsRun(turns, ticks, old(book.positions[me]), band, l) && (|turns| < |ticks| ==> Stops(turns, l))
    ensures book.positions[me] == old(book.positions[me]) + Moved(Attempts(turns))
    ensures done == Count(Attempts(turns), Counted) <= l.maxTrades && (l.once ==> done <= 1)
    ensures forall a :: a in Attempts(turns) ==> a.fill.qty != 0 && WithinCaps(a.fill)
  {
    done, turns := 0, [];
    var fails, k := 0, 0;
    ghost var start := book.positions[me];
    var stop := false;
    while k < |ticks| && done < l.maxTrades && !stop
      invariant k == |turns| && IsRun(turns, ticks, start, band, l)
      invariant stop || done >= l.maxTrades <==> Stops(turns, l)
      invariant fails == Fails(turns) && done == Count(Attempts(turns), Counted) <= l.maxTrades
      invariant book.Valid() && |book.positions| == old(|book.positions|)
      invariant Net(book.positions) == old(Net(book.positions))
      invariant Abs(book.positions[me]) <= Max(Abs(start), Max(1.0, band as real))
      invariant book.positions[me] == start + Moved(Attempts(turns))
    {
      var t := ticks[k];
      k := k + 1;
      OthersMove(book, me, t.others, t.collateral);
      ghost var turn := Unread;
      var heard, skipped := false, false;
      if t.readable {
        if t.gas < l.gasFloor {
          turn, skipped, stop := LowGas, true, true;
        } else {
          var qty;
          ghost var a;
          qty, heard, a := TakeTurn(book, me, t, band);
          turn, skipped := Sized(a), qty == 0;
        }
      }
      OneMoreTurn(turns, turn);
      OneMoreFailure(turns, turn);
      turns := turns + [turn];
      if heard {
        done, fails, stop := done + 1, 0, l.once;
      } else if !skipped {
        fails := fails + 1;
        stop := fails >= MAX_FAILS || (l.once && fails >= l.onceAttempts);
      }
    }
    AttemptsAreWithinCaps(turns, ticks, start, band, l);
    if l.once {
      OnceCountsOne(turns, ticks, start, band, l);
    }
  }

  lemma LogOneMore(log: seq<Attempt>, a: Attempt)
    ensures Moved(log + [a]) == Moved(log) + if Landed(a) then a.fill.qty as real else 0.0
    ensures Count(log + [a], Counted) == Count(log, Counted) + if Counted(a) then 1 else 0
  {
    assert (log + [a])[..|log|] == log;
  }
}
