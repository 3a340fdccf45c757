/** Settling an expired series: the venue's rule, the oracle's search for the
    settlement print, and the script that decides which call to make. */
module Settlement {

  datatype Print = Print(value: nat, postedAt: int)

  /** Append-only, stamped by block time. */
  ghost predicate Chronological(h: seq<Print>) {
    forall i, j :: 0 <= i <= j < |h| ==> h[i].postedAt <= h[j].postedAt
  }

  ghost predicate AllPositive(h: seq<Print>) {
    forall i :: 0 <= i < |h| ==> h[i].value > 0
  }

  /** Position of the first print posted at or after `from`; the length if none. */
  function First(h: seq<Print>, from: int): (k: nat)
    ensures k <= |h|
  {
    if h == [] || h[0].postedAt >= from then 0 else 1 + First(h[1..], from)
  }

  lemma {:induction false} FirstIsFirst(h: seq<Print>, from: int)
    ensures var k := First(h, from);
            && (forall i :: 0 <= i < k ==> h[i].postedAt < from)
            && (k < |h| ==> h[k].postedAt >= from)
  {
    if h != [] && h[0].postedAt < from {
      FirstIsFirst(h[1..], from);
    }
  }

  /** The oracle's binary search. */
  method FindFirst(h: seq<Print>, from: int) returns (k: nat)
    requires Chronological(h)
    ensures k == First(h, from)
  {
    var lo, hi := 0, |h|;
    FirstIsFirst(h, from);
    while lo < hi
      invariant 0 <= lo <= First(h, from) <= hi <= |h|
    {
      var mid := (lo + hi) / 2;
      if h[mid].postedAt < from {
        lo := mid + 1;
      } else {
        hi := mid;
      }
    }
    k := lo;
  }

  // --- the venue ---

  datatype Terms = Terms(expiry: int, maxAge: int, grace: int)

  /** `settle`: the first print since expiry, and it came soon enough. */
  predicate CanSettle(h: seq<Print>, now: int, t: Terms) {
    var k := First(h, t.expiry);
    now >= t.expiry && k < |h| && h[k].value > 0 && h[k].postedAt - t.expiry <= t.maxAge
  }

  /** The print `settleStale` clears at: the first since expiry, else the last before. */
  function StalePrint(h: seq<Print>, t: Terms): nat
    requires h != []
  {
    var k := First(h, t.expiry);
    if k < |h| then k else |h| - 1
  }

  predicate CanSettleStale(h: seq<Print>, now: int, t: Terms) {
    now >= t.expiry + t.grace && h != [] && h[StalePrint(h, t)].value > 0
  }

  /** Print `k` is the first since expiry, positive and within the age limit. */
  predicate IsPrompt(h: seq<Print>, k: nat, t: Terms)
    requires k < |h|
  {
    h[k].value > 0 && t.expiry <= h[k].postedAt <= t.expiry + t.maxAge
    && forall j :: 0 <= j < k ==> h[j].postedAt < t.expiry
  }

  /** `settle` is open exactly when the first print at or after expiry came within
      the age limit of it, whatever was printed before or since. */
  lemma CanSettleIff(h: seq<Print>, now: int, t: Terms)
    ensures CanSettle(h, now, t)
            <==> now >= t.expiry && exists k :: 0 <= k < |h| && IsPrompt(h, k, t)
  {
    FirstIsFirst(h, t.expiry);
    if CanSettle(h, now, t) {
      assert IsPrompt(h, First(h, t.expiry), t);
    }
    if k :| 0 <= k < |h| && IsPrompt(h, k, t) {
      assert First(h, t.expiry) == k;
    }
  }

  // --- the script's choice ---

  datatype Choice = Settle(at: nat) | SettleStale(at: nat) | Wait

  /** What the script asks for, and the print the venue would then clear at.
      `read` is false when the settlement print could not be read, which looks
      like no print since expiry. */
  function Decide(h: seq<Print>, now: int, t: Terms, read: bool): Choice
    requires h != []
  {
    var k := First(h, t.expiry);
    if read && k < |h| && h[k].postedAt - t.expiry <= t.maxAge then Settle(k)
    else if now >= t.expiry + t.grace then SettleStale(StalePrint(h, t))
    else Wait
  }

  /** The script makes a call the venue accepts whenever it makes one: `settle`
      exactly when that would pass and its print could be read, else `settleStale`
      exactly when that would. It waits while both would revert, and inside the
      grace also when the print of an open `settle` could not be read. */
  lemma ChoiceMatchesVenue(h: seq<Print>, now: int, t: Terms, read: bool)
    requires h != [] && AllPositive(h) && now >= t.expiry
    ensures Decide(h, now, t, read).Settle? <==> read && CanSettle(h, now, t)
    ensures Decide(h, now, t, read).SettleStale? <==> !(read && CanSettle(h, now, t)) && CanSettleStale(h, now, t)
    ensures Decide(h, now, t, read).Wait? <==> !CanSettleStale(h, now, t) && !(read && CanSettle(h, now, t))
  {}

  /** Past the grace a failed read changes the call, not the print it clears at. */
  lemma FailedReadClearsAtSamePrint(h: seq<Print>, now: int, t: Terms)
    requires h != [] && now >= t.expiry + t.grace
    ensures Decide(h, now, t, false).SettleStale? && !Decide(h, now, t, true).Wait?
    ensures Decide(h, now, t, false).at == Decide(h, now, t, true).at
  {}

  /** The settlement print is fixed once it exists: later prints do not move it. */
  lemma {:induction false} FirstIsStable(h: seq<Print>, later: seq<Print>, from: int)
    requires First(h, from) < |h|
    ensures First(h + later, from) == First(h, from)
  {
    if h[0].postedAt < from {
      assert (h + later)[1..] == h[1..] + later;
      FirstIsStable(h[1..], later, from);
    }
  }

  /** Once `settle` is open it stays open, at the same print, whatever is posted
      afterwards and however late the call. */
  lemma SettleStaysOpen(h: seq<Print>, later: seq<Print>, now: int, then': int, t: Terms)
    requires h != [] && now <= then' && Decide(h, now, t, true).Settle?
    ensures Decide(h + later, then', t, true) == Decide(h, now, t, true)
  {
    FirstIsStable(h, later, t.expiry);
  }

  lemma {:induction false} FirstOfAppended(h: seq<Print>, p: Print, from: int)
    requires First(h, from) == |h| && p.postedAt >= from
    ensures First(h + [p], from) == |h|
  {
    if h != [] {
      assert (h + [p])[1..] == h[1..] + [p];
      FirstOfAppended(h[1..], p, from);
    }
  }

  /** A stale settlement's print no longer depends on when the call is made exactly
      when some print has been posted since expiry; otherwise the next print,
      itself too late for `settle`, replaces it. */
  lemma StalePriceIsFixedIff(h: seq<Print>, now: int, t: Terms)
    requires h != [] && now >= t.expiry + t.grace && t.grace > t.maxAge >= 0 && Decide(h, now, t, true).SettleStale?
    ensures First(h, t.expiry) < |h| <==>
            forall later: seq<Print> :: (forall i :: 0 <= i < |later| ==> later[i].postedAt >= now) ==>
                                          Decide(h + later, now, t, true) == Decide(h, now, t, true)
  {
    if First(h, t.expiry) < |h| {
      forall later: seq<Print> ensures Decide(h + later, now, t, true) == Decide(h, now, t, true) {
        FirstIsStable(h, later, t.expiry);
      }
    } else {
      var p := Print(1, now);
      FirstOfAppended(h, p, t.expiry);
      assert forall i :: 0 <= i < |[p]| ==> [p][i].postedAt >= now;
      assert Decide(h + [p], now, t, true) == SettleStale(|h|);
    }
  }

  // --- one pass ---

  datatype Series = Series(history: seq<Print>, expiry: int, settled: bool, price: nat)

  predicate Due(s: Series, now: int) {
    !s.settled && s.expiry <= now
  }

  /** What became of a call: sent, sent but reported as failed (a timeout), never
      sent without saying so, or failed on the way with an exception. */
  datatype Call = Sent | SentButRaised | NotSent | Dropped

  /** What the script meets at one series: whether its settlement print could be
      read, its latest print (needed only when the grace could not be read) and the
      wall clock beside it, what became of the call, and whether the series and its
      balances could be read back for the report. */
  datatype Encounter = Encounter(firstRead: bool, latestRead: bool, wall: int, call: Call, reported: bool)

  /** What the script meets once: the list of series, and the venue's grace. An
      unreadable list looks like an empty venue; an unreadable grace looks like a
      venue without the escape hatch. `only` is the one series asked for, if any. */
  datatype Pass = Pass(now: int, maxAge: int, grace: int, listRead: bool, graceRead: bool, only: Option<nat>)

  datatype Option<+T> = None | Some(value: T)

  function TermsOf(s: Series, p: Pass): Terms {
    Terms(s.expiry, p.maxAge, p.grace)
  }

  datatype Ask = AskSettle | AskStale | AskNothing

  /** The call made: by the first-print rule, or by the older latest-print rule. */
  function Asked(s: Series, p: Pass, e: Encounter): Ask
    requires s.history != []
  {
    if p.graceRead then
      match Decide(s.history, p.now, TermsOf(s, p), e.firstRead)
      case Settle(_) => AskSettle
      case SettleStale(_) => AskStale
      case Wait => AskNothing
    else if e.latestRead && e.wall - s.history[|s.history| - 1].postedAt <= p.maxAge then AskSettle
    else AskNothing
  }

  predicate VenueTakes(s: Series, p: Pass, ask: Ask) {
    (ask.AskSettle? && CanSettle(s.history, p.now, TermsOf(s, p)))
    || (ask.AskStale? && CanSettleStale(s.history, p.now, TermsOf(s, p)))
  }

  /** The print either call clears at is the same one. */
  function Cleared(s: Series, p: Pass): Series
    requires s.history != []
  {
    s.(settled := true, price := s.history[StalePrint(s.history, TermsOf(s, p))].value)
  }

  predicate Reaches(c: Call) {
    c.Sent? || c.SentButRaised?
  }

  /** The series after its turn. */
  function After(s: Series, p: Pass, e: Encounter): Series
    requires s.history != []
  {
    if Due(s, p.now) && Reaches(e.call) && VenueTakes(s, p, Asked(s, p, e)) then Cleared(s, p) else s
  }

  datatype End = Fine | Stuck | Died

  /** How its turn ends. An exception, a revert's included, ends the whole script. */
  function EndOf(s: Series, p: Pass, e: Encounter): End
    requires s.history != []
  {
    var ask := Asked(s, p, e);
    if !Due(s, p.now) then Fine
    else if ask.AskNothing? then Stuck
    else if e.call.Dropped? || e.call.SentButRaised? || !e.reported then Died
    else if e.call.Sent? && !VenueTakes(s, p, ask) then Died
    else Fine
  }

  predicate Chosen(p: Pass, i: nat) {
    p.listRead && (p.only.None? || p.only.value == i)
  }

  /** The script gets as far as series `i`. */
  ghost predicate GetsTo(series: seq<Series>, es: seq<Encounter>, p: Pass, i: nat)
    requires |series| == |es| && forall s :: s in series ==> s.history != []
  {
    forall j: nat :: j < i && j < |series| && Chosen(p, j) ==> !EndOf(series[j], p, es[j]).Died?
  }

  /** One pass. Each series the script gets to is settled by its own rule and no
      other changes. It exits with 0 exactly when the list could not be read, or
      no due series asked for was left waiting and nothing raised. */
  method SettleAll(series: seq<Series>, es: seq<Encounter>, p: Pass) returns (after: seq<Series>, code: int)
    requires |series| == |es| && forall s :: s in series ==> s.history != []
    ensures |after| == |series|
    ensures forall i: nat :: i < |series| ==>
              after[i] == if Chosen(p, i) && GetsTo(series, es, p, i) then After(series[i], p, es[i]) else series[i]
    ensures code == 0 <==> forall i: nat :: i < |series| && Chosen(p, i) ==> EndOf(series[i], p, es[i]).Fine?
  {
    after := series;
    if !p.listRead {
      return after, 0;
    }
    var stuck := 0;
    for k := 0 to |series|
      invariant |after| == |series| && GetsTo(series, es, p, k)
      invariant forall i: nat :: k <= i < |series| ==> after[i] == series[i]
      invariant forall i: nat :: i < k ==> after[i] == if Chosen(p, i) then After(series[i], p, es[i]) else series[i]
      invariant stuck == 0 <==> forall i: nat :: i < k && Chosen(p, i) ==> EndOf(series[i], p, es[i]).Fine?
    {
      if Chosen(p, k) {
        var end;
        var s;
        s, end := SettleOne(series[k], p, es[k]);
        after := after[k := s];
        if end.Died? {
          assert forall i: nat :: k < i ==> !GetsTo(series, es, p, i);
          return after, 1;
        }
        if end.Stuck? {
          stuck := stuck + 1;
        }
      }
    }
    code := if stuck > 0 then 1 else 0;
  }

  /** One turn of the loop. */
  method SettleOne(s: Series, p: Pass, e: Encounter) returns (after: Series, end: End)
    requires s.history != []
    ensures after == After(s, p, e) && end == EndOf(s, p, e)
  {
    if !Due(s, p.now) {
      return s, Fine;
    }
    var ask := Asked(s, p, e);
    if ask.AskNothing? {
      return s, Stuck;
    }
    after := if Reaches(e.call) && VenueTakes(s, p, ask) then Cleared(s, p) else s;
    if e.call.Dropped? || e.call.SentButRaised? || (e.call.Sent? && !VenueTakes(s, p, ask)) {
      return after, Died;
    }
    end := if e.reported then Fine else Died;
  }

  // --- what a pass achieves ---

  /** The script asks for a call the venue takes: with the grace read, when it is
      past or `settle` is open and its print could be read; with the grace unread,
      when `settle` is open and the latest print is fresh by the wall clock. */
  predicate AsksRightly(s: Series, p: Pass, e: Encounter)
    requires s.history != []
  {
    if p.graceRead then
      p.now >= s.expiry + p.grace || (e.firstRead && CanSettle(s.history, p.now, TermsOf(s, p)))
    else
      e.latestRead && e.wall - s.history[|s.history| - 1].postedAt <= p.maxAge
      && CanSettle(s.history, p.now, TermsOf(s, p))
  }

  /** A due series is settled in its turn exactly when the script asks rightly and
      the call goes out. */
  lemma TurnSettlesIff(s: Series, p: Pass, e: Encounter)
    requires s.history != [] && AllPositive(s.history) && Due(s, p.now) && p.grace >= 0
    ensures !Due(After(s, p, e), p.now) <==> AsksRightly(s, p, e) && Reaches(e.call)
    ensures After(s, p, e) == s || After(s, p, e) == Cleared(s, p)
  {
    ChoiceMatchesVenue(s.history, p.now, TermsOf(s, p), e.firstRead);
  }

  /** The price of a settled series: that of the first print since expiry, or of the
      last print there is when none came since. Nothing else of it changes. */
  lemma PriceIsSettlementPrint(s: Series, p: Pass, e: Encounter) returns (k: nat)
    requires s.history != [] && After(s, p, e) != s
    ensures k < |s.history| && After(s, p, e) == Series(s.history, s.expiry, true, s.history[k].value)
    ensures forall j :: 0 <= j < k ==> s.history[j].postedAt < s.expiry
    ensures s.history[k].postedAt >= s.expiry || k == |s.history| - 1
  {
    FirstIsFirst(s.history, s.expiry);
    k := StalePrint(s.history, TermsOf(s, p));
  }

  /** A turn leaves the series waiting exactly when it is due and the script sees no
      open call: inside the grace, without a settlement print that it can read and
      that came soon enough; or, the grace unread, without a fresh latest print. */
  lemma StuckIff(s: Series, p: Pass, e: Encounter)
    requires s.history != [] && AllPositive(s.history)
    ensures EndOf(s, p, e).Stuck?
            <==> Due(s, p.now)
                 && if p.graceRead then
                      p.now < s.expiry + p.grace && !(e.firstRead && CanSettle(s.history, p.now, TermsOf(s, p)))
                    else
                      !(e.latestRead && e.wall - s.history[|s.history| - 1].postedAt <= p.maxAge)
  {}

  /** A turn ends well exactly when nothing was due, or a call was asked for, it
      returned (settling the series, or never having been sent) and the report
      could be made. Everything else ends the pass. */
  lemma FineIff(s: Series, p: Pass, e: Encounter)
    requires s.history != []
    ensures EndOf(s, p, e).Fine?
            <==> || !Due(s, p.now)
                 || (!EndOf(s, p, e).Stuck? && e.reported
                     && (e.call.NotSent? || (e.call.Sent? && !Due(After(s, p, e), p.now))))
  {}

  /** When the grace could not be read, a call that reaches the venue reverts, and
      ends the pass, exactly when the latest print is fresh though `settle` is not open. */
  lemma UnreadGraceRevertsIff(s: Series, p: Pass, e: Encounter)
    requires s.history != [] && Due(s, p.now) && !p.graceRead && e.call.Sent? && e.reported
    ensures EndOf(s, p, e).Died?
            <==> e.latestRead && e.wall - s.history[|s.history| - 1].postedAt <= p.maxAge
                 && !CanSettle(s.history, p.now, TermsOf(s, p))
  {}

  /** From expiry plus grace on nothing need stay locked: the venue accepts one of
      the two calls, and with the grace read every call that goes out settles the
      series, at a print of its own history, whether its print could be read or not. */
  lemma NothingLockedAfterGrace(s: Series, p: Pass, e: Encounter)
    requires s.history != [] && AllPositive(s.history) && p.now >= s.expiry + p.grace && p.grace >= 0
    requires p.graceRead
    ensures CanSettle(s.history, p.now, TermsOf(s, p)) || CanSettleStale(s.history, p.now, TermsOf(s, p))
    ensures Due(s, p.now) ==> (!Due(After(s, p, e), p.now) <==> Reaches(e.call))
    ensures Due(s, p.now) && Reaches(e.call) ==>
              exists q :: q in s.history && After(s, p, e).price == q.value
  {
    ChoiceMatchesVenue(s.history, p.now, TermsOf(s, p), e.firstRead);
    assert s.history[StalePrint(s.history, TermsOf(s, p))] in s.history;
    if Due(s, p.now) {
      TurnSettlesIff(s, p, e);
    }
  }

  /** Everything a pass can leave behind: nothing is due afterwards exactly when the
      script got to every due series, asked rightly there and its call went out. */
  lemma PassClearsIff(series: seq<Series>, es: seq<Encounter>, p: Pass)
    requires |series| == |es| && p.grace >= 0
    requires forall s :: s in series ==> s.history != [] && AllPositive(s.history)
    ensures (forall i: nat :: i < |series| ==> !Due(Left(series, es, p, i), p.now))
            <==> forall i: nat :: i < |series| && Due(series[i], p.now) ==>
                   && Chosen(p, i) && GetsTo(series, es, p, i)
                   && AsksRightly(series[i], p, es[i]) && Reaches(es[i].call)
  {
    forall i: nat | i < |series| && Due(series[i], p.now)
      ensures !Due(Left(series, es, p, i), p.now)
              <==> Chosen(p, i) && GetsTo(series, es, p, i)
                   && AsksRightly(series[i], p, es[i]) && Reaches(es[i].call)
    {
      assert series[i] in series;
      TurnSettlesIff(series[i], p, es[i]);
    }
    forall i: nat | i < |series| && !Due(series[i], p.now) ensures !Due(Left(series, es, p, i), p.now) {
      assert series[i] in series;
    }
  }

  /** Series `i` after the pass. */
  ghost function Left(series: seq<Series>, es: seq<Encounter>, p: Pass, i: nat): Series
    requires |series| == |es| && (forall s :: s in series ==> s.history != []) && i < |series|
  {
    if Chosen(p, i) && GetsTo(series, es, p, i) then After(series[i], p, es[i]) else series[i]
  }

  /** Exit code 0 means that nothing is due exactly when every due series was listed,
      asked for and its call sent: the code says nothing of a call never sent. */
  lemma ExitZeroMeansDoneIff(series: seq<Series>, es: seq<Encounter>, p: Pass)
    requires |series| == |es| && p.grace >= 0
    requires forall s :: s in series ==> s.history != [] && AllPositive(s.history)
    requires forall i: nat :: i < |series| && Chosen(p, i) ==> EndOf(series[i], p, es[i]).Fine?
    ensures (forall i: nat :: i < |series| ==> !Due(Left(series, es, p, i), p.now))
            <==> forall i: nat :: i < |series| && Due(series[i], p.now) ==> Chosen(p, i) && es[i].call.Sent?
  {
    PassClearsIff(series, es, p);
    forall i: nat | i < |series| && Due(series[i], p.now) && Chosen(p, i)
      ensures AsksRightly(series[i], p, es[i]) && Reaches(es[i].call) <==> es[i].call.Sent?
    {
      assert series[i] in series;
      TurnSettlesIff(series[i], p, es[i]);
    }
  }
}
