/** A device-grant issuer and its polling client (sections 3.2, 3.4 and 3.5 of
    RFC 8628). */
module Issuer {
  import Decimal

  datatype Option<+T> = None | Some(value: T)

  const ORB := "orb"

  /** What is remembered of one device code. */
  datatype Grant = Grant(left: nat, wanted: seq<string>, aud: string)

  datatype Reply = InvalidGrant | Pending | Denied | Token(aud: string, acr: string)

  function Usable(wanted: seq<string>, advertised: seq<string>): seq<string> {
    if wanted == [] then []
    else
      var rest := Usable(wanted[1..], advertised);
      if wanted[0] in advertised then [wanted[0]] + rest else rest
  }

  /** The answer of a code that is no longer pending. */
  function Terminal(g: Grant, deny: bool, advertised: seq<string>): Reply {
    var usable := Usable(g.wanted, advertised);
    if deny || (g.wanted != [] && usable == []) then Denied
    else Token(g.aud, if usable != [] then usable[0] else ORB)
  }

  function Answer(g: Grant, deny: bool, advertised: seq<string>): (Reply, Grant) {
    if g.left > 0 then (Pending, g.(left := g.left - 1)) else (Terminal(g, deny, advertised), g)
  }

  /** The grant after `k` polls reached the issuer. */
  function After(g: Grant, k: nat): Grant {
    g.(left := if k < g.left then g.left - k else 0)
  }

  /** A code answers exactly its number of pending replies, then one terminal reply for ever. */
  lemma PollNumber(g: Grant, deny: bool, advertised: seq<string>, k: nat)
    ensures var (reply, next) := Answer(After(g, k), deny, advertised);
            next == After(g, k + 1) && reply == if k < g.left then Pending else Terminal(g, deny, advertised)
  {}

  lemma {:induction false} UsableMembers(wanted: seq<string>, advertised: seq<string>)
    ensures forall a :: a in Usable(wanted, advertised) <==> a in wanted && a in advertised
  {
    if wanted != [] {
      UsableMembers(wanted[1..], advertised);
      assert wanted == [wanted[0]] + wanted[1..];
    }
  }

  /** A token is issued exactly when not denied and, if classes were named, one of
      them is advertised; it carries the requesting client as audience and, if
      classes were named, one that is both wanted and advertised. */
  lemma TokenTerms(g: Grant, deny: bool, advertised: seq<string>)
    ensures var r := Terminal(g, deny, advertised);
            && (r.Token? <==> !deny && (g.wanted == [] || exists a :: a in g.wanted && a in advertised))
            && (r.Token? ==> r.aud == g.aud)
            && (r.Token? && g.wanted != [] ==> r.acr in g.wanted && r.acr in advertised)
  {
    UsableMembers(g.wanted, advertised);
    var usable := Usable(g.wanted, advertised);
    if usable != [] {
      assert usable[0] in usable;
    }
  }

  /** Of the wanted classes the first advertised one is granted; without any named,
      the default. */
  lemma {:induction false} FirstWantedIsGranted(wanted: seq<string>, advertised: seq<string>, k: nat)
    requires k < |wanted| && wanted[k] in advertised && forall j :: 0 <= j < k ==> wanted[j] !in advertised
    ensures Usable(wanted, advertised) != [] && Usable(wanted, advertised)[0] == wanted[k]
  {
    if k > 0 {
      FirstWantedIsGranted(wanted[1..], advertised, k - 1);
    }
  }

  lemma GrantedClassIs(g: Grant, advertised: seq<string>, k: nat)
    requires g.wanted == [] || (k < |g.wanted| && g.wanted[k] in advertised
                                && forall j :: 0 <= j < k ==> g.wanted[j] !in advertised)
    ensures Terminal(g, false, advertised) == Token(g.aud, if g.wanted == [] then "orb" else g.wanted[k])
  {
    if g.wanted != [] {
      FirstWantedIsGranted(g.wanted, advertised, k);
    }
  }

  /** With no class named the default is issued, advertised or not. */
  lemma TokenClassIsAdvertisedIff(g: Grant, advertised: seq<string>)
    requires Terminal(g, false, advertised).Token?
    ensures Terminal(g, false, advertised).acr in advertised <==> g.wanted != [] || ORB in advertised
  {
    TokenTerms(g, false, advertised);
  }

  function Code(n: nat, time: nat): string {
    "dev-" + (Decimal.Digits(n) + "-" + Decimal.Digits(time))
  }

  lemma CodeIsPrinted()
    ensures Code(3, 99) == "dev-3-99"
  {
    Decimal.PaddedExamples();
  }

  lemma CodeInjective(m: nat, s: nat, n: nat, t: nat)
    requires Code(m, s) == Code(n, t)
    ensures m == n
  {
    Decimal.NumeralsAroundMark("dev-", m, Decimal.Digits(s), n, Decimal.Digits(t), '-');
  }

  class Fake {
    const pendingPolls: nat
    const advertised: seq<string>
    const deny: bool
    var codes: map<string, Grant>

    /** Every code issued so far carries a number up to their count. */
    ghost predicate Valid()
      reads this
    {
      forall n: nat, t: nat :: Code(n, t) in codes ==> n <= |codes|
    }

    constructor (pendingPolls: nat, advertised: seq<string>, deny: bool)
      ensures Valid() && codes == map[]
      ensures this.pendingPolls == pendingPolls && this.advertised == advertised && this.deny == deny
    {
      this.pendingPolls, this.advertised, this.deny := pendingPolls, advertised, deny;
      codes := map[];
    }

    /** Device authorization: always a code never issued before. */
    method Authorize(wanted: seq<string>, aud: string, time: nat) returns (code: string)
      requires Valid()
      modifies this
      ensures Valid() && code !in old(codes)
      ensures codes == old(codes)[code := Grant(pendingPolls, wanted, aud)]
    {
      code := Code(|codes| + 1, time);
      ghost var before := codes;
      assert code !in codes;
      codes := codes[code := Grant(pendingPolls, wanted, aud)];
      assert codes.Keys == before.Keys + {code};
      assert |codes| == |before| + 1;
      forall n: nat, t: nat | Code(n, t) in codes ensures n <= |codes| {
        if Code(n, t) == code {
          CodeInjective(n, t, |before| + 1, time);
        }
      }
    }

    /** One token request; other codes are untouched. */
    method Poll(code: string) returns (r: Reply)
      requires Valid()
      modifies this
      ensures Valid()
      ensures code !in old(codes) ==> r == InvalidGrant && codes == old(codes)
      ensures code in old(codes) ==>
                var (reply, next) := Answer(old(codes)[code], deny, advertised);
                r == reply && codes == old(codes)[code := next]
    {
      if code !in codes {
        return InvalidGrant;
      }
      var g := codes[code];
      if g.left > 0 {
        codes := codes[code := g.(left := g.left - 1)];
        assert codes.Keys == old(codes).Keys;
        return Pending;
      }
      assert codes[code := g] == codes;
      var usable := Usable(g.wanted, advertised);
      if deny {
        return Denied;
      }
      if g.wanted != [] && usable == [] {
        return Denied;
      }
      r := Token(g.aud, if usable != [] then usable[0] else ORB);
    }
  }
}

/** The client's poll loop. */
module DeviceClient {
  import opened Issuer

  /** What one attempt to poll brought back; `Dropped` is a transport failure. */
  datatype Polled = Dropped | Approved(token: Reply) | Stopped | StillPending | SlowDown

  /** One turn: the clock when the deadline is checked, then the poll. */
  datatype Turn = Turn(now: real, polled: Polled)

  const SLOW_DOWN_STEP := 5

  /** `widen`: only a slow-down answer lengthens the interval. */
  function Widen(interval: int, p: Polled): int {
    if p.SlowDown? then interval + SLOW_DOWN_STEP else interval
  }

  predicate Final(p: Polled) {
    p.Approved? || p.Stopped?
  }

  /** Turn `k` is reached: the deadline was not over at it or before it, and no
      earlier turn brought a final answer. */
  predicate Reached(turns: seq<Turn>, deadline: real, k: nat) {
    && k < |turns|
    && (forall j :: 0 <= j <= k ==> turns[j].now < deadline)
    && forall j :: 0 <= j < k ==> !Final(turns[j].polled)
  }

  /** Slow-down answers among the first `k` turns. */
  function SlowDowns(turns: seq<Turn>, k: nat): nat
    requires k <= |turns|
  {
    if k == 0 then 0 else SlowDowns(turns, k - 1) + if turns[k - 1].polled.SlowDown? then 1 else 0
  }

  /** The loop. It returns a token exactly when a turn it reached brought one; a
      dropped poll never ends it, it goes on until the deadline or a final answer, and
      each slow-down lengthens every later wait by five seconds. */
  method AwaitToken(turns: seq<Turn>, interval: int, deadline: real) returns (r: Option<Reply>, waits: seq<int>)
    ensures r.Some? ==> exists k: nat :: Reached(turns, deadline, k) && turns[k].polled == Approved(r.value)
    ensures r.None? ==> forall k: nat :: Reached(turns, deadline, k) ==> !turns[k].polled.Approved?
    ensures forall i, j :: 0 <= i <= j < |waits| ==> interval <= waits[i] <= waits[j]
    ensures |waits| <= |turns| && forall i :: 0 <= i < |waits| ==>
              !Final(turns[i].polled) && waits[i] == interval + 5 * SlowDowns(turns, i + 1)
    ensures |waits| < |turns| ==> turns[|waits|].now >= deadline || Final(turns[|waits|].polled)
  {
    waits := [];
    var wait, k := interval, 0;
    while k < |turns| && turns[k].now < deadline
      invariant 0 <= k <= |turns|
      invariant forall j :: 0 <= j < k ==> turns[j].now < deadline && !Final(turns[j].polled)
      invariant interval <= wait && forall i :: 0 <= i < |waits| ==> interval <= waits[i] <= wait
      invariant forall i, j :: 0 <= i <= j < |waits| ==> waits[i] <= waits[j]
      invariant |waits| == k && wait == interval + 5 * SlowDowns(turns, k)
      invariant forall i :: 0 <= i < k ==> waits[i] == interval + 5 * SlowDowns(turns, i + 1)
    {
      var p := turns[k].polled;
      if p.Approved? {
        assert Reached(turns, deadline, k);
        return Some(p.token), waits;
      }
      if p.Stopped? {
        return None, waits;
      }
      wait := Widen(wait, p);
      waits := waits + [wait];
      k := k + 1;
    }
    r := None;
  }

  // --- client against issuer ---

  /** A poll is delivered, or its request, or its reply, is lost on the way. */
  datatype Fate = Delivered | RequestLost | ReplyLost

  function Interpret(r: Reply): Polled {
    match r
    case Pending => StillPending
    case Token(_, _) => Approved(r)
    case Denied => Stopped
    case InvalidGrant => Stopped
  }

  /** How many of the first `k` polls reached the issuer. */
  function Arrived(fates: seq<Fate>, k: nat): nat
    requires k <= |fates|
  {
    if k == 0 then 0 else Arrived(fates, k - 1) + if fates[k - 1].RequestLost? then 0 else 1
  }

  /** What the client sees of poll `k` of a code. */
  function Seen(g: Grant, deny: bool, advertised: seq<string>, fates: seq<Fate>, k: nat): Polled
    requires k < |fates|
  {
    if fates[k].Delivered? then Interpret(Answer(After(g, Arrived(fates, k)), deny, advertised).0) else Dropped
  }

  /** Against this issuer and a network that loses what it likes, the client ends
      with the token at the first poll that is delivered after the pending ones
      are used up, and at no other. */
  lemma {:induction false} TokenArrivesWhen(g: Grant, deny: bool, advertised: seq<string>, fates: seq<Fate>,
                                           turns: seq<Turn>, deadline: real, k: nat)
    requires |turns| == |fates| && k < |turns| && Terminal(g, deny, advertised).Token?
    requires forall j :: 0 <= j < |turns| ==> turns[j].polled == Seen(g, deny, advertised, fates, j)
    requires forall j :: 0 <= j <= k ==> turns[j].now < deadline
    ensures Reached(turns, deadline, k) && turns[k].polled.Approved?
            <==> fates[k].Delivered? && Arrived(fates, k) >= g.left
                 && forall j :: 0 <= j < k && fates[j].Delivered? ==> Arrived(fates, j) < g.left
  {
    forall j | 0 <= j <= k
      ensures Final(turns[j].polled) <==> fates[j].Delivered? && Arrived(fates, j) >= g.left
      ensures Final(turns[j].polled) ==> turns[j].polled.Approved?
    {
      PollNumber(g, deny, advertised, Arrived(fates, j));
    }
  }
}
