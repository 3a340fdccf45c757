/** Robust aggregation of a price basket, and the checks an anchor file must pass. */
module Anchors {
  import opened Rounding
  import Sorting

  datatype Option<+T> = None | Some(value: T)

  datatype Rule = Median | Mean

  datatype Summary = Summary(value: real, n: nat, min: real, p25: real, p75: real, max: real)

  predicate AtMost(x: real, y: real) {
    x <= y
  }

  function Sorted(values: seq<real>): (vs: seq<real>) {
    Sorting.Sort(AtMost, values)
  }

  /** Inputs dropped at each end. */
  function Dropped(n: nat, trim: real): int {
    Trunc(n as real * trim)
  }

  /** The slice kept after trimming; an empty slice falls back to everything. */
  function Trimmed(vs: seq<real>, trim: real): seq<real> {
    var k := Dropped(|vs|, trim);
    if trim > 0.0 && |vs| > 2 && 2 * k < |vs| then vs[k..|vs| - k] else vs
  }

  function Sum(s: seq<real>): real {
    if s == [] then 0.0 else Sum(s[..|s| - 1]) + s[|s| - 1]
  }

  function MeanOf(s: seq<real>): real
    requires s != []
  {
    Sum(s) / |s| as real
  }

  function MedianOf(s: seq<real>): real
    requires s != []
  {
    if |s| % 2 == 1 then s[|s| / 2] else (s[|s| / 2 - 1] + s[|s| / 2]) / 2.0
  }

  /** `None` stands for an empty basket. */
  function Aggregate(values: seq<real>, rule: Rule, trim: real): Option<Summary> {
    SortedFacts(values);
    var vs := Trimmed(Sorted(values), trim);
    if values == [] then None
    else
      Some(Summary(if rule.Median? then MedianOf(vs) else MeanOf(vs), |values|,
                   vs[0], vs[|vs| / 4], vs[3 * |vs| / 4], vs[|vs| - 1]))
  }

  lemma AtMostIsTotal()
    ensures Sorting.TotalOrder(AtMost)
  {}

  lemma SortedFacts(values: seq<real>)
    ensures |Sorted(values)| == |values| && multiset(Sorted(values)) == multiset(values)
    ensures forall i, j :: 0 <= i <= j < |values| ==> Sorted(values)[i] <= Sorted(values)[j]
  {
    AtMostIsTotal();
    Sorting.SortSorts(AtMost, values);
    Sorting.SortPermutes(AtMost, values);
    Sorting.SameMembers(Sorted(values), values);
  }

  /** The answer does not depend on the order of the rows. */
  lemma OrderOfRowsIsIrrelevant(values: seq<real>, shuffled: seq<real>, rule: Rule, trim: real)
    requires multiset(values) == multiset(shuffled)
    ensures Aggregate(values, rule, trim) == Aggregate(shuffled, rule, trim)
  {
    AtMostIsTotal();
    Sorting.SortSorts(AtMost, values);
    Sorting.SortSorts(AtMost, shuffled);
    SortedFacts(values);
    SortedFacts(shuffled);
    Sorting.SortedIsUnique(AtMost, Sorted(values), Sorted(shuffled));
    Sorting.SameMembers(values, shuffled);
  }

  // --- means and medians between bounds ---

  ghost predicate AllWithin(s: seq<real>, lo: real, hi: real) {
    forall i :: 0 <= i < |s| ==> lo <= s[i] <= hi
  }

  lemma {:induction false} SumWithin(s: seq<real>, lo: real, hi: real)
    requires AllWithin(s, lo, hi)
    ensures lo * |s| as real <= Sum(s) <= hi * |s| as real
  {
    if s != [] {
      var rest := s[..|s| - 1];
      SumWithin(rest, lo, hi);
      assert lo * |s| as real == lo * |rest| as real + lo;
      assert hi * |s| as real == hi * |rest| as real + hi;
    }
  }

  lemma Quotient(lo: real, x: real, hi: real, n: real)
    requires n > 0.0 && lo * n <= x <= hi * n
    ensures lo <= x / n <= hi
  {
    var q := x / n;
    assert q * n == x;
    Cancel(q - lo, n);
    Cancel(hi - q, n);
  }

  lemma Cancel(d: real, n: real)
    requires n > 0.0 && 0.0 <= d * n
    ensures 0.0 <= d
  {}

  lemma MeanWithin(s: seq<real>, lo: real, hi: real)
    requires s != [] && AllWithin(s, lo, hi)
    ensures lo <= MeanOf(s) <= hi
  {
    SumWithin(s, lo, hi);
    Quotient(lo, Sum(s), hi, |s| as real);
  }

  ghost predicate NonDecreasing(s: seq<real>) {
    forall i, j :: 0 <= i <= j < |s| ==> s[i] <= s[j]
  }

  lemma QuartilesAroundMedian(vs: seq<real>)
    requires vs != [] && NonDecreasing(vs)
    ensures vs[0] <= vs[|vs| / 4] <= MedianOf(vs) <= vs[3 * |vs| / 4] <= vs[|vs| - 1]
  {
    var n := |vs|;
    assert vs[n / 4] <= vs[(n - 1) / 2] <= vs[n / 2] <= vs[3 * n / 4];
  }

  lemma {:induction false} TrimmedStaysSorted(vs: seq<real>, trim: real)
    requires vs != [] && NonDecreasing(vs)
    ensures Trimmed(vs, trim) != [] && NonDecreasing(Trimmed(vs, trim))
  {
    var t, k := Trimmed(vs, trim), Dropped(|vs|, trim);
    if |t| < |vs| {
      assert forall i :: 0 <= i < |t| ==> t[i] == vs[k + i];
    }
  }

  /** min <= p25 <= median <= p75 <= max, and the value never leaves [min, max]. */
  lemma SummaryIsOrdered(values: seq<real>, trim: real)
    requires values != []
    ensures var m := Aggregate(values, Median, trim).value;
            m.min <= m.p25 <= m.value <= m.p75 <= m.max && m.n == |values|
    ensures var a := Aggregate(values, Mean, trim).value; a.min <= a.value <= a.max
  {
    SortedFacts(values);
    TrimmedStaysSorted(Sorted(values), trim);
    var vs := Trimmed(Sorted(values), trim);
    QuartilesAroundMedian(vs);
    MeanWithin(vs, vs[0], vs[|vs| - 1]);
  }

  lemma Halves(n: nat, k: nat)
    requires 2 * k < n
    ensures (n - 2 * k) % 2 == n % 2 && k + (n - 2 * k) / 2 == n / 2
  {}

  lemma MiddleIsKept(vs: seq<real>, k: nat)
    requires 2 * k < |vs|
    ensures MedianOf(vs[k..|vs| - k]) == MedianOf(vs)
  {
    Halves(|vs|, k);
    var t := vs[k..|vs| - k];
    assert t[|t| / 2] == vs[|vs| / 2];
  }

  lemma TrimKeepsMedian(vs: seq<real>, trim: real)
    requires vs != []
    ensures Trimmed(vs, trim) != [] && MedianOf(Trimmed(vs, trim)) == MedianOf(vs)
  {
    var k := Dropped(|vs|, trim);
    if trim > 0.0 && |vs| > 2 && 2 * k < |vs| {
      MiddleIsKept(vs, k);
    }
  }

  /** What is kept when trimming drops `k` at each end: everything when the trim is
      off, the basket is two rows or fewer, or nothing would remain. */
  lemma KeptSlice(vs: seq<real>, trim: real, k: nat)
    requires 0.0 <= trim && k as real <= |vs| as real * trim < k as real + 1.0
    ensures Trimmed(vs, trim) == if 0.0 < trim && 2 < |vs| && k < |vs| - k then vs[k..|vs| - k] else vs
  {
    assert Dropped(|vs|, trim) == k;
  }

  /** The median: the middle sorted value, or halfway between the middle two. */
  lemma MedianIsMiddle(values: seq<real>, trim: real)
    requires values != []
    ensures |Sorted(values)| == |values|
    ensures 2.0 * Aggregate(values, Median, trim).value.value
            == Sorted(values)[(|values| - 1) / 2] + Sorted(values)[|values| / 2]
  {
    SortedFacts(values);
    TrimKeepsMedian(Sorted(values), trim);
  }

  lemma SumAppended(s: seq<real>, x: real)
    ensures Sum(s + [x]) == Sum(s) + x && Sum([]) == 0.0
  {
    assert (s + [x])[..|s|] == s;
  }

  lemma MeanTimesCount(s: seq<real>, mean: real)
    requires s != [] && mean == MeanOf(s)
    ensures mean * |s| as real == Sum(s)
  {}

  /** The mean: times their number, the kept values' sum. */
  lemma MeanIsAverage(values: seq<real>, trim: real, kept: seq<real>, mean: real)
    requires values != [] && kept == Trimmed(Sorted(values), trim)
    requires mean == Aggregate(values, Mean, trim).value.value
    ensures kept != [] && mean * |kept| as real == Sum(kept)
  {
    SortedFacts(values);
    TrimmedStaysSorted(Sorted(values), trim);
    MeanTimesCount(kept, mean);
  }

  /** The extremes are the ends of the kept values; the quartiles stand a quarter and
      three quarters of the way into them, rounded down. */
  lemma QuartilesAre(values: seq<real>, rule: Rule, trim: real, lower: nat, upper: nat)
    requires values != []
    requires var n := |Trimmed(Sorted(values), trim)|;
             4 * lower <= n < 4 * lower + 4 && 4 * upper <= 3 * n < 4 * upper + 4
    ensures var kept := Trimmed(Sorted(values), trim);
            var a := Aggregate(values, rule, trim).value;
            && 0 < |kept| && upper < |kept| && a.n == |values|
            && a.min == kept[0] && a.max == kept[|kept| - 1] && a.p25 == kept[lower] && a.p75 == kept[upper]
  {
    SortedFacts(values);
    TrimmedStaysSorted(Sorted(values), trim);
    var n := |Trimmed(Sorted(values), trim)|;
    assert lower == n / 4 && upper == 3 * n / 4;
  }

  // --- the breakdown point ---

  function Count(p: real -> bool, s: seq<real>): nat {
    if s == [] then 0 else (if p(s[0]) then 1 else 0) + Count(p, s[1..])
  }

  lemma {:induction false} CountInsert(p: real -> bool, x: real, s: seq<real>)
    ensures Count(p, Sorting.Insert(AtMost, x, s)) == (if p(x) then 1 else 0) + Count(p, s)
  {
    if s != [] {
      if AtMost(x, s[0]) {
        assert ([x] + s)[1..] == s;
      } else {
        var rest := Sorting.Insert(AtMost, x, s[1..]);
        assert ([s[0]] + rest)[1..] == rest;
        CountInsert(p, x, s[1..]);
      }
    }
  }

  lemma {:induction false} CountSorted(p: real -> bool, s: seq<real>)
    ensures Count(p, Sorted(s)) == Count(p, s)
  {
    if s != [] {
      CountSorted(p, s[1..]);
      CountInsert(p, s[0], Sorted(s[1..]));
    }
  }

  /** When the first `m` items all satisfy `p`, at least `m` do. */
  lemma {:induction false} CountPrefix(p: real -> bool, s: seq<real>, m: nat)
    requires m <= |s| && forall i :: 0 <= i < m ==> p(s[i])
    ensures m <= Count(p, s) <= |s|
  {
    if s != [] {
      assert forall i :: 0 <= i < m - 1 ==> p(s[1..][i]);
      CountPrefix(p, s[1..], if m == 0 then 0 else m - 1);
    }
  }

  lemma {:induction false} CountSuffix(p: real -> bool, s: seq<real>, m: nat)
    requires m <= |s| && forall i :: |s| - m <= i < |s| ==> p(s[i])
    ensures m <= Count(p, s)
  {
    if s != [] {
      if m == |s| {
        CountPrefix(p, s, m);
      } else {
        assert forall i :: |s| - 1 - m <= i < |s| - 1 ==> s[1..][i] == s[i + 1];
        CountSuffix(p, s[1..], m);
      }
    }
  }

  /** How many inputs differ. */
  function Replaced(v: seq<real>, w: seq<real>): nat
    requires |v| == |w|
  {
    if v == [] then 0 else (if v[0] != w[0] then 1 else 0) + Replaced(v[1..], w[1..])
  }

  /** Only replaced inputs can satisfy what no untouched one does. */
  lemma {:induction false} CountReplaced(p: real -> bool, v: seq<real>, w: seq<real>)
    requires |v| == |w| && forall i :: 0 <= i < |v| && v[i] == w[i] ==> !p(v[i])
    ensures Count(p, w) <= Replaced(v, w)
  {
    if v != [] {
      CountReplaced(p, v[1..], w[1..]);
    }
  }

  /** The untouched inputs of `v`, those that `w` repeats in place, lie in [lo, hi]. */
  ghost predicate UntouchedWithin(v: seq<real>, w: seq<real>, lo: real, hi: real)
    requires |v| == |w|
  {
    forall i :: 0 <= i < |v| && v[i] == w[i] ==> lo <= v[i] <= hi
  }

  /** With `c` inputs replaced, everything but the `c` least and the `c` greatest
      sorted values is within the range of the untouched inputs. */
  lemma CoreIsWithin(v: seq<real>, w: seq<real>, lo: real, hi: real, j: nat)
    requires |v| == |w| && UntouchedWithin(v, w, lo, hi)
    requires Replaced(v, w) <= j && j + Replaced(v, w) < |w|
    ensures |Sorted(w)| == |w| && lo <= Sorted(w)[j] <= hi
  {
    SortedFacts(w);
    var s := Sorted(w);
    var below, above := (x: real) => x < lo, (x: real) => x > hi;
    CountReplaced(below, v, w);
    CountReplaced(above, v, w);
    CountSorted(below, w);
    CountSorted(above, w);
    if s[j] < lo {
      CountPrefix(below, s, j + 1);
    }
    if hi < s[j] {
      CountSuffix(above, s, |s| - j);
    }
  }

  /** Trimmed mean: replacing up to the trimmed number of inputs, however far,
      leaves it within the range of the rest. */
  lemma TrimmedMeanIsRobust(v: seq<real>, w: seq<real>, trim: real, lo: real, hi: real)
    requires |v| == |w| > 2 && trim > 0.0 && 2 * Dropped(|w|, trim) < |w|
    requires Replaced(v, w) <= Dropped(|w|, trim) && UntouchedWithin(v, w, lo, hi)
    ensures lo <= Aggregate(w, Mean, trim).value.value <= hi
  {
    SortedFacts(w);
    var k := Dropped(|w|, trim);
    var vs := Trimmed(Sorted(w), trim);
    forall i | 0 <= i < |vs| ensures lo <= vs[i] <= hi {
      CoreIsWithin(v, w, lo, hi, k + i);
    }
    MeanWithin(vs, lo, hi);
  }

  /** Median: replacing fewer than half leaves it within the range of the rest,
      trimmed or not. */
  lemma {:induction false} MedianIsRobust(v: seq<real>, w: seq<real>, trim: real, lo: real, hi: real)
    requires |v| == |w| && 2 * Replaced(v, w) < |w| && UntouchedWithin(v, w, lo, hi)
    ensures lo <= Aggregate(w, Median, trim).value.value <= hi
  {
    SortedFacts(w);
    CoreIsWithin(v, w, lo, hi, (|w| - 1) / 2);
    CoreIsWithin(v, w, lo, hi, |w| / 2);
    TrimKeepsMedian(Sorted(w), trim);
  }

  /** `v` with its last `c` inputs replaced by `x`. */
  function ReplaceLast(v: seq<real>, c: nat, x: real): seq<real>
    requires c <= |v|
  {
    v[..|v| - c] + seq(c, _ => x)
  }

  lemma {:induction false} ReplacedAtMost(v: seq<real>, c: nat, x: real)
    requires c <= |v|
    ensures Replaced(v, ReplaceLast(v, c, x)) <= c
  {
    if v != [] {
      var w := ReplaceLast(v, c, x);
      if c < |v| {
        assert w[1..] == ReplaceLast(v[1..], c, x);
        ReplacedAtMost(v[1..], c, x);
      } else {
        assert w[1..] == ReplaceLast(v[1..], c - 1, x);
        ReplacedAtMost(v[1..], c - 1, x);
      }
    }
  }

  /** `c` replaced inputs take over every sorted place from the `c`-th from the top. */
  lemma TopIsReplaced(v: seq<real>, c: nat, x: real, j: nat)
    requires c <= |v| && |v| - c <= j < |v|
    ensures var s := Sorted(ReplaceLast(v, c, x)); |s| == |v| && x <= s[j]
  {
    var w := ReplaceLast(v, c, x);
    var s := Sorted(w);
    SortedFacts(w);
    var high, low := (y: real) => y >= x, (y: real) => y < x;
    CountSuffix(high, w, c);
    CountSorted(high, w);
    if s[j] < x {
      CountPrefix(low, s, j + 1);
      CountComplement(high, low, s);
    }
  }

  lemma {:induction false} CountComplement(p: real -> bool, q: real -> bool, s: seq<real>)
    requires forall x :: p(x) <==> !q(x)
    ensures Count(p, s) + Count(q, s) == |s|
  {
    if s != [] {
      CountComplement(p, q, s[1..]);
    }
  }

  lemma SortedKeepsBound(w: seq<real>, lo: real)
    requires forall i :: 0 <= i < |w| ==> lo <= w[i]
    ensures |Sorted(w)| == |w| && forall i :: 0 <= i < |w| ==> lo <= Sorted(w)[i]
  {
    SortedFacts(w);
    Sorting.SameMembers(Sorted(w), w);
    forall i | 0 <= i < |w| ensures lo <= Sorted(w)[i] {
      assert Sorted(w)[i] in Sorted(w);
    }
  }

  /** The breakdown point is exact for the median: half the inputs, replaced by a
      large enough value, push it past any bound. */
  lemma {:induction false} MedianBreaksAtHalf(v: seq<real>, c: nat, lo: real, bound: real)
    requires c <= |v| && |v| <= 2 * c && v != [] && forall i :: 0 <= i < |v| ==> lo <= v[i]
    ensures exists x :: bound < Aggregate(ReplaceLast(v, c, x), Median, 0.0).value.value
                        && Replaced(v, ReplaceLast(v, c, x)) <= c
  {
    var x := Max(lo, 2.0 * bound - lo + 1.0);
    x := Max(x, bound + 1.0);
    var w := ReplaceLast(v, c, x);
    ReplacedAtMost(v, c, x);
    SortedKeepsBound(w, lo);
    TopIsReplaced(v, c, x, |v| / 2);
    SortedFacts(w);
  }

  /** One huge value carries the mean of the rest past any bound. */
  lemma MeanCarried(t: seq<real>, lo: real, x: real, bound: real)
    requires t != [] && (forall i :: 0 <= i < |t| ==> lo <= t[i]) && x <= t[|t| - 1]
    requires (bound + 1.0) * |t| as real <= lo * (|t| - 1) as real + x
    ensures bound < MeanOf(t)
  {
    SumFromBelow(t[..|t| - 1], lo);
    AtLeastQuotient(bound + 1.0, Sum(t), |t| as real);
  }

  /** ... and for the trimmed mean: one input more than is trimmed suffices. */
  lemma {:induction false} TrimmedMeanBreaksBeyondTrim(v: seq<real>, trim: real, lo: real, bound: real)
    requires |v| > 2 && trim > 0.0 && 2 * Dropped(|v|, trim) < |v| && forall i :: 0 <= i < |v| ==> lo <= v[i]
    ensures var c := Dropped(|v|, trim) + 1;
            exists x :: bound < Aggregate(ReplaceLast(v, c, x), Mean, trim).value.value
                        && Replaced(v, ReplaceLast(v, c, x)) <= c
  {
    var k := Dropped(|v|, trim);
    var m := |v| - 2 * k;
    var need, have := (bound + 1.0) * m as real, lo * (m - 1) as real;
    OneMoreThanTrimmed(v, trim, k, m, lo, bound, Max(lo, need - have));
  }

  lemma {:induction false} OneMoreThanTrimmed(v: seq<real>, trim: real, k: nat, m: nat, lo: real, bound: real, x: real)
    requires |v| > 2 && trim > 0.0 && k == Dropped(|v|, trim) && 0 < m == |v| - 2 * k
    requires (forall i :: 0 <= i < |v| ==> lo <= v[i]) && lo <= x
    requires (bound + 1.0) * m as real <= lo * (m - 1) as real + x
    ensures bound < Aggregate(ReplaceLast(v, k + 1, x), Mean, trim).value.value
            && Replaced(v, ReplaceLast(v, k + 1, x)) <= k + 1
  {
    CoreMeanCarried(v, k, m, lo, bound, x);
    ReplacedAtMost(v, k + 1, x);
    MeanOfCore(ReplaceLast(v, k + 1, x), trim);
  }

  lemma MeanOfCore(w: seq<real>, trim: real)
    requires |w| > 2 && trim > 0.0 && 2 * Dropped(|w|, trim) < |w|
    ensures |Sorted(w)| == |w|
    ensures var k := Dropped(|w|, trim); Aggregate(w, Mean, trim).value.value == MeanOf(Sorted(w)[k..|w| - k])
  {
    SortedFacts(w);
  }

  lemma CoreMeanCarried(v: seq<real>, k: nat, m: nat, lo: real, bound: real, x: real)
    requires 0 < m == |v| - 2 * k && forall i :: 0 <= i < |v| ==> lo <= v[i]
    requires lo <= x && (bound + 1.0) * m as real <= lo * (m - 1) as real + x
    ensures |Sorted(ReplaceLast(v, k + 1, x))| == |v|
    ensures bound < MeanOf(Sorted(ReplaceLast(v, k + 1, x))[k..|v| - k])
  {
    var w := ReplaceLast(v, k + 1, x);
    SortedKeepsBound(w, lo);
    TopIsReplaced(v, k + 1, x, |v| - 1 - k);
    var t := Sorted(w)[k..|v| - k];
    assert |t| == m;
    MeanCarried(t, lo, x, bound);
  }

  lemma {:induction false} SumFromBelow(s: seq<real>, lo: real)
    requires forall i :: 0 <= i < |s| ==> lo <= s[i]
    ensures lo * |s| as real <= Sum(s)
  {
    if s != [] {
      SumFromBelow(s[..|s| - 1], lo);
      assert lo * |s| as real == lo * (|s| - 1) as real + lo;
    }
  }

  lemma AtLeastQuotient(a: real, x: real, n: real)
    requires n > 0.0 && a * n <= x
    ensures a <= x / n
  {
    var q := x / n;
    assert q * n == x;
    Cancel(q - a, n);
  }

  // --- the anchor file ---

  datatype Doc = Doc(prices: seq<real>, rule: Rule, trim: real, reference: real, ratio: Option<real>,
                     ceiling: Option<real>)

  /** Reference over market; unmeasured when there is no price, or a zero one. */
  function Gap(prices: seq<real>, rule: Rule, trim: real, reference: real): Option<real> {
    var a := Aggregate(prices, rule, trim);
    if a.None? || a.value.value == 0.0 then None else Some(reference / a.value.value)
  }

  /** The measured ratio plus 15%, to one decimal place. */
  function Ceiling(ratio: real): real {
    Round(10.0 * (ratio * 1.15)) as real / 10.0
  }

  function Assemble(prices: seq<real>, rule: Rule, trim: real, reference: real): Doc {
    var ratio := Gap(prices, rule, trim, reference);
    Doc(prices, rule, trim, reference, ratio,
        if ratio.None? || ratio.value == 0.0 then None else Some(Ceiling(ratio.value)))
  }

  datatype Failure = NoAnchor | ReferenceMoved | NotReproducible | Widened

  /** What is wrong with one anchor, in the order it is reported. */
  function Failures(doc: Doc, reference: real): seq<Failure> {
    var actual := Gap(doc.prices, doc.rule, doc.trim, reference);
    (if doc.reference != reference then [ReferenceMoved] else [])
    + (if doc.ratio.Some? && actual.Some? && Abs(doc.ratio.value - actual.value) > 0.000001
       then [NotReproducible] else [])
    + if doc.ratio.Some? && doc.ceiling.Some? && doc.ratio.value > doc.ceiling.value then [Widened] else []
  }

  /** An anchor file, if any, and the index's reference level today. */
  datatype Entry = Entry(doc: Option<Doc>, reference: real)

  function EntryFailures(e: Entry): seq<Failure> {
    if e.doc.None? then [NoAnchor] else Failures(e.doc.value, e.reference)
  }

  function AllFailures(entries: seq<Entry>): seq<Failure> {
    if entries == [] then []
    else AllFailures(entries[..|entries| - 1]) + EntryFailures(entries[|entries| - 1])
  }

  /** The three gap checks on one anchor. */
  method CheckGap(doc: Doc, reference: real) returns (fails: seq<Failure>)
    ensures fails == Failures(doc, reference)
  {
    fails := [];
    if doc.reference != reference {
      fails := fails + [ReferenceMoved];
    }
    var actual := Gap(doc.prices, doc.rule, doc.trim, reference);
    if doc.ratio.Some? && actual.Some? && Abs(doc.ratio.value - actual.value) > 0.000001 {
      fails := fails + [NotReproducible];
    }
    if doc.ratio.Some? && doc.ceiling.Some? && doc.ratio.value > doc.ceiling.value {
      fails := fails + [Widened];
    }
  }

  /** The check over every index: it passes exactly when each has a sound anchor. */
  method CheckAnchors(entries: seq<Entry>) returns (fails: seq<Failure>)
    ensures fails == AllFailures(entries)
    ensures fails == [] <==> forall e :: e in entries ==> EntryFailures(e) == []
  {
    fails := [];
    for k := 0 to |entries|
      invariant fails == AllFailures(entries[..k])
    {
      var e := entries[k];
      assert entries[..k + 1][..k] == entries[..k];
      if e.doc.None? {
        fails := fails + [NoAnchor];
        continue;
      }
      var found := CheckGap(e.doc.value, e.reference);
      fails := fails + found;
    }
    assert entries[..|entries|] == entries;
    NoFailuresIff(entries);
  }

  lemma {:induction false} NoFailuresIff(entries: seq<Entry>)
    ensures AllFailures(entries) == [] <==> forall e :: e in entries ==> EntryFailures(e) == []
  {
    if entries != [] {
      var n := |entries| - 1;
      assert entries == entries[..n] + [entries[n]];
      NoFailuresIff(entries[..n]);
    }
  }

  /** An anchor passes the gap checks exactly when it was measured against today's
      reference and, if it declares a ratio, that ratio agrees with its own rows to
      a millionth when they measure, and is within its ceiling if it has one. */
  lemma PassesGapChecksIff(doc: Doc, reference: real)
    ensures var a := Aggregate(doc.prices, doc.rule, doc.trim);
            Failures(doc, reference) == []
            <==> && doc.reference == reference
                 && (doc.ratio.Some? && a.Some? && a.value.value != 0.0 ==>
                       -0.000001 <= doc.ratio.value - reference / a.value.value <= 0.000001)
                 && (doc.ratio.Some? && doc.ceiling.Some? ==> doc.ratio.value <= doc.ceiling.value)
  {}

  /** A measured gap is the reference over the market, and its ceiling is 15% above
      it to the nearest tenth. */
  lemma FreshAnchorStates(prices: seq<real>, rule: Rule, trim: real, reference: real)
    requires Aggregate(prices, rule, trim).Some? && Aggregate(prices, rule, trim).value.value != 0.0
    ensures var doc := Assemble(prices, rule, trim, reference);
            && doc.prices == prices && doc.reference == reference && doc.ratio.Some?
            && doc.ratio.value * Aggregate(prices, rule, trim).value.value == reference
            && (doc.ceiling.None? <==> doc.ratio.value == 0.0)
            && (doc.ceiling.Some? ==>
                  doc.ceiling.value - 0.05 <= 1.15 * doc.ratio.value <= doc.ceiling.value + 0.05)
  {
    var market := Aggregate(prices, rule, trim).value.value;
    assert (reference / market) * market == reference;
  }

  /** The ratios whose fresh ceiling rounds below the ratio itself. */
  predicate CeilingRoundsBelow(ratio: real) {
    if ratio > 0.0 then
      || ratio <= 1.0 / 23.0
      || 1.0 / 10.0 < ratio < 3.0 / 23.0
      || 1.0 / 5.0 < ratio <= 5.0 / 23.0
      || 3.0 / 10.0 < ratio < 7.0 / 23.0
    else
      || -1.0 / 10.0 < ratio < -1.0 / 23.0
      || -1.0 / 5.0 < ratio <= -3.0 / 23.0
      || -3.0 / 10.0 < ratio < -5.0 / 23.0
      || ratio <= -7.0 / 23.0
  }

  /** A freshly measured positive anchor fails its own ratchet exactly on four
      ranges of small ratios; from 7/23 on it always passes. */
  lemma FreshCeilingFailsIff(ratio: real)
    requires ratio != 0.0
    ensures Ceiling(ratio) < ratio <==> CeilingRoundsBelow(ratio)
  {
    var y := 10.0 * (ratio * 1.15);
    assert y == 11.5 * ratio;
    var n := Round(y);
    if n >= 4 {
      assert y <= n as real + 0.5;
    } else if n <= -4 {
      assert n as real - 0.5 <= y;
    }
  }

  /** A fresh anchor, its rows in any order and its reference unchanged, passes every
      gap check unless its ceiling rounded below its own ratio. */
  lemma FreshAnchorPassesIff(prices: seq<real>, shuffled: seq<real>, rule: Rule, trim: real, reference: real)
    requires multiset(prices) == multiset(shuffled)
    ensures var doc := Assemble(prices, rule, trim, reference);
            Failures(doc.(prices := shuffled), reference) == []
            <==> !(doc.ratio.Some? && doc.ratio.value != 0.0 && CeilingRoundsBelow(doc.ratio.value))
  {
    OrderOfRowsIsIrrelevant(prices, shuffled, rule, trim);
    var ratio := Gap(prices, rule, trim, reference);
    if ratio.Some? && ratio.value != 0.0 {
      FreshCeilingFailsIff(ratio.value);
    }
  }

  /** A fresh anchor whose rows were edited afterwards passes every gap check exactly
      when it would unedited and the edited rows either leave the gap within a
      millionth or no longer measure. */
  lemma EditedRowsPassIff(prices: seq<real>, edited: seq<real>, rule: Rule, trim: real, reference: real)
    requires Gap(prices, rule, trim, reference).Some?
    ensures var doc := Assemble(prices, rule, trim, reference);
            var was, now := Gap(prices, rule, trim, reference), Gap(edited, rule, trim, reference);
            Failures(doc.(prices := edited), reference) == []
            <==> Failures(doc, reference) == [] && (now.None? || Abs(was.value - now.value) <= 0.000001)
  {}

  /** So a basket emptied after the fact passes wherever the full one does. */
  lemma EmptiedRowsPass(prices: seq<real>, rule: Rule, trim: real, reference: real)
    requires Gap(prices, rule, trim, reference).Some?
    ensures var doc := Assemble(prices, rule, trim, reference);
            Failures(doc.(prices := []), reference) == [] <==> Failures(doc, reference) == []
  {
    EditedRowsPassIff(prices, [], rule, trim, reference);
  }
}
