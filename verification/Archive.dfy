/** The decision archiver: pages of a volatile log merged into a committed file. */
module Archive {
  import Sorting

  /** One decision; `body` stands for the rest of the row. */
  datatype Row = Row(obligation: string, at: real, intent: string, business: string, body: string)

  /** What makes two rows the same decision. */
  datatype Key = Key(obligation: string, at: real, intent: string)

  /** The server's cap on one page. */
  const LIMIT := 1000

  function KeyOf(r: Row): Key {
    Key(r.obligation, r.at, r.intent)
  }

  function Keys(rows: seq<Row>): set<Key> {
    set r | r in rows :: KeyOf(r)
  }

  lemma KeysConcat(a: seq<Row>, b: seq<Row>)
    ensures Keys(a + b) == Keys(a) + Keys(b)
  {
    assert forall r :: r in a + b <==> r in a || r in b;
  }

  // --- what production answers ---

  predicate Earlier(r: Row, q: Row) {
    r.at <= q.at
  }

  /** Rows of one business inside the window, identical rows shown once. */
  function Matching(rows: seq<Row>, slug: string, since: real): seq<Row> {
    if rows == [] then []
    else
      var out := Matching(rows[..|rows| - 1], slug, since);
      var r := rows[|rows| - 1];
      if r.business == slug && r.at >= since && r !in out then out + [r] else out
  }

  function Reverse(rows: seq<Row>): (r: seq<Row>)
    ensures |r| == |rows| && forall x :: x in r <==> x in rows
  {
    if rows == [] then [] else
      assert rows == [rows[0]] + rows[1..];
      Reverse(rows[1..]) + [rows[0]]
  }

  /** The newest rows, newest first, capped. */
  function Page(rows: seq<Row>, slug: string, since: real): seq<Row> {
    Reverse(Newest(Sorting.Sort(Earlier, Matching(rows, slug, since))))
  }

  function Newest(sorted: seq<Row>): seq<Row> {
    if |sorted| <= LIMIT then sorted else sorted[|sorted| - LIMIT..]
  }

  lemma {:induction false} MatchingMembers(rows: seq<Row>, slug: string, since: real, r: Row)
    ensures r in Matching(rows, slug, since) <==> r in rows && r.business == slug && r.at >= since
  {
    if rows != [] {
      MatchingMembers(rows[..|rows| - 1], slug, since, r);
      assert rows == rows[..|rows| - 1] + [rows[|rows| - 1]];
    }
  }

  ghost predicate NoRepeats(rows: seq<Row>) {
    forall i, j :: 0 <= i < j < |rows| ==> rows[i] != rows[j]
  }

  lemma {:induction false} MatchingOnce(rows: seq<Row>, slug: string, since: real)
    ensures NoRepeats(Matching(rows, slug, since))
  {
    if rows != [] {
      MatchingOnce(rows[..|rows| - 1], slug, since);
    }
  }

  lemma {:induction false} NoRepeatsCounts(rows: seq<Row>)
    ensures NoRepeats(rows) <==> forall r :: multiset(rows)[r] <= 1
  {
    if rows != [] {
      var rest := rows[1..];
      assert rows == [rows[0]] + rest;
      NoRepeatsCounts(rest);
      assert rows[0] in rest <==> rows[0] in multiset(rest);
      assert forall j :: 0 <= j < |rest| ==> rest[j] == rows[j + 1];
      if !NoRepeats(rest) {
        var r :| multiset(rest)[r] > 1;
        assert multiset(rows)[r] > 1;
      } else if rows[0] in rest {
        assert multiset(rows)[rows[0]] > 1;
      }
    }
  }

  /** Identical rows, archived and live, are shown once. */
  lemma PageShowsOnce(rows: seq<Row>, slug: string, since: real)
    ensures NoRepeats(Page(rows, slug, since))
  {
    var m := Matching(rows, slug, since);
    var sorted := Sorting.Sort(Earlier, m);
    MatchingOnce(rows, slug, since);
    NoRepeatsCounts(m);
    Sorting.SortPermutes(Earlier, m);
    NoRepeatsCounts(sorted);
    var kept := Newest(sorted);
    forall i, j | 0 <= i < j < |kept| ensures Reverse(kept)[i] != Reverse(kept)[j] {
      ReverseAt(kept, i);
      ReverseAt(kept, j);
    }
  }

  /** Nothing is shown that production does not hold. */
  lemma PageMembers(rows: seq<Row>, slug: string, since: real, r: Row)
    ensures r in Page(rows, slug, since) ==> r in rows && r.business == slug && r.at >= since
  {
    var m := Matching(rows, slug, since);
    Sorting.SortPermutes(Earlier, m);
    Sorting.SameMembers(Sorting.Sort(Earlier, m), m);
    MatchingMembers(rows, slug, since, r);
  }

  /** A page below the cap holds every matching row. */
  lemma ShortPageIsComplete(rows: seq<Row>, slug: string, since: real, r: Row)
    requires |Page(rows, slug, since)| < LIMIT
    ensures r in Page(rows, slug, since) <==> r in rows && r.business == slug && r.at >= since
  {
    var m := Matching(rows, slug, since);
    Sorting.SortPermutes(Earlier, m);
    Sorting.SameMembers(Sorting.Sort(Earlier, m), m);
    MatchingMembers(rows, slug, since, r);
  }

  // --- merging ---

  /** The rows of one page the archive does not hold, oldest first. Two rows of
      one page that share a key are both kept: `seen` grows only afterwards. */
  function Unseen(page: seq<Row>, seen: set<Key>): seq<Row> {
    if page == [] then []
    else
      var older := Unseen(page[1..], seen);
      if KeyOf(page[0]) in seen then older else older + [page[0]]
  }

  function Fresh(seen: set<Key>, pages: seq<seq<Row>>): seq<Row>
    decreases pages
  {
    if pages == [] then []
    else
      var first := Unseen(pages[0], seen);
      first + Fresh(seen + Keys(first), pages[1..])
  }

  predicate Full(page: seq<Row>) {
    |page| >= LIMIT
  }

  predicate AnyFull(pages: seq<seq<Row>>) {
    exists k :: 0 <= k < |pages| && Full(pages[k])
  }

  /** One business's page, or no answer. */
  datatype Answer = NoAnswer | Rows(page: seq<Row>)

  datatype Listing = NoOperator | NotOurPress | Unreachable | Listed(answers: seq<Answer>)

  function Pages(answers: seq<Answer>): seq<seq<Row>>
    requires forall a :: a in answers ==> a.Rows?
  {
    seq(|answers|, k requires 0 <= k < |answers| => answers[k].page)
  }

  /** What the script answers and appends: 2 for "could not tell", 1 for
      "production is ahead" under `check`, 0 otherwise, a press without any
      operator included. */
  function Result(have: seq<Row>, listing: Listing, check: bool): (int, seq<Row>) {
    match listing
    case NoOperator => (0, [])
    case NotOurPress => (2, [])
    case Unreachable => (2, [])
    case Listed(answers) =>
      if NoAnswer in answers then (2, [])
      else
        var pages := Pages(answers);
        var missing := Fresh(Keys(have), pages);
        if AnyFull(pages) then (2, [])
        else if check then (if missing == [] then 0 else 1, [])
        else (0, missing)
  }

  /** The merge over all businesses, up to the first that does not answer. */
  method Merge(have: seq<Row>, answers: seq<Answer>) returns (ok: bool, truncated: bool, missing: seq<Row>)
    ensures ok <==> NoAnswer !in answers
    ensures ok ==> truncated == AnyFull(Pages(answers)) && missing == Fresh(Keys(have), Pages(answers))
  {
    var seen := Keys(have);
    ok, truncated, missing := true, false, [];
    for k := 0 to |answers|
      invariant ok && forall j :: 0 <= j < k ==> answers[j].Rows?
      invariant truncated <==> exists j :: 0 <= j < k && Full(answers[j].page)
      invariant NoAnswer !in answers ==>
                  Fresh(Keys(have), Pages(answers)) == missing + Fresh(seen, Pages(answers)[k..])
    {
      if answers[k].NoAnswer? {
        ok := false;
        return;
      }
      var page := answers[k].page;
      var first := Unseen(page, seen);
      if NoAnswer !in answers {
        assert Pages(answers)[k..][0] == page && Pages(answers)[k..][1..] == Pages(answers)[k + 1..];
      }
      truncated := truncated || Full(page);
      seen := seen + Keys(first);
      missing := missing + first;
    }
    assert forall a :: a in answers ==> a.Rows?;
    assert Pages(answers)[|answers|..] == [];
    assert forall j :: 0 <= j < |answers| ==> Pages(answers)[j] == answers[j].page;
  }

  method Run(have: seq<Row>, listing: Listing, check: bool) returns (code: int, appended: seq<Row>)
    ensures (code, appended) == Result(have, listing, check)
  {
    match listing {
      case NoOperator => return 0, [];
      case NotOurPress => return 2, [];
      case Unreachable => return 2, [];
      case Listed(answers) =>
        var ok, truncated, missing := Merge(have, answers);
        if !ok || truncated {
          return 2, [];
        }
        if check {
          return (if missing == [] then 0 else 1), [];
        }
        return 0, missing;
    }
  }

  // --- what a merge holds ---

  predicate Covered(seen: set<Key>, pages: seq<seq<Row>>) {
    forall k, r :: 0 <= k < |pages| && r in pages[k] ==> KeyOf(r) in seen
  }

  lemma {:induction false} UnseenMembers(page: seq<Row>, seen: set<Key>, r: Row)
    ensures r in Unseen(page, seen) <==> r in page && KeyOf(r) !in seen
  {
    if page != [] {
      UnseenMembers(page[1..], seen, r);
      assert page == [page[0]] + page[1..];
    }
  }

  /** One page: afterwards its keys are all held, and nothing else is new. */
  lemma UnseenKeys(page: seq<Row>, seen: set<Key>)
    ensures seen + Keys(Unseen(page, seen)) == seen + Keys(page)
  {
    forall key ensures key in seen + Keys(Unseen(page, seen)) <==> key in seen + Keys(page) {
      if key in Keys(page) && key !in seen {
        var r :| r in page && KeyOf(r) == key;
        UnseenMembers(page, seen, r);
      }
      if key in Keys(Unseen(page, seen)) {
        var r :| r in Unseen(page, seen) && KeyOf(r) == key;
        UnseenMembers(page, seen, r);
      }
    }
  }

  /** After a write everything the pages show is held, and only that was added. */
  lemma {:induction false} FreshKeys(seen: set<Key>, pages: seq<seq<Row>>)
    ensures Covered(seen + Keys(Fresh(seen, pages)), pages)
    ensures forall key :: key in Keys(Fresh(seen, pages)) ==>
              key !in seen && exists k, r :: 0 <= k < |pages| && r in pages[k] && KeyOf(r) == key
    decreases pages
  {
    if pages != [] {
      var first := Unseen(pages[0], seen);
      var rest := Fresh(seen + Keys(first), pages[1..]);
      UnseenKeys(pages[0], seen);
      FreshKeys(seen + Keys(first), pages[1..]);
      KeysConcat(first, rest);
      forall k, r | 0 <= k < |pages| && r in pages[k] ensures KeyOf(r) in seen + Keys(first + rest) {
        if k == 0 {
          assert KeyOf(r) in Keys(pages[0]);
        } else {
          assert r in pages[1..][k - 1];
        }
      }
      forall key | key in Keys(first + rest)
        ensures key !in seen && exists k, r :: 0 <= k < |pages| && r in pages[k] && KeyOf(r) == key
      {
        if key in Keys(first) {
          var r :| r in first && KeyOf(r) == key;
          UnseenMembers(pages[0], seen, r);
        } else {
          var k, r :| 0 <= k < |pages[1..]| && r in pages[1..][k] && KeyOf(r) == key;
          assert r in pages[k + 1];
        }
      }
    }
  }

  /** `--check` answers 0 exactly when every row shown is already held. */
  lemma NothingFreshIff(seen: set<Key>, pages: seq<seq<Row>>)
    ensures Fresh(seen, pages) == [] <==> Covered(seen, pages)
  {
    FreshKeys(seen, pages);
    var missing := Fresh(seen, pages);
    if missing == [] {
      assert seen + Keys(missing) == seen;
    } else {
      assert KeyOf(missing[0]) in Keys(missing);
    }
  }

  /** Writing and then checking the same pages finds nothing missing. */
  lemma CheckAfterWriteIsClean(have: seq<Row>, pages: seq<seq<Row>>)
    ensures Fresh(Keys(have + Fresh(Keys(have), pages)), pages) == []
  {
    var missing := Fresh(Keys(have), pages);
    KeysConcat(have, missing);
    FreshKeys(Keys(have), pages);
    NothingFreshIff(Keys(have + missing), pages);
  }

  // --- what an exit code means ---

  /** 0 under `--check`: there is no operator at all, or every page was answered,
      none was full and everything shown is held. */
  lemma CheckIsCleanIff(have: seq<Row>, listing: Listing)
    ensures Result(have, listing, true).0 == 0
            <==> listing.NoOperator?
                 || (listing.Listed? && NoAnswer !in listing.answers && !AnyFull(Pages(listing.answers))
                     && Covered(Keys(have), Pages(listing.answers)))
  {
    if listing.Listed? && NoAnswer !in listing.answers {
      NothingFreshIff(Keys(have), Pages(listing.answers));
    }
  }

  /** 2, checking or not: a host that did not answer or is no press of ours, a
      business that did not answer, or a full page. */
  lemma CannotTellIff(have: seq<Row>, listing: Listing, check: bool)
    ensures Result(have, listing, check).0 == 2
            <==> || listing.NotOurPress? || listing.Unreachable?
                 || (listing.Listed? && (NoAnswer in listing.answers || AnyFull(Pages(listing.answers))))
    ensures Result(have, listing, check).0 == 2 ==> Result(have, listing, check).1 == []
  {}

  /** 1: a check that could read everything and found a row the archive lacks. */
  lemma ProductionIsAheadIff(have: seq<Row>, listing: Listing, check: bool)
    ensures Result(have, listing, check).0 == 1
            <==> check && listing.Listed? && NoAnswer !in listing.answers && !AnyFull(Pages(listing.answers))
                 && !Covered(Keys(have), Pages(listing.answers))
  {
    if listing.Listed? && NoAnswer !in listing.answers {
      NothingFreshIff(Keys(have), Pages(listing.answers));
    }
  }

  // --- order ---

  ghost predicate NewestFirst(page: seq<Row>) {
    forall i, j :: 0 <= i < j < |page| ==> page[i].at >= page[j].at
  }

  ghost predicate OldestFirst(rows: seq<Row>) {
    forall i, j :: 0 <= i < j < |rows| ==> rows[i].at <= rows[j].at
  }

  lemma {:induction false} ReverseAt(rows: seq<Row>, k: nat)
    requires k < |rows|
    ensures Reverse(rows)[k] == rows[|rows| - 1 - k]
  {
    if k < |rows| - 1 {
      ReverseAt(rows[1..], k);
    }
  }

  lemma NewestAreNewer(sorted: seq<Row>, r: Row)
    requires OldestFirst(sorted) && r in sorted
    ensures OldestFirst(Newest(sorted)) && |Newest(sorted)| <= LIMIT
    ensures r !in Newest(sorted) ==> |Newest(sorted)| == LIMIT && forall q :: q in Newest(sorted) ==> q.at >= r.at
  {
    var i :| 0 <= i < |sorted| && sorted[i] == r;
    var cut := if |sorted| <= LIMIT then 0 else |sorted| - LIMIT;
    var kept := Newest(sorted);
    assert forall j :: 0 <= j < |kept| ==> kept[j] == sorted[cut + j];
    if cut <= i {
      assert kept[i - cut] == r;
    }
  }

  lemma ReversedIsNewestFirst(rows: seq<Row>)
    requires OldestFirst(rows)
    ensures NewestFirst(Reverse(rows))
  {
    forall k | 0 <= k < |rows| ensures Reverse(rows)[k] == rows[|rows| - 1 - k] {
      ReverseAt(rows, k);
    }
  }

  /** A page is newest first, never longer than the cap, and when it leaves a
      matching row out it is full of rows at least as new. */
  lemma PageIsNewest(rows: seq<Row>, slug: string, since: real, r: Row)
    requires r in rows && r.business == slug && r.at >= since
    ensures var page := Page(rows, slug, since);
            && NewestFirst(page) && |page| <= LIMIT
            && (r !in page ==> |page| == LIMIT && forall q :: q in page ==> q.at >= r.at)
  {
    var m := Matching(rows, slug, since);
    var sorted := Sorting.Sort(Earlier, m);
    Sorting.SortSorts(Earlier, m);
    Sorting.SortPermutes(Earlier, m);
    Sorting.SameMembers(sorted, m);
    MatchingMembers(rows, slug, since, r);
    assert forall i, j :: 0 <= i < j < |sorted| ==> Earlier(sorted[i], sorted[j]);
    NewestAreNewer(sorted, r);
    ReversedIsNewestFirst(Newest(sorted));
  }

  /** What one page adds is appended oldest first. */
  lemma {:induction false} AppendedOldestFirst(page: seq<Row>, seen: set<Key>)
    requires NewestFirst(page)
    ensures OldestFirst(Unseen(page, seen))
  {
    if page != [] {
      var older := Unseen(page[1..], seen);
      AppendedOldestFirst(page[1..], seen);
      forall i | 0 <= i < |older| ensures older[i].at <= page[0].at {
        UnseenMembers(page[1..], seen, older[i]);
      }
    }
  }

  // --- duplicates ---

  ghost predicate DistinctKeys(rows: seq<Row>) {
    forall i, j :: 0 <= i < j < |rows| ==> KeyOf(rows[i]) != KeyOf(rows[j])
  }

  /** Page by page, the rows neither archived nor shown earlier have distinct keys. */
  ghost predicate PagesDistinct(seen: set<Key>, pages: seq<seq<Row>>)
    decreases pages
  {
    pages == [] ||
    (DistinctKeys(Unseen(pages[0], seen)) && PagesDistinct(seen + Keys(pages[0]), pages[1..]))
  }

  lemma DistinctConcat(a: seq<Row>, b: seq<Row>)
    requires Keys(a) !! Keys(b)
    ensures DistinctKeys(a + b) <==> DistinctKeys(a) && DistinctKeys(b)
  {
    forall i, j | 0 <= i < |a| && 0 <= j < |b| ensures KeyOf(a[i]) != KeyOf(b[j]) {
      assert KeyOf(a[i]) in Keys(a) && KeyOf(b[j]) in Keys(b);
    }
    if DistinctKeys(a + b) {
      assert forall i :: 0 <= i < |a| ==> a[i] == (a + b)[i];
      assert forall j :: 0 <= j < |b| ==> b[j] == (a + b)[|a| + j];
    }
  }

  lemma {:induction false} FreshDistinctIff(seen: set<Key>, pages: seq<seq<Row>>)
    ensures DistinctKeys(Fresh(seen, pages)) <==> PagesDistinct(seen, pages)
    decreases pages
  {
    if pages != [] {
      var first := Unseen(pages[0], seen);
      var rest := Fresh(seen + Keys(first), pages[1..]);
      UnseenKeys(pages[0], seen);
      FreshDistinctIff(seen + Keys(first), pages[1..]);
      FreshKeys(seen + Keys(first), pages[1..]);
      DistinctConcat(first, rest);
    }
  }

  /** A write leaves no key stored twice exactly when no page shows two new rows
      of one key. */
  lemma NoKeyTwiceIff(have: seq<Row>, pages: seq<seq<Row>>)
    requires DistinctKeys(have)
    ensures DistinctKeys(have + Fresh(Keys(have), pages)) <==> PagesDistinct(Keys(have), pages)
  {
    FreshKeys(Keys(have), pages);
    FreshDistinctIff(Keys(have), pages);
    DistinctConcat(have, Fresh(Keys(have), pages));
  }

  lemma {:induction false} UnseenDistinct(page: seq<Row>, seen: set<Key>)
    requires DistinctKeys(page)
    ensures DistinctKeys(Unseen(page, seen))
  {
    if page != [] {
      var older := Unseen(page[1..], seen);
      assert forall i :: 0 <= i < |page| - 1 ==> page[1..][i] == page[i + 1];
      UnseenDistinct(page[1..], seen);
      forall i | 0 <= i < |older| ensures KeyOf(older[i]) != KeyOf(page[0]) {
        UnseenMembers(page[1..], seen, older[i]);
      }
    }
  }

  /** In particular when every page has distinct keys of its own, even if pages overlap. */
  lemma {:induction false} DistinctPagesSuffice(seen: set<Key>, pages: seq<seq<Row>>)
    requires forall k :: 0 <= k < |pages| ==> DistinctKeys(pages[k])
    ensures PagesDistinct(seen, pages)
    decreases pages
  {
    if pages != [] {
      UnseenDistinct(pages[0], seen);
      DistinctPagesSuffice(seen + Keys(pages[0]), pages[1..]);
    }
  }

  /** Two rows of one key on one page are both appended. */
  lemma DuplicateOnOnePageIsStoredTwice()
    ensures var a, b := Row("o", 1.0, "pay", "acme", "first"), Row("o", 1.0, "pay", "acme", "second");
            Fresh({}, [[b, a]]) == [a, b] && !DistinctKeys([] + Fresh({}, [[b, a]]))
  {
    var a, b := Row("o", 1.0, "pay", "acme", "first"), Row("o", 1.0, "pay", "acme", "second");
    assert [b, a][1..] == [a] && [a][1..] == [];
    assert Unseen([a], {}) == [a];
    assert Unseen([b, a], {}) == [a, b];
    assert Fresh({}, [[b, a]]) == [a, b] + [];
    assert [] + [a, b] == [a, b] && KeyOf([a, b][0]) == KeyOf([a, b][1]);
  }
}

/** The archive-before-redeploy protocol. A redeploy erases the log; it may run
    only on the strength of a `--check` that exited with 0. */
module RedeployProtocol {
  import opened Archive

  /** What one invocation of the archiver meets: a press without an operator, one
      it cannot tell anything about, or pages, of which some are not answered.
      `hidden` rows are in the archive or log of production but cannot be read there:
      an unreadable file answers as an empty one, a malformed line is skipped. */
  datatype Reach = Absent | Wrong | Silent | Asked(slugs: seq<string>, since: real, silent: set<nat>, hidden: set<Row>)

  /** The check on whose strength a redeploy may run. */
  datatype Clearance = NotCleared | Cleared(reach: Reach)

  /** `decided`: every decision ever made. `late`: those made since the check that
      now clears a redeploy. `image`: the archive the running image carries. */
  datatype State = State(archive: seq<Row>, image: seq<Row>, log: seq<Row>, late: set<Row>, clear: Clearance,
                         decided: set<Row>)

  datatype Step =
    | Decide(row: Row)
    | Write(reach: Reach)
    | Check(reach: Reach)
    | Redeploy(image: seq<Row>)

  function Readable(rows: seq<Row>, hidden: set<Row>): seq<Row> {
    if rows == [] then []
    else
      var r := rows[|rows| - 1];
      Readable(rows[..|rows| - 1], hidden) + if r in hidden then [] else [r]
  }

  lemma {:induction false} ReadableMembers(rows: seq<Row>, hidden: set<Row>)
    ensures forall r :: r in Readable(rows, hidden) <==> r in rows && r !in hidden
  {
    if rows != [] {
      var n := |rows| - 1;
      assert rows == rows[..n] + [rows[n]];
      ReadableMembers(rows[..n], hidden);
    }
  }

  /** What the archiver is shown. */
  function Shown(s: State, reach: Reach): Listing {
    match reach
    case Absent => NoOperator
    case Wrong => NotOurPress
    case Silent => Unreachable
    case Asked(slugs, since, silent, hidden) =>
      Listed(seq(|slugs|, k requires 0 <= k < |slugs| =>
        if k in silent then NoAnswer else Rows(Page(Readable(s.image + s.log, hidden), slugs[k], since))))
  }

  predicate Passes(s: State, reach: Reach) {
    Result(s.archive, Shown(s, reach), true).0 == 0
  }

  predicate Enabled(s: State, a: Step) {
    a.Redeploy? ==> s.clear.Cleared?
  }

  function Next(s: State, a: Step): State
    requires Enabled(s, a)
  {
    match a
    case Decide(r) => s.(log := s.log + [r], late := s.late + {r}, decided := s.decided + {r})
    case Write(reach) => s.(archive := s.archive + Result(s.archive, Shown(s, reach), false).1)
    case Check(reach) => s.(clear := if Passes(s, reach) then Cleared(reach) else NotCleared, late := {})
    case Redeploy(image) => s.(image := image, log := [], late := {}, clear := NotCleared)
  }

  // --- what a check can vouch for ---

  /** On some page asked for: its business is listed, it is inside the window, and
      production can read it back. */
  predicate Visible(r: Row, reach: Reach) {
    reach.Asked? && r.business in reach.slugs && r.at >= reach.since && r !in reach.hidden
  }

  /** A different decision with the same key is archived. */
  predicate Shadowed(r: Row, archive: seq<Row>) {
    exists a :: a in archive && a != r && KeyOf(a) == KeyOf(r)
  }

  /** Decisions the check does not vouch for: made after it, on none of its pages,
      or mistaken for another one. */
  predicate AtRisk(s: State, r: Row) {
    s.clear.Cleared? && (r in s.late || !Visible(r, s.clear.reach) || Shadowed(r, s.archive))
  }

  /** Every decision ever made is in the archive or in the live log. */
  ghost predicate NothingLost(s: State) {
    forall r :: r in s.decided ==> r in s.archive || r in s.log
  }

  ghost predicate Inv(s: State) {
    && (forall r :: r in s.log ==> r in s.decided)
    && (s.clear.Cleared? ==> forall r :: r in s.log && r !in s.late && Visible(r, s.clear.reach) ==>
                                            KeyOf(r) in Keys(s.archive))
  }

  /** A check clears a redeploy exactly when the press shows no operator, or every
      page asked for was answered, none was full, and every row shown is held. */
  lemma PassesIff(s: State, reach: Reach)
    ensures Passes(s, reach)
            <==> reach.Absent?
                 || (reach.Asked? && NoAnswer !in Shown(s, reach).answers
                     && !AnyFull(Pages(Shown(s, reach).answers))
                     && Covered(Keys(s.archive), Pages(Shown(s, reach).answers)))
  {
    CheckIsCleanIff(s.archive, Shown(s, reach));
  }

  /** A check that passes has the key of every decision it can see. */
  lemma PassedCheckCovers(s: State, reach: Reach, r: Row)
    requires Passes(s, reach) && r in s.log && Visible(r, reach)
    ensures KeyOf(r) in Keys(s.archive)
  {
    var answers := Shown(s, reach).answers;
    var pages := Pages(answers);
    var k :| 0 <= k < |reach.slugs| && reach.slugs[k] == r.business;
    assert answers[k] in answers;
    var rows := Readable(s.image + s.log, reach.hidden);
    ReadableMembers(s.image + s.log, reach.hidden);
    assert pages[k] == Page(rows, reach.slugs[k], reach.since);
    assert !Full(pages[k]);
    ShortPageIsComplete(rows, reach.slugs[k], reach.since, r);
    NothingFreshIff(Keys(s.archive), pages);
  }

  /** A held key means the very decision, unless another one shadows it. */
  lemma HeldUnlessShadowed(r: Row, archive: seq<Row>)
    requires KeyOf(r) in Keys(archive) && !Shadowed(r, archive)
    ensures r in archive
  {}

  /** An archiver that could not read every page, or was shown a full one, writes nothing. */
  lemma ArchiveOnlyGrows(s: State, a: Step)
    requires Enabled(s, a)
    ensures s.archive <= Next(s, a).archive
    ensures a.Write? && Result(s.archive, Shown(s, a.reach), false).0 != 0 ==> Next(s, a) == s
  {}

  lemma KeysGrow(s: State, a: Step)
    requires Enabled(s, a)
    ensures Keys(s.archive) <= Keys(Next(s, a).archive)
  {
    ArchiveOnlyGrows(s, a);
  }

  lemma StepKeepsInv(s: State, a: Step)
    requires Inv(s) && Enabled(s, a)
    ensures Inv(Next(s, a))
  {
    KeysGrow(s, a);
    if a.Check? && Passes(s, a.reach) {
      forall r | r in s.log && Visible(r, a.reach) ensures KeyOf(r) in Keys(s.archive) {
        PassedCheckCovers(s, a.reach, r);
      }
    }
  }

  /** A cleared redeploy loses nothing exactly when every live decision its check
      does not vouch for is archived. */
  lemma RedeployKeepsIff(s: State, image: seq<Row>)
    requires Inv(s) && s.clear.Cleared? && NothingLost(s)
    ensures NothingLost(Next(s, Redeploy(image)))
            <==> forall r :: r in s.log && AtRisk(s, r) ==> r in s.archive
  {
    forall r | r in s.log && !AtRisk(s, r) ensures r in s.archive {
      HeldUnlessShadowed(r, s.archive);
    }
  }

  /** The same for a redeploy right after its check: nothing is lost exactly when
      every live decision is archived already, or is on a page asked for and not
      mistaken for another. */
  lemma CheckThenRedeployKeepsIff(s: State, reach: Reach, image: seq<Row>)
    requires Inv(s) && NothingLost(s) && Passes(s, reach)
    ensures NothingLost(Next(Next(s, Check(reach)), Redeploy(image)))
            <==> forall r :: r in s.log ==> r in s.archive || (Visible(r, reach) && !Shadowed(r, s.archive))
  {
    StepKeepsInv(s, Check(reach));
    RedeployKeepsIff(Next(s, Check(reach)), image);
    forall r | r in s.log && Visible(r, reach) && !Shadowed(r, s.archive) ensures r in s.archive {
      PassedCheckCovers(s, reach, r);
      HeldUnlessShadowed(r, s.archive);
    }
  }

  lemma StepKeepsAll(s: State, a: Step)
    requires Enabled(s, a) && NothingLost(s) && !a.Redeploy?
    ensures NothingLost(Next(s, a))
  {}

  // --- whole runs ---

  ghost predicate IsRun(trace: seq<State>, steps: seq<Step>) {
    && |trace| == |steps| + 1
    && forall k :: 0 <= k < |steps| ==> Enabled(trace[k], steps[k]) && trace[k + 1] == Next(trace[k], steps[k])
  }

  /** Every redeploy finds what its check does not vouch for archived. */
  ghost predicate Disciplined(trace: seq<State>, steps: seq<Step>)
    requires |trace| == |steps| + 1
  {
    forall k :: 0 <= k < |steps| && steps[k].Redeploy? ==>
      forall r :: r in trace[k].log && AtRisk(trace[k], r) ==> r in trace[k].archive
  }

  lemma {:induction false} RunKeepsInv(trace: seq<State>, steps: seq<Step>, k: nat)
    requires IsRun(trace, steps) && k < |trace| && Inv(trace[0])
    ensures Inv(trace[k]) && trace[0].archive <= trace[k].archive
  {
    if k > 0 {
      RunKeepsInv(trace, steps, k - 1);
      StepKeepsInv(trace[k - 1], steps[k - 1]);
      ArchiveOnlyGrows(trace[k - 1], steps[k - 1]);
    }
  }

  lemma {:induction false} DisciplineKeepsAll(trace: seq<State>, steps: seq<Step>, k: nat)
    requires IsRun(trace, steps) && Disciplined(trace, steps) && k < |trace|
    requires Inv(trace[0]) && NothingLost(trace[0])
    ensures NothingLost(trace[k])
  {
    if k > 0 {
      var s, a := trace[k - 1], steps[k - 1];
      DisciplineKeepsAll(trace, steps, k - 1);
      RunKeepsInv(trace, steps, k - 1);
      if a.Redeploy? {
        RedeployKeepsIff(s, a.image);
      } else {
        StepKeepsAll(s, a);
      }
    }
  }

  /** Over every run, no decision is ever lost exactly when every redeploy finds
      archived what its check does not vouch for. */
  lemma NoDecisionIsLost(trace: seq<State>, steps: seq<Step>)
    requires IsRun(trace, steps) && Inv(trace[0]) && NothingLost(trace[0])
    ensures (forall k :: 0 <= k < |trace| ==> NothingLost(trace[k])) <==> Disciplined(trace, steps)
  {
    if Disciplined(trace, steps) {
      forall k | 0 <= k < |trace| ensures NothingLost(trace[k]) {
        DisciplineKeepsAll(trace, steps, k);
      }
    }
    if forall k :: 0 <= k < |trace| ==> NothingLost(trace[k]) {
      forall k | 0 <= k < |steps| && steps[k].Redeploy?
        ensures forall r :: r in trace[k].log && AtRisk(trace[k], r) ==> r in trace[k].archive
      {
        RunKeepsInv(trace, steps, k);
        RedeployKeepsIff(trace[k], steps[k].image);
        assert NothingLost(trace[k + 1]);
      }
    }
  }

  // --- each kind of loss happens ---

  lemma InvisiblePage(rows: seq<Row>, reach: Reach, k: nat)
    requires reach.Asked? && k < |reach.slugs| && forall q :: q in rows ==> !Visible(q, reach)
    ensures Page(Readable(rows, reach.hidden), reach.slugs[k], reach.since) == []
  {
    var page := Page(Readable(rows, reach.hidden), reach.slugs[k], reach.since);
    ReadableMembers(rows, reach.hidden);
    if page != [] {
      PageMembers(Readable(rows, reach.hidden), reach.slugs[k], reach.since, page[0]);
    }
  }

  lemma EmptyPages(answers: seq<Answer>, seen: set<Key>)
    requires forall a :: a in answers ==> a == Rows([])
    ensures !AnyFull(Pages(answers)) && Fresh(seen, Pages(answers)) == []
  {
    var pages := Pages(answers);
    forall k | 0 <= k < |pages| ensures pages[k] == [] {
      assert answers[k] in answers;
    }
    NothingFreshIff(seen, pages);
  }

  lemma ShownNothing(s: State, reach: Reach)
    requires reach.Asked? && reach.silent == {}
    requires forall q :: q in s.image + s.log ==> !Visible(q, reach)
    ensures Passes(s, reach)
  {
    var answers := Shown(s, reach).answers;
    forall k | 0 <= k < |answers| ensures answers[k] == Rows([]) {
      InvisiblePage(s.image + s.log, reach, k);
    }
    EmptyPages(answers, Keys(s.archive));
  }

  /** A decision outside the window, of a business not asked for, or that production
      cannot read back is on no page: with nothing else live, the check passes and
      the redeploy destroys it. */
  lemma InvisibleDecisionIsLost(r: Row, reach: Reach)
    requires reach.Asked? && reach.silent == {} && !Visible(r, reach)
    ensures var s := State([], [], [r], {}, NotCleared, {r});
            var checked := Next(s, Check(reach));
            checked.clear.Cleared? && NothingLost(checked) && !NothingLost(Next(checked, Redeploy([])))
  {
    var s := State([], [], [r], {}, NotCleared, {r});
    ShownNothing(s, reach);
    assert r in s.log;
    LostAtRedeploy(Next(s, Check(reach)), r, []);
  }

  lemma ShownKeysOf(s: State, reach: Reach, key: Key)
    requires reach.Asked? && reach.silent == {}
    requires forall q :: q in s.image + s.log ==> KeyOf(q) == key
    requires key in Keys(s.archive)
    ensures NoAnswer !in Shown(s, reach).answers
    ensures Covered(Keys(s.archive), Pages(Shown(s, reach).answers))
  {
    var pages := Pages(Shown(s, reach).answers);
    forall k, q | 0 <= k < |pages| && q in pages[k] ensures KeyOf(q) in Keys(s.archive) {
      ReadableMembers(s.image + s.log, reach.hidden);
      PageMembers(Readable(s.image + s.log, reach.hidden), reach.slugs[k], reach.since, q);
    }
  }

  /** An archived decision `a` hides a different live one of the same key: unless
      a page is full the check passes, and the redeploy destroys the live one. */
  lemma ShadowedDecisionIsLost(a: Row, r: Row, reach: Reach)
    requires a != r && KeyOf(a) == KeyOf(r) && reach.Asked? && reach.silent == {}
    ensures var s := State([a], [a], [r], {}, NotCleared, {a, r});
            var checked := Next(s, Check(reach));
            && NothingLost(checked)
            && (checked.clear.Cleared? <==> !AnyFull(Pages(Shown(s, reach).answers)))
            && (checked.clear.Cleared? ==> !NothingLost(Next(checked, Redeploy([a]))))
  {
    var s := State([a], [a], [r], {}, NotCleared, {a, r});
    assert a in s.archive && r in s.log;
    ShownKeysOf(s, reach, KeyOf(a));
    NothingFreshIff(Keys(s.archive), Pages(Shown(s, reach).answers));
    if Passes(s, reach) {
      LostAtRedeploy(Next(s, Check(reach)), r, [a]);
    }
  }

  lemma LostAtRedeploy(s: State, r: Row, image: seq<Row>)
    requires s.clear.Cleared? && r in s.decided && r !in s.archive
    ensures !NothingLost(Next(s, Redeploy(image)))
  {}

  /** A press that shows no operator clears a redeploy without any page read. */
  lemma AbsentOperatorClears(s: State, image: seq<Row>)
    requires Inv(s) && NothingLost(s)
    ensures Passes(s, Absent)
    ensures NothingLost(Next(Next(s, Check(Absent)), Redeploy(image))) <==> forall r :: r in s.log ==> r in s.archive
  {
    CheckThenRedeployKeepsIff(s, Absent, image);
  }
}

/** The receipt archiver, which remembers each reference as it goes. */
module Receipts {

  datatype Receipt = Receipt(ref: string, scheme: string, payer: string, amount: real)

  const REAL_SCHEME := "exact"

  function Refs(rows: seq<Receipt>): set<string> {
    set r | r in rows && r.ref != "" :: r.ref
  }

  ghost predicate DistinctRefs(rows: seq<Receipt>) {
    forall i, j :: 0 <= i < j < |rows| && rows[i].ref != "" ==> rows[i].ref != rows[j].ref
  }

  predicate Genuine(r: Receipt) {
    r.ref != "" && r.scheme == REAL_SCHEME
  }

  /** The merge loop. Whatever the ledger repeats, no reference is archived twice;
      every settlement with a reference and the real scheme is archived afterwards,
      as its first row shows it, and nothing else is added. */
  method Capture(existing: seq<Receipt>, rows: seq<Receipt>) returns (missing: seq<Receipt>)
    ensures forall f :: f in missing ==> f.ref != "" && f.scheme == "exact" && f in rows && f.ref !in Refs(existing)
    ensures forall r :: r in rows && r.ref != "" && r.scheme == "exact" ==> r.ref in Refs(existing) + Refs(missing)
    ensures forall k :: 0 <= k < |rows| && IsFirst(rows, k) && rows[k].ref !in Refs(existing) ==> rows[k] in missing
    ensures DistinctRefs(missing) && (DistinctRefs(existing) ==> DistinctRefs(existing + missing))
  {
    missing := [];
    var known := Refs(existing);
    for k := 0 to |rows|
      invariant known == Refs(existing) + Refs(missing)
      invariant forall f :: f in missing ==> Genuine(f) && f in rows[..k] && f.ref !in Refs(existing)
      invariant forall j :: 0 <= j < k && Genuine(rows[j]) ==> rows[j].ref in known
      invariant forall j :: 0 <= j < k && IsFirst(rows, j) && rows[j].ref !in Refs(existing) ==> rows[j] in missing
      invariant DistinctRefs(missing)
    {
      var r := rows[k];
      assert rows[..k + 1] == rows[..k] + [r];
      if r.ref == "" || r.ref in known || r.scheme != REAL_SCHEME {
        continue;
      }
      assert forall f :: f in missing ==> f.ref in Refs(missing);
      known := known + {r.ref};
      missing := missing + [r];
    }
    assert rows[..|rows|] == rows;
    assert forall e :: e in existing && e.ref != "" ==> e.ref in Refs(existing);
  }

  /** The first row of its reference to show a genuine settlement. */
  predicate IsFirst(rows: seq<Receipt>, k: nat)
    requires k < |rows|
  {
    Genuine(rows[k]) && forall j :: 0 <= j < k && Genuine(rows[j]) ==> rows[j].ref != rows[k].ref
  }
}
