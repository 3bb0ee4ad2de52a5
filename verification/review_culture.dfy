/**
 * The review-culture analysis: who reviews pull requests, how often they
 * approve or ask for changes, whose work they review, how long the first
 * review takes, which reviewers carry an outsized share, and the most
 * visible reviewer/author pairs.
 */
module ReviewCulture {

  import opened Wrappers
  import opened Strings
  import opened Seqs
  import opened Models
  import Sorting
  import People

  /** One review as the hosting service returns it: the reviewer's login
      when the review names a user, the state, and the parsed submission
      time (seconds) when present and well-formed. */
  datatype Review = Review(login: Option<string>, state: string, submittedAt: Option<int>)

  /** The login counted for a review without a user. */
  const UnknownReviewer: string := "unknown"

  function ReviewerLogin(r: Review): string { r.login.GetOr(UnknownReviewer) }

  /** A reviewer's figures. The average review time is kept as its exact
      numerator, the total of first-review delays in seconds credited to
      the reviewer, next to its denominator `reviewsGiven`. */
  datatype ReviewerStats = ReviewerStats(
    login: string,
    reviewsGiven: nat,
    totalReviewSeconds: int,
    approvals: nat,
    rejections: nat,
    reviewedAuthors: seq<string>)

  /** The report. The overall average is kept as the list of first-review
      delays in seconds it averages; the free-text summary is not
      modelled. */
  datatype ReviewCultureReport = ReviewCultureReport(
    totalPrsReviewed: nat,
    firstReviewSeconds: seq<int>,
    reviewers: seq<ReviewerStats>,
    bottleneckReviewers: seq<string>,
    reviewPairs: seq<string>)

  // ---------------------------------------------------------------------
  // Per pull request
  // ---------------------------------------------------------------------

  /** `reviews_by_pr.get(pr.number, [])`. */
  function ReviewsOf(reviewsByPr: map<int, seq<Review>>, pr: PullRequest): seq<Review> {
    if pr.number in reviewsByPr then reviewsByPr[pr.number] else []
  }

  /** The submission times that are present, in review order. */
  function Times(reviews: seq<Review>): (ts: seq<int>)
    ensures forall t :: t in ts <==> exists r :: r in reviews && r.submittedAt == Some(t)
    decreases |reviews|
  {
    if |reviews| == 0 then []
    else
      var p := reviews[..|reviews| - 1];
      var r := reviews[|reviews| - 1];
      assert reviews == p + [r];
      if r.submittedAt.Some? then Times(p) + [r.submittedAt.value] else Times(p)
  }

  function Earliest(ts: seq<int>): (m: int)
    requires |ts| > 0
    ensures m in ts && forall t :: t in ts ==> m <= t
    decreases |ts|
  {
    if |ts| == 1 then ts[0]
    else
      var m := Earliest(ts[..|ts| - 1]);
      assert ts == ts[..|ts| - 1] + [ts[|ts| - 1]];
      if ts[|ts| - 1] < m then ts[|ts| - 1] else m
  }

  /** Seconds from opening the pull request to its earliest timed review,
      when there is such a review and it does not precede the opening. */
  function FirstReviewDelay(pr: PullRequest, reviews: seq<Review>): (d: Option<int>)
    ensures d.Some? <==>
      exists r :: r in reviews && r.submittedAt.Some? && r.submittedAt.value >= pr.createdAt
              && forall q :: q in reviews && q.submittedAt.Some? ==> r.submittedAt.value <= q.submittedAt.value
    ensures d.Some? ==> d.value >= 0 && exists r :: r in reviews && r.submittedAt == Some(pr.createdAt + d.value)
    ensures d.Some? ==> forall r :: r in reviews && r.submittedAt.Some? ==> pr.createdAt + d.value <= r.submittedAt.value
  {
    var ts := Times(reviews);
    if |ts| == 0 then
      assert forall r :: r in reviews ==> r.submittedAt.None? by {
        forall r | r in reviews ensures r.submittedAt.None? {
          if r.submittedAt.Some? {
            assert false;
          }
        }
      }
      None
    else
      var e := Earliest(ts);
      var w :| w in reviews && w.submittedAt == Some(e);
      if e - pr.createdAt >= 0 then Some(e - pr.createdAt)
      else
        assert forall r :: r in reviews && r.submittedAt.Some? ==> r.submittedAt.value >= e by {
          forall r | r in reviews && r.submittedAt.Some? ensures r.submittedAt.value >= e {
            assert r.submittedAt.value in ts;
          }
        }
        None
  }

  // ---------------------------------------------------------------------
  // Review events
  // ---------------------------------------------------------------------

  /** One review counted against its reviewer: the pull request's author,
      the verdict its upper-cased state stands for, and the delay credited to the reviewer (the
      pull request's first-review delay, or nothing). */
  datatype Event = Event(reviewer: string, author: string, verdict: Verdict, credit: int)

  /** What a review state counts as: `APPROVED` is an approval, either
      spelling of a change request is a rejection, anything else (a
      comment, a dismissal, a pending review) counts as neither. */
  datatype Verdict = Approval | Rejection | Neither

  function VerdictOf(state: string): (v: Verdict)
    ensures v == Approval <==> state == "APPROVED"
    ensures v == Rejection <==> state == "CHANGES_REQUESTED" || state == "REQUEST_CHANGES"
  {
    if state == "APPROVED" then Approval
    else if state == "CHANGES_REQUESTED" || state == "REQUEST_CHANGES" then Rejection
    else Neither
  }

  function ReviewerOf(e: Event): string { e.reviewer }

  function AuthorOf(e: Event): string { e.author }

  function PrEvents(pr: PullRequest, reviews: seq<Review>): (es: seq<Event>)
    ensures |es| == |reviews|
    ensures forall i :: 0 <= i < |reviews| ==>
      es[i] == Event(ReviewerLogin(reviews[i]), pr.author, VerdictOf(Upper(reviews[i].state)), FirstReviewDelay(pr, reviews).GetOr(0))
  {
    var credit := FirstReviewDelay(pr, reviews).GetOr(0);
    Map(reviews, (r: Review) => Event(ReviewerLogin(r), pr.author, VerdictOf(Upper(r.state)), credit))
  }

  /** The review events of all listed pull requests, in order. */
  function Events(prs: seq<PullRequest>, reviewsByPr: map<int, seq<Review>>): (es: seq<Event>)
    decreases |prs|
  {
    if |prs| == 0 then []
    else
      var pr := prs[|prs| - 1];
      Events(prs[..|prs| - 1], reviewsByPr) + PrEvents(pr, ReviewsOf(reviewsByPr, pr))
  }

  /** The number of reviews of the listed pull requests. */
  function ReviewTotal(prs: seq<PullRequest>, reviewsByPr: map<int, seq<Review>>): nat
    decreases |prs|
  {
    if |prs| == 0 then 0
    else ReviewTotal(prs[..|prs| - 1], reviewsByPr) + |ReviewsOf(reviewsByPr, prs[|prs| - 1])|
  }

  /** There is one event per review of a listed pull request, and each
      event names the author of such a pull request and the reviewer of
      one of its reviews. */
  lemma {:induction false} EventsOrigin(prs: seq<PullRequest>, reviewsByPr: map<int, seq<Review>>)
    ensures |Events(prs, reviewsByPr)| == ReviewTotal(prs, reviewsByPr)
    ensures forall e :: e in Events(prs, reviewsByPr) ==>
      exists pr, r :: pr in prs && r in ReviewsOf(reviewsByPr, pr) && e.author == pr.author && e.reviewer == ReviewerLogin(r)
    decreases |prs|
  {
    if |prs| > 0 {
      var p := prs[..|prs| - 1];
      var pr := prs[|prs| - 1];
      var rs := ReviewsOf(reviewsByPr, pr);
      EventsOrigin(p, reviewsByPr);
      forall e | e in Events(prs, reviewsByPr)
        ensures exists pr, r :: pr in prs && r in ReviewsOf(reviewsByPr, pr) && e.author == pr.author && e.reviewer == ReviewerLogin(r)
      {
        if e in Events(p, reviewsByPr) {
          var q, r :| q in p && r in ReviewsOf(reviewsByPr, q) && e.author == q.author && e.reviewer == ReviewerLogin(r);
          assert q in prs;
        } else {
          var es := PrEvents(pr, rs);
          assert e in es;
          var i :| 0 <= i < |es| && es[i] == e;
          assert rs[i] in rs;
          assert pr in prs;
        }
      }
    }
  }

  /** The number of listed pull requests with at least one review. */
  function ReviewedCount(prs: seq<PullRequest>, reviewsByPr: map<int, seq<Review>>): (n: nat)
    ensures n <= |prs|
    ensures n == 0 <==> forall pr :: pr in prs ==> ReviewsOf(reviewsByPr, pr) == []
    decreases |prs|
  {
    if |prs| == 0 then 0
    else
      var p := prs[..|prs| - 1];
      var pr := prs[|prs| - 1];
      assert prs == p + [pr];
      ReviewedCount(p, reviewsByPr) + if |ReviewsOf(reviewsByPr, pr)| > 0 then 1 else 0
  }

  /** The first-review delays of the reviewed pull requests that have one,
      in pull-request order. */
  function FirstReviewDelays(prs: seq<PullRequest>, reviewsByPr: map<int, seq<Review>>): (ds: seq<int>)
    ensures |ds| <= ReviewedCount(prs, reviewsByPr)
    ensures forall d :: d in ds ==> d >= 0
    decreases |prs|
  {
    if |prs| == 0 then []
    else
      var p := prs[..|prs| - 1];
      var pr := prs[|prs| - 1];
      var rs := ReviewsOf(reviewsByPr, pr);
      var d := FirstReviewDelay(pr, rs);
      if |rs| > 0 && d.Some? then FirstReviewDelays(p, reviewsByPr) + [d.value] else FirstReviewDelays(p, reviewsByPr)
  }

  /** The delay list holds, in pull-request order, the first-review delay
      of exactly those pull requests that have reviews and a delay. */
  lemma {:induction false} FirstReviewDelaysInOrder(prs: seq<PullRequest>, reviewsByPr: map<int, seq<Review>>)
    ensures FirstReviewDelays(prs, reviewsByPr) == Map(Filter(prs, Delayed(reviewsByPr)), DelayOf(reviewsByPr))
    decreases |prs|
  {
    if |prs| > 0 {
      var p := prs[..|prs| - 1];
      var pr := prs[|prs| - 1];
      var keep, f := Delayed(reviewsByPr), DelayOf(reviewsByPr);
      var step := if keep(pr) then [f(pr)] else [];
      calc {
        FirstReviewDelays(prs, reviewsByPr);
      == { FirstReviewDelaysLast(prs, reviewsByPr); }
        FirstReviewDelays(p, reviewsByPr) + step;
      == { FirstReviewDelaysInOrder(p, reviewsByPr); }
        Map(Filter(p, keep), f) + step;
      == { MapFilterSnoc(p, pr, keep, f); }
        Map(Filter(p + [pr], keep), f);
      == { assert prs == p + [pr]; }
        Map(Filter(prs, keep), f);
      }
    }
  }

  /** One step of the delay list: the last pull request adds its delay
      when it passes the test. */
  lemma FirstReviewDelaysLast(prs: seq<PullRequest>, reviewsByPr: map<int, seq<Review>>)
    requires |prs| > 0
    ensures FirstReviewDelays(prs, reviewsByPr) ==
      FirstReviewDelays(prs[..|prs| - 1], reviewsByPr)
      + (if Delayed(reviewsByPr)(prs[|prs| - 1]) then [DelayOf(reviewsByPr)(prs[|prs| - 1])] else [])
  {
    var q := FirstReviewDelays(prs[..|prs| - 1], reviewsByPr);
    assert q + [] == q;
  }

  /** The pull request has reviews and a first review no earlier than its
      opening: the test the delay list applies. */
  function Delayed(reviewsByPr: map<int, seq<Review>>): PullRequest -> bool {
    pr => |ReviewsOf(reviewsByPr, pr)| > 0 && FirstReviewDelay(pr, ReviewsOf(reviewsByPr, pr)).Some?
  }

  /** The first-review delay of a pull request that has one. */
  function DelayOf(reviewsByPr: map<int, seq<Review>>): PullRequest -> int {
    pr => FirstReviewDelay(pr, ReviewsOf(reviewsByPr, pr)).GetOr(0)
  }

  // ---------------------------------------------------------------------
  // Reference figures of one reviewer
  // ---------------------------------------------------------------------

  /** The events of reviewer `k`, in order. */
  function EventsBy(events: seq<Event>, k: string): (es: seq<Event>)
    ensures |es| <= |events|
    ensures forall e :: e in es <==> e in events && e.reviewer == k
    decreases |events|
  {
    if |events| == 0 then []
    else
      var p := events[..|events| - 1];
      var e := events[|events| - 1];
      assert events == p + [e];
      if e.reviewer == k then EventsBy(p, k) + [e] else EventsBy(p, k)
  }

  function Approvals(es: seq<Event>): (n: nat)
    ensures n <= |es|
    decreases |es|
  {
    if |es| == 0 then 0
    else Approvals(es[..|es| - 1]) + if es[|es| - 1].verdict == Approval then 1 else 0
  }

  function Rejections(es: seq<Event>): (n: nat)
    ensures n <= |es|
    decreases |es|
  {
    if |es| == 0 then 0
    else Rejections(es[..|es| - 1]) + if es[|es| - 1].verdict == Rejection then 1 else 0
  }

  /** No review both approves and asks for changes. */
  lemma {:induction false} VerdictsBounded(es: seq<Event>)
    ensures Approvals(es) + Rejections(es) <= |es|
    decreases |es|
  {
    if |es| > 0 {
      VerdictsBounded(es[..|es| - 1]);
    }
  }

  function Credit(es: seq<Event>): int
    decreases |es|
  {
    if |es| == 0 then 0 else Credit(es[..|es| - 1]) + es[|es| - 1].credit
  }

  /** A reviewer's figures by definition: their number of reviews,
      approvals and rejections, the credited delays, and the sorted set of
      authors they reviewed. */
  function ReviewerReference(events: seq<Event>, k: string): ReviewerStats {
    var es := EventsBy(events, k);
    ReviewerStats(k, |es|, Credit(es), Approvals(es), Rejections(es), SortedSet(Map(es, AuthorOf)))
  }

  /** The reviewers in first-review order. */
  function ReviewerKeys(events: seq<Event>): seq<string> {
    Dedup(Map(events, ReviewerOf))
  }

  // ---------------------------------------------------------------------
  // The analysis as written: one pass over an insertion-ordered dict
  // ---------------------------------------------------------------------

  /** A dict entry during the pass; authors are kept with repeats, since
      only their set is reported. */
  datatype Tally = Tally(login: string, given: nat, approvals: nat, rejections: nat, authors: seq<string>, seconds: int)

  function TallyLogin(t: Tally): string { t.login }

  function TallyGiven(t: Tally): int { t.given }

  function Record(t: Tally, e: Event): Tally {
    t.(given := t.given + 1,
       approvals := t.approvals + if e.verdict == Approval then 1 else 0,
       rejections := t.rejections + if e.verdict == Rejection then 1 else 0,
       authors := t.authors + [e.author],
       seconds := t.seconds + e.credit)
  }

  /** Position of the entry for `k`; `|acc|` when there is none. */
  function FindTally(acc: seq<Tally>, k: string): (i: nat)
    ensures i <= |acc|
    ensures i < |acc| ==> acc[i].login == k
    ensures forall j :: 0 <= j < i ==> acc[j].login != k
    decreases |acc|
  {
    if |acc| == 0 then 0
    else if acc[0].login == k then 0
    else FindTally(acc[1..], k) + 1
  }

  function AddEvent(acc: seq<Tally>, e: Event): seq<Tally> {
    var i := FindTally(acc, e.reviewer);
    if i < |acc| then acc[i := Record(acc[i], e)]
    else acc + [Record(Tally(e.reviewer, 0, 0, 0, [], 0), e)]
  }

  function FoldEvents(events: seq<Event>): seq<Tally>
    decreases |events|
  {
    if |events| == 0 then []
    else AddEvent(FoldEvents(events[..|events| - 1]), events[|events| - 1])
  }

  /** The reference entry of `k` during the pass. */
  function TallyReference(events: seq<Event>, k: string): Tally {
    RunTally(k, EventsBy(events, k))
  }

  /** The running figures of the reviews `es` of reviewer `k`. */
  function RunTally(k: string, es: seq<Event>): Tally {
    Tally(k, |es|, Approvals(es), Rejections(es), Map(es, AuthorOf), Credit(es))
  }

  /** `acc` holds, in order, the reference entries of `keys`. */
  predicate TalliesMatch(acc: seq<Tally>, events: seq<Event>, keys: seq<string>) {
    && |acc| == |keys|
    && forall j :: 0 <= j < |keys| ==> acc[j] == TallyReference(events, keys[j])
  }

  lemma FindTallyMatches(acc: seq<Tally>, events: seq<Event>, keys: seq<string>, k: string)
    requires TalliesMatch(acc, events, keys) && Distinct(keys)
    ensures FindTally(acc, k) < |acc| <==> k in keys
    ensures FindTally(acc, k) < |acc| ==> keys[FindTally(acc, k)] == k
    ensures forall j :: 0 <= j < |keys| && j != FindTally(acc, k) ==> keys[j] != k
  {
    assert forall j :: 0 <= j < |keys| ==> acc[j].login == keys[j];
  }

  lemma EventsByAppend(events: seq<Event>, e: Event, k: string)
    ensures EventsBy(events + [e], k) == if e.reviewer == k then EventsBy(events, k) + [e] else EventsBy(events, k)
  {
    assert (events + [e])[..|events|] == events;
  }

  lemma RunAppend(es: seq<Event>, e: Event)
    ensures Approvals(es + [e]) == Approvals(es) + if e.verdict == Approval then 1 else 0
    ensures Rejections(es + [e]) == Rejections(es) + if e.verdict == Rejection then 1 else 0
    ensures Credit(es + [e]) == Credit(es) + e.credit
    ensures Map(es + [e], AuthorOf) == Map(es, AuthorOf) + [e.author]
  {
    assert (es + [e])[..|es|] == es;
  }

  /** One more event of `k` is recorded as Record does. */
  lemma EventStepOwn(events: seq<Event>, e: Event)
    ensures TallyReference(events + [e], e.reviewer) == Record(TallyReference(events, e.reviewer), e)
  {
    EventsByAppend(events, e, e.reviewer);
    RunTallyStep(e.reviewer, EventsBy(events, e.reviewer), e);
  }

  lemma RunTallyStep(k: string, es: seq<Event>, e: Event)
    ensures RunTally(k, es + [e]) == Record(RunTally(k, es), e)
  {
    RunAppend(es, e);
  }

  /** Someone else's event leaves `k`'s entry alone. */
  lemma EventStepOther(events: seq<Event>, e: Event, k: string)
    requires e.reviewer != k
    ensures TallyReference(events + [e], k) == TallyReference(events, k)
  {
    EventsByAppend(events, e, k);
  }

  /** A reviewer without events has the fresh entry. */
  lemma {:induction false} FreshTally(events: seq<Event>, k: string)
    requires k !in Map(events, ReviewerOf)
    ensures TallyReference(events, k) == Tally(k, 0, 0, 0, [], 0)
    decreases |events|
  {
    if |events| > 0 {
      var p := events[..|events| - 1];
      var e := events[|events| - 1];
      assert events == p + [e];
      MapAppend(p, e, ReviewerOf);
      FreshTally(p, k);
      EventsByAppend(p, e, k);
    }
  }

  /** An event of a reviewer already in the table updates that entry only. */
  lemma AddKnownMatches(acc: seq<Tally>, events: seq<Event>, e: Event, keys: seq<string>, i: nat)
    requires TalliesMatch(acc, events, keys)
    requires i < |keys| && keys[i] == e.reviewer
    requires forall j :: 0 <= j < |keys| && j != i ==> keys[j] != e.reviewer
    ensures TalliesMatch(acc[i := Record(acc[i], e)], events + [e], keys)
  {
    var acc' := acc[i := Record(acc[i], e)];
    EventStepOwn(events, e);
    forall j | 0 <= j < |keys|
      ensures acc'[j] == TallyReference(events + [e], keys[j])
    {
      if j != i {
        EventStepOther(events, e, keys[j]);
      }
    }
  }

  /** An event of a new reviewer appends their fresh entry. */
  lemma AddNewMatches(acc: seq<Tally>, events: seq<Event>, e: Event, keys: seq<string>)
    requires TalliesMatch(acc, events, keys)
    requires e.reviewer !in keys && e.reviewer !in Map(events, ReviewerOf)
    ensures TalliesMatch(acc + [Record(Tally(e.reviewer, 0, 0, 0, [], 0), e)], events + [e], keys + [e.reviewer])
  {
    NewReviewerEntry(events, e);
    OthersUnchanged(acc, events, e, keys);
    TalliesMatchAppend(acc, events + [e], keys, e.reviewer);
  }

  /** The first event of a reviewer gives the fresh entry with that event recorded. */
  lemma NewReviewerEntry(events: seq<Event>, e: Event)
    requires e.reviewer !in Map(events, ReviewerOf)
    ensures TallyReference(events + [e], e.reviewer) == Record(Tally(e.reviewer, 0, 0, 0, [], 0), e)
  {
    EventStepOwn(events, e);
    FreshTally(events, e.reviewer);
  }

  /** An event of someone outside `keys` leaves their entries alone. */
  lemma OthersUnchanged(acc: seq<Tally>, events: seq<Event>, e: Event, keys: seq<string>)
    requires TalliesMatch(acc, events, keys) && e.reviewer !in keys
    ensures TalliesMatch(acc, events + [e], keys)
  {
    forall j | 0 <= j < |keys|
      ensures acc[j] == TallyReference(events + [e], keys[j])
    {
      EventStepOther(events, e, keys[j]);
    }
  }

  lemma TalliesMatchAppend(acc: seq<Tally>, events: seq<Event>, keys: seq<string>, k: string)
    requires TalliesMatch(acc, events, keys)
    ensures TalliesMatch(acc + [TallyReference(events, k)], events, keys + [k])
  {
    var acc' := acc + [TallyReference(events, k)];
    var keys' := keys + [k];
    forall j | 0 <= j < |keys'|
      ensures acc'[j] == TallyReference(events, keys'[j])
    {
      if j < |keys| {
        assert acc'[j] == acc[j] && keys'[j] == keys[j];
      }
    }
  }

  lemma AddEventMatches(acc: seq<Tally>, events: seq<Event>, e: Event)
    requires TalliesMatch(acc, events, ReviewerKeys(events))
    ensures TalliesMatch(AddEvent(acc, e), events + [e], ReviewerKeys(events + [e]))
  {
    var keys := ReviewerKeys(events);
    var k := e.reviewer;
    MapAppend(events, e, ReviewerOf);
    People.DedupAppend(Map(events, ReviewerOf), k);
    FindTallyMatches(acc, events, keys, k);
    var i := FindTally(acc, k);
    if i < |acc| {
      AddKnownMatches(acc, events, e, keys, i);
    } else {
      assert k !in Map(events, ReviewerOf);
      AddNewMatches(acc, events, e, keys);
    }
  }

  /** The pass computes the reference entry of every reviewer, in
      first-review order. */
  lemma {:induction false} FoldEventsMatches(events: seq<Event>)
    ensures TalliesMatch(FoldEvents(events), events, ReviewerKeys(events))
    decreases |events|
  {
    if |events| > 0 {
      var p := events[..|events| - 1];
      var e := events[|events| - 1];
      assert events == p + [e];
      FoldEventsMatches(p);
      AddEventMatches(FoldEvents(p), p, e);
    }
  }

  /** Every event is counted once: the entries' counts add up to the
      number of events. */
  lemma {:induction false} FoldEventsTotal(events: seq<Event>)
    ensures Sorting.Total(FoldEvents(events), TallyGiven) == |events|
    decreases |events|
  {
    if |events| > 0 {
      var p := events[..|events| - 1];
      var e := events[|events| - 1];
      FoldEventsTotal(p);
      var acc := FoldEvents(p);
      var i := FindTally(acc, e.reviewer);
      if i < |acc| {
        Sorting.TotalUpdate(acc, i, Record(acc[i], e), TallyGiven);
      } else {
        Sorting.TotalAppend(acc, [Record(Tally(e.reviewer, 0, 0, 0, [], 0), e)], TallyGiven);
      }
    }
  }

  /** The reported figures of a finished entry. */
  function Finish(t: Tally): ReviewerStats {
    ReviewerStats(t.login, t.given, t.seconds, t.approvals, t.rejections, SortedSet(t.authors))
  }

  function GivenOf(s: ReviewerStats): int { s.reviewsGiven }

  function StatsLogin(s: ReviewerStats): string { s.login }

  /** `sorted(reviewer_data.items(), key=-reviews_given)`: the reviewers
      with the most reviews first, ties in first-review order; each with
      its reference figures; every reviewer of an event once; and the
      counts adding up to the number of events. */
  function ReviewerTable(events: seq<Event>): (r: seq<ReviewerStats>)
    ensures r == Sorting.SortDesc(Map(ReviewerKeys(events), (k: string) => ReviewerReference(events, k)), GivenOf)
    ensures Sorting.NonIncreasing(r, GivenOf)
    ensures forall i :: 0 <= i < |r| ==> r[i] == ReviewerReference(events, r[i].login)
    ensures forall k :: k in Map(r, StatsLogin) <==> k in Map(events, ReviewerOf)
    ensures DistinctBy(r, StatsLogin)
    ensures Sorting.Total(r, GivenOf) == |events|
  {
    var acc := FoldEvents(events);
    var keys := ReviewerKeys(events);
    FoldEventsMatches(events);
    FoldEventsTotal(events);
    var table := Map(acc, Finish);
    var reference := Map(keys, (k: string) => ReviewerReference(events, k));
    assert table == reference;
    TotalFinish(acc);
    Sorting.TotalSort(table, GivenOf, GivenOf);
    var r := Sorting.SortDesc(table, GivenOf);
    TableFacts(events, keys, table, r);
    r
  }

  lemma {:induction false} TotalFinish(acc: seq<Tally>)
    ensures Sorting.Total(Map(acc, Finish), GivenOf) == Sorting.Total(acc, TallyGiven)
    decreases |acc|
  {
    if |acc| > 0 {
      TotalFinish(acc[1..]);
      assert Map(acc, Finish)[1..] == Map(acc[1..], Finish);
    }
  }

  /** Every entry of a reordered table is its login's reference. */
  lemma TableEntries(events: seq<Event>, keys: seq<string>, table: seq<ReviewerStats>, r: seq<ReviewerStats>)
    requires |table| == |keys| && forall j :: 0 <= j < |keys| ==> table[j] == ReviewerReference(events, keys[j])
    requires multiset(r) == multiset(table)
    ensures forall i :: 0 <= i < |r| ==> r[i] == ReviewerReference(events, r[i].login)
  {
    forall i | 0 <= i < |r| ensures r[i] == ReviewerReference(events, r[i].login) {
      assert r[i] in multiset(table);
    }
  }

  /** A reordered table lists the logins of the keys. */
  lemma TableLogins(keys: seq<string>, table: seq<ReviewerStats>, r: seq<ReviewerStats>)
    requires |table| == |keys| && forall j :: 0 <= j < |keys| ==> table[j].login == keys[j]
    requires multiset(r) == multiset(table)
    ensures forall k :: k in Map(r, StatsLogin) <==> k in keys
  {
    forall k ensures k in Map(r, StatsLogin) <==> k in keys {
      if k in Map(r, StatsLogin) {
        var i :| 0 <= i < |r| && r[i].login == k;
        assert r[i] in multiset(table);
        var j :| 0 <= j < |table| && table[j] == r[i];
        assert keys[j] == k;
      }
      if k in keys {
        var j :| 0 <= j < |keys| && keys[j] == k;
        assert table[j] in multiset(r);
        var i :| 0 <= i < |r| && r[i] == table[j];
        assert Map(r, StatsLogin)[i] == k;
      }
    }
  }

  /** The facts about the sorted table that follow from its being a
      permutation of the per-key references. */
  lemma TableFacts(events: seq<Event>, keys: seq<string>, table: seq<ReviewerStats>, r: seq<ReviewerStats>)
    requires keys == ReviewerKeys(events)
    requires |table| == |keys| && forall j :: 0 <= j < |keys| ==> table[j] == ReviewerReference(events, keys[j])
    requires multiset(r) == multiset(table)
    ensures forall i :: 0 <= i < |r| ==> r[i] == ReviewerReference(events, r[i].login)
    ensures forall k :: k in Map(r, StatsLogin) <==> k in Map(events, ReviewerOf)
    ensures DistinctBy(r, StatsLogin)
  {
    assert forall j :: 0 <= j < |keys| ==> table[j].login == keys[j];
    assert DistinctBy(table, StatsLogin);
    PermutationDistinctBy(table, r, StatsLogin);
    TableEntries(events, keys, table, r);
    TableLogins(keys, table, r);
    assert forall k :: k in keys <==> k in Map(events, ReviewerOf);
  }

  // ---------------------------------------------------------------------
  // Bottlenecks and pairs
  // ---------------------------------------------------------------------

  /** More than 40% of all reviews, `given / total > 0.4`, in integers. */
  predicate IsBottleneck(s: ReviewerStats, total: int) {
    total > 0 && 5 * s.reviewsGiven > 2 * total
  }

  /** The table entries that are bottlenecks, in table order. */
  function BottleneckEntries(stats: seq<ReviewerStats>, total: int): (r: seq<ReviewerStats>)
    ensures |r| <= |stats|
    ensures forall s :: s in r <==> s in stats && IsBottleneck(s, total)
    decreases |stats|
  {
    if |stats| == 0 then []
    else (if IsBottleneck(stats[0], total) then [stats[0]] else []) + BottleneckEntries(stats[1..], total)
  }

  /** The logins of the reviewers with more than 40% of all reviews. */
  function Bottlenecks(stats: seq<ReviewerStats>): (r: seq<string>)
    ensures forall k :: k in r <==>
      exists s :: s in stats && s.login == k && IsBottleneck(s, Sorting.Total(stats, GivenOf))
  {
    var entries := BottleneckEntries(stats, Sorting.Total(stats, GivenOf));
    var r := Map(entries, StatsLogin);
    assert forall k :: k in r ==> exists s :: s in entries && s.login == k;
    r
  }

  /** The bottleneck test against a fixed total. */
  function BottleneckTest(total: int): ReviewerStats -> bool {
    (s: ReviewerStats) => IsBottleneck(s, total)
  }

  /** The bottleneck entries keep the table order. */
  lemma {:induction false} BottleneckEntriesInOrder(stats: seq<ReviewerStats>, total: int)
    ensures BottleneckEntries(stats, total) == Filter(stats, BottleneckTest(total))
    decreases |stats|
  {
    if |stats| > 0 {
      BottleneckEntriesInOrder(stats[1..], total);
    }
  }

  /** The bottlenecks are listed in table order. */
  lemma BottlenecksInOrder(stats: seq<ReviewerStats>)
    ensures Bottlenecks(stats) == Map(Filter(stats, BottleneckTest(Sorting.Total(stats, GivenOf))), StatsLogin)
  {
    BottleneckEntriesInOrder(stats, Sorting.Total(stats, GivenOf));
  }

  /** Each bottleneck entry holds more than two fifths of the total, and
      together they hold no more than the whole table. */
  lemma {:induction false} BottleneckShare(stats: seq<ReviewerStats>, total: int)
    requires total >= 0
    ensures 5 * Sorting.Total(BottleneckEntries(stats, total), GivenOf) >= Copies(|BottleneckEntries(stats, total)|, 2 * total + 1)
    ensures Sorting.Total(BottleneckEntries(stats, total), GivenOf) <= Sorting.Total(stats, GivenOf)
    decreases |stats|
  {
    if |stats| > 0 {
      BottleneckShare(stats[1..], total);
      var b := BottleneckEntries(stats, total);
      var rest := BottleneckEntries(stats[1..], total);
      assert Sorting.Total(stats, GivenOf) == stats[0].reviewsGiven + Sorting.Total(stats[1..], GivenOf);
      if IsBottleneck(stats[0], total) {
        assert b == [stats[0]] + rest;
        assert b[1..] == rest;
        assert Sorting.Total(b, GivenOf) == stats[0].reviewsGiven + Sorting.Total(rest, GivenOf);
      } else {
        assert b == rest;
      }
    }
  }

  /** At most two reviewers can each hold more than 40% of the reviews. */
  lemma AtMostTwoBottlenecks(stats: seq<ReviewerStats>)
    ensures |Bottlenecks(stats)| <= 2
  {
    var total := Sorting.Total(stats, GivenOf);
    var n := |BottleneckEntries(stats, total)|;
    TotalNonNegative(stats);
    BottleneckShare(stats, total);
    assert |Bottlenecks(stats)| == n;
    if n >= 3 {
      CopiesGrow(n, 3, 2 * total + 1);
      CopiesProduct(3, 2 * total + 1);
    }
  }

  lemma {:induction false} CopiesGrow(n: nat, m: nat, w: nat)
    requires m <= n
    ensures Copies(m, w) <= Copies(n, w)
    decreases n
  {
    if m < n {
      CopiesGrow(n - 1, m, w);
    }
  }

  lemma {:induction false} TotalNonNegative(stats: seq<ReviewerStats>)
    ensures Sorting.Total(stats, GivenOf) >= 0
    decreases |stats|
  {
    if |stats| > 0 {
      TotalNonNegative(stats[1..]);
    }
  }

  /** How a pair reads: `@reviewer → @author`. */
  function PairText(reviewer: string, author: string): string {
    "@" + reviewer + " \U{2192} @" + author
  }

  /** The pairs of one reviewer: their first three reviewed authors other
      than themselves. */
  function ReviewerPairs(login: string, authors: seq<string>): (r: seq<string>)
    ensures |r| <= |authors|
    ensures forall p :: p in r <==> exists a :: a in authors && a != login && p == PairText(login, a)
    decreases |authors|
  {
    if |authors| == 0 then []
    else
      var p := authors[..|authors| - 1];
      var a := authors[|authors| - 1];
      assert authors == p + [a];
      ReviewerPairs(login, p) + if a != login then [PairText(login, a)] else []
  }

  /** The pairs of the listed reviewers, in order. */
  function Pairs(stats: seq<ReviewerStats>): (r: seq<string>)
    ensures |r| <= 3 * |stats|
    ensures forall p :: p in r <==> exists s, a :: s in stats && a in Take(s.reviewedAuthors, 3) && a != s.login && p == PairText(s.login, a)
    decreases |stats|
  {
    if |stats| == 0 then []
    else
      var p := stats[..|stats| - 1];
      var s := stats[|stats| - 1];
      assert stats == p + [s];
      Pairs(p) + ReviewerPairs(s.login, Take(s.reviewedAuthors, 3))
  }

  /** The author test of the pair loop: not the reviewer themself. */
  function NotSelf(login: string): string -> bool {
    (a: string) => a != login
  }

  /** The pair text of `login` with an author. */
  function PairWith(login: string): string -> string {
    (a: string) => PairText(login, a)
  }

  /** A reviewer's pairs follow the author order: one per author other than
      the reviewer, in order. */
  lemma {:induction false} ReviewerPairsInOrder(login: string, authors: seq<string>)
    ensures ReviewerPairs(login, authors) == Map(Filter(authors, NotSelf(login)), PairWith(login))
    decreases |authors|
  {
    if |authors| > 0 {
      var p := authors[..|authors| - 1];
      var a := authors[|authors| - 1];
      calc {
        ReviewerPairs(login, authors);
        ReviewerPairs(login, p) + if a != login then [PairText(login, a)] else [];
      == { ReviewerPairsInOrder(login, p); }
        Map(Filter(p, NotSelf(login)), PairWith(login)) + if a != login then [PairText(login, a)] else [];
      == { MapFilterSnoc(p, a, NotSelf(login), PairWith(login)); }
        Map(Filter(p + [a], NotSelf(login)), PairWith(login));
      == { assert authors == p + [a]; }
        Map(Filter(authors, NotSelf(login)), PairWith(login));
      }
    }
  }

  /** The pairs of a concatenation of reviewer lists are the pairs of the
      first list followed by those of the second: the reviewers' pairs come
      in table order, so the pairs of any first `k` reviewers are a prefix. */
  lemma {:induction false} PairsAppend(a: seq<ReviewerStats>, b: seq<ReviewerStats>)
    ensures Pairs(a + b) == Pairs(a) + Pairs(b)
    decreases |b|
  {
    if |b| > 0 {
      var q := b[..|b| - 1];
      var s := b[|b| - 1];
      var own := ReviewerPairs(s.login, Take(s.reviewedAuthors, 3));
      calc {
        Pairs(a + b);
      == { assert (a + b)[..|a + b| - 1] == a + q && (a + b)[|a + b| - 1] == s; }
        Pairs(a + q) + own;
      == { PairsAppend(a, q); }
        Pairs(a) + Pairs(q) + own;
      == { assert Pairs(b) == Pairs(q) + own; }
        Pairs(a) + Pairs(b);
      }
    } else {
      assert a + b == a && Pairs(a) + [] == Pairs(a);
    }
  }

  /** The pairs of one reviewer alone. */
  lemma PairsOne(s: ReviewerStats)
    ensures Pairs([s]) == ReviewerPairs(s.login, Take(s.reviewedAuthors, 3))
  {
    assert [s][..0] == [];
  }

  const PairReviewers: nat := 5
  const PairLimit: nat := 10

  /** `pairs[:10]` over the first five reviewers of the table. */
  function ReviewPairs(table: seq<ReviewerStats>): (r: seq<string>)
    ensures |r| <= PairLimit
    ensures r == Take(Pairs(Take(table, PairReviewers)), PairLimit)
    ensures forall p :: p in r ==>
      exists s, a :: s in Take(table, PairReviewers) && a in Take(s.reviewedAuthors, 3) && a != s.login && p == PairText(s.login, a)
  {
    var pairs := Pairs(Take(table, PairReviewers));
    var r := Take(pairs, PairLimit);
    assert forall p :: p in r ==> p in pairs;
    r
  }

  // ---------------------------------------------------------------------
  // The report
  // ---------------------------------------------------------------------

  /** `build_review_culture`. */
  function BuildReviewCulture(prs: seq<PullRequest>, reviewsByPr: map<int, seq<Review>>): (r: ReviewCultureReport)
    ensures r.totalPrsReviewed == ReviewedCount(prs, reviewsByPr) <= |prs|
    ensures r.firstReviewSeconds == FirstReviewDelays(prs, reviewsByPr)
    ensures r.reviewers == ReviewerTable(Events(prs, reviewsByPr))
    ensures forall k :: k in r.bottleneckReviewers <==>
      exists s :: s in r.reviewers && s.login == k && IsBottleneck(s, |Events(prs, reviewsByPr)|)
    ensures |r.bottleneckReviewers| <= 2
    ensures r.reviewPairs == ReviewPairs(r.reviewers)
  {
    var events := Events(prs, reviewsByPr);
    var table := ReviewerTable(events);
    AtMostTwoBottlenecks(table);
    ReviewCultureReport(ReviewedCount(prs, reviewsByPr), FirstReviewDelays(prs, reviewsByPr), table, Bottlenecks(table), ReviewPairs(table))
  }

  // ---------------------------------------------------------------------
  // Consequences
  // ---------------------------------------------------------------------

  /** Every reported reviewer's verdicts are at most their reviews, and
      their reviewed authors are sorted and free of repeats. */
  lemma ReviewerFacts(prs: seq<PullRequest>, reviewsByPr: map<int, seq<Review>>)
    ensures forall s :: s in BuildReviewCulture(prs, reviewsByPr).reviewers ==>
      && s.approvals + s.rejections <= s.reviewsGiven
      && StrictlySorted(s.reviewedAuthors)
  {
    var events := Events(prs, reviewsByPr);
    var table := BuildReviewCulture(prs, reviewsByPr).reviewers;
    forall s | s in table
      ensures s.approvals + s.rejections <= s.reviewsGiven && StrictlySorted(s.reviewedAuthors)
    {
      VerdictsBounded(EventsBy(events, s.login));
    }
  }

  /** Without any review there is no reviewer, no bottleneck and no pair. */
  lemma NoReviewsNoReviewers(prs: seq<PullRequest>, reviewsByPr: map<int, seq<Review>>)
    requires forall pr :: pr in prs ==> ReviewsOf(reviewsByPr, pr) == []
    ensures BuildReviewCulture(prs, reviewsByPr).totalPrsReviewed == 0
    ensures BuildReviewCulture(prs, reviewsByPr).reviewers == []
    ensures BuildReviewCulture(prs, reviewsByPr).bottleneckReviewers == []
    ensures BuildReviewCulture(prs, reviewsByPr).reviewPairs == []
  {
    NoReviewsNoEvents(prs, reviewsByPr);
    assert ReviewerKeys([]) == [];
  }

  lemma {:induction false} NoReviewsNoEvents(prs: seq<PullRequest>, reviewsByPr: map<int, seq<Review>>)
    requires forall pr :: pr in prs ==> ReviewsOf(reviewsByPr, pr) == []
    ensures Events(prs, reviewsByPr) == []
    decreases |prs|
  {
    if |prs| > 0 {
      var p := prs[..|prs| - 1];
      assert forall pr :: pr in p ==> pr in prs;
      NoReviewsNoEvents(p, reviewsByPr);
      assert prs[|prs| - 1] in prs;
    }
  }

  /** A pull request whose earliest timed review precedes its opening adds
      no delay to the overall list and credits no time to its reviewers. */
  lemma EarlyReviewAddsNothing(prs: seq<PullRequest>, reviewsByPr: map<int, seq<Review>>, pr: PullRequest, r: Review)
    requires r in ReviewsOf(reviewsByPr, pr) && r.submittedAt.Some? && r.submittedAt.value < pr.createdAt
    ensures FirstReviewDelays(prs + [pr], reviewsByPr) == FirstReviewDelays(prs, reviewsByPr)
    ensures forall e :: e in PrEvents(pr, ReviewsOf(reviewsByPr, pr)) ==> e.credit == 0
  {
    var rs := ReviewsOf(reviewsByPr, pr);
    assert (prs + [pr])[..|prs|] == prs;
    assert FirstReviewDelay(pr, rs).None?;
  }

  // ---------------------------------------------------------------------
  // A worked example
  // ---------------------------------------------------------------------

  /** Alice's pull request approved by Bob, then Bob's pull request
      reviewed twice by Alice (changes requested, then approved). */
  function ExampleEvents(alice: string, bob: string, d1: int, d2: int): seq<Event> {
    [Event(bob, alice, Approval, d1), Event(alice, bob, Rejection, d2), Event(alice, bob, Approval, d2)]
  }

  lemma ExampleAliceEvents(alice: string, bob: string, d1: int, d2: int)
    requires alice != bob
    ensures var es := ExampleEvents(alice, bob, d1, d2); EventsBy(es, alice) == [es[1], es[2]]
  {
    var es := ExampleEvents(alice, bob, d1, d2);
    var e0, e1, e2 := es[0], es[1], es[2];
    assert [e0] == [] + [e0] && [e0, e1] == [e0] + [e1] && es == [e0, e1] + [e2];
    EventsByAppend([], e0, alice);
    EventsByAppend([e0], e1, alice);
    EventsByAppend([e0, e1], e2, alice);
  }

  /** Both spellings of a change request count as a rejection, whatever
      their case. */
  lemma RejectionSpellings()
    ensures VerdictOf(Upper("changes_requested")) == Rejection
    ensures VerdictOf(Upper("REQUEST_CHANGES")) == Rejection
    ensures VerdictOf(Upper("approved")) == Approval
    ensures VerdictOf(Upper("COMMENTED")) == Neither
  {
    assert Upper("changes_requested") == "CHANGES_REQUESTED";
    assert Upper("REQUEST_CHANGES") == "REQUEST_CHANGES";
    assert Upper("approved") == "APPROVED";
    assert Upper("COMMENTED") == "COMMENTED";
  }

  lemma ExampleAliceRuns(bob: string, e1: Event, e2: Event)
    requires e1.verdict == Rejection && e2.verdict == Approval
    requires e1.author == bob && e2.author == bob && e1.credit == e2.credit
    ensures Approvals([e1, e2]) == 1 && Rejections([e1, e2]) == 1
    ensures Credit([e1, e2]) == 2 * e1.credit
    ensures SortedSet(Map([e1, e2], AuthorOf)) == [bob]
  {
    assert [e1, e2][..1] == [e1];
    assert [e1][..0] == [];
    assert Credit([e1]) == e1.credit;
    var authors := Map([e1, e2], AuthorOf);
    assert authors == [bob, bob] by {
      assert authors[0] == bob && authors[1] == bob;
    }
    SortedSetTwice(bob);
  }

  lemma SortedSetTwice(x: string)
    ensures SortedSet([x, x]) == [x]
  {
    SortedListingUnique([x], SortedSet([x, x]));
  }

  lemma ExampleAlice(alice: string, bob: string, d1: int, d2: int)
    requires alice != bob
    ensures ReviewerReference(ExampleEvents(alice, bob, d1, d2), alice) == ReviewerStats(alice, 2, 2 * d2, 1, 1, [bob])
  {
    var es := ExampleEvents(alice, bob, d1, d2);
    ExampleAliceEvents(alice, bob, d1, d2);
    ExampleAliceRuns(bob, es[1], es[2]);
  }

  lemma ExampleBob(alice: string, bob: string, d1: int, d2: int)
    requires alice != bob
    ensures ReviewerReference(ExampleEvents(alice, bob, d1, d2), bob) == ReviewerStats(bob, 1, d1, 1, 0, [alice])
  {
    var es := ExampleEvents(alice, bob, d1, d2);
    ExampleBobEvents(alice, bob, d1, d2);
    ExampleBobRun(es[0]);
    assert Map([es[0]], AuthorOf) == [alice];
    SortedSetSingle(alice);
  }

  lemma ExampleBobEvents(alice: string, bob: string, d1: int, d2: int)
    requires alice != bob
    ensures var es := ExampleEvents(alice, bob, d1, d2); EventsBy(es, bob) == [es[0]]
  {
    var es := ExampleEvents(alice, bob, d1, d2);
    var e0, e1, e2 := es[0], es[1], es[2];
    assert [e0] == [] + [e0] && [e0, e1] == [e0] + [e1] && es == [e0, e1] + [e2];
    EventsByAppend([], e0, bob);
    EventsByAppend([e0], e1, bob);
    EventsByAppend([e0, e1], e2, bob);
  }

  lemma ExampleBobRun(e0: Event)
    requires e0.verdict == Approval
    ensures Approvals([e0]) == 1 && Rejections([e0]) == 0 && Credit([e0]) == e0.credit
  {
    assert [e0][..0] == [];
  }

  lemma SortedSetSingle(x: string)
    ensures SortedSet([x]) == [x]
  {
    SortedListingUnique([x], SortedSet([x]));
  }

  lemma ExampleKeys(alice: string, bob: string, d1: int, d2: int)
    requires alice != bob
    ensures Map(ExampleEvents(alice, bob, d1, d2), ReviewerOf) == [bob, alice, alice]
    ensures ReviewerKeys(ExampleEvents(alice, bob, d1, d2)) == [bob, alice]
  {
    var rs := Map(ExampleEvents(alice, bob, d1, d2), ReviewerOf);
    assert rs == [bob, alice, alice];
    assert rs[..2][..1] == [bob];
    assert [bob][..0] == [];
    assert Dedup([bob]) == [bob];
    assert rs[..2] == [bob, alice];
    assert Dedup([bob, alice]) == [bob, alice];
  }

  /** In a two-reviewer table with two reviews against one, only the
      first reviewer is a bottleneck, whichever row comes first. */
  lemma ExampleBottleneck(a: ReviewerStats, b: ReviewerStats, table: seq<ReviewerStats>)
    requires a.reviewsGiven == 2 && b.reviewsGiven == 1
    requires table == [a, b] || table == [b, a]
    ensures Bottlenecks(table) == [a.login]
  {
    assert [a][1..] == [] && [b][1..] == [];
    assert Sorting.Total([a], GivenOf) == GivenOf(a) + Sorting.Total([a][1..], GivenOf) == 2;
    assert Sorting.Total([b], GivenOf) == GivenOf(b) + Sorting.Total([b][1..], GivenOf) == 1;
    assert BottleneckEntries([a], 3) == [a] && BottleneckEntries([b], 3) == [];
    if table == [a, b] {
      assert table[1..] == [b];
    } else {
      assert table[1..] == [a];
    }
    assert Sorting.Total(table, GivenOf) == 3;
    assert BottleneckEntries(table, 3) == [a];
  }

  /** Alice gave two of the three reviews and is the only bottleneck;
      Bob reviewed Alice once. */
  lemma ExampleByKey(alice: string, bob: string, d1: int, d2: int)
    requires alice != bob
    ensures var es := ExampleEvents(alice, bob, d1, d2);
      Map(ReviewerKeys(es), (k: string) => ReviewerReference(es, k))
        == [ReviewerStats(bob, 1, d1, 1, 0, [alice]), ReviewerStats(alice, 2, 2 * d2, 1, 1, [bob])]
  {
    ExampleAlice(alice, bob, d1, d2);
    ExampleBob(alice, bob, d1, d2);
    ExampleKeys(alice, bob, d1, d2);
  }

  /** A two-element permutation of two different values is one of the
      two orders. */
  lemma TwoOrders<T>(table: seq<T>, a: T, b: T)
    requires multiset(table) == multiset([b, a]) && a != b
    ensures table == [a, b] || table == [b, a]
  {
    assert |table| == |[b, a]|;
    assert table[0] in multiset([b, a]) && table[1] in multiset([b, a]);
    assert table == [table[0], table[1]];
  }

  lemma ExampleReport(alice: string, bob: string, d1: int, d2: int)
    requires alice != bob
    ensures var table := ReviewerTable(ExampleEvents(alice, bob, d1, d2));
      && ReviewerStats(alice, 2, 2 * d2, 1, 1, [bob]) in table
      && ReviewerStats(bob, 1, d1, 1, 0, [alice]) in table
      && Bottlenecks(table) == [alice]
  {
    var es := ExampleEvents(alice, bob, d1, d2);
    var a := ReviewerStats(alice, 2, 2 * d2, 1, 1, [bob]);
    var b := ReviewerStats(bob, 1, d1, 1, 0, [alice]);
    ExampleByKey(alice, bob, d1, d2);
    var table := ReviewerTable(es);
    TwoOrders(table, a, b);
    ExampleBottleneck(a, b, table);
  }
}
