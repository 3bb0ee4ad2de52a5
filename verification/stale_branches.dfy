/**
 * The stale-branch cemetery: every non-default branch whose last commit
 * is at least a threshold of days old, with its ahead/behind counts, its
 * author and a category read off its name, most stale first.
 */
module StaleBranches {

  import opened Wrappers
  import opened Strings
  import Sorting

  /** Age given to a branch whose last commit date is missing. */
  const MissingAge: int := 999

  /** The threshold the report uses unless told otherwise. */
  const DefaultThreshold: int := 60

  const SecondsPerDay: int := 86400

  /** A branch as listed by the hosting service: its name, the parsed date
      of its last commit (seconds) when there is one, and the commit
      author's name when the commit carries an author record. */
  datatype Branch = Branch(name: string, lastDate: Option<int>, authorName: Option<string>)

  /** One compare response; either count may be absent. */
  datatype Comparison = Comparison(aheadBy: Option<int>, behindBy: Option<int>)

  datatype Category = Wip | StaleFeature | StaleFix | Orphan | Abandoned

  /** The category as the report spells it. */
  function CategoryName(c: Category): string {
    match c
    case Wip => "wip"
    case StaleFeature => "stale-feature"
    case StaleFix => "stale-fix"
    case Orphan => "orphan"
    case Abandoned => "abandoned"
  }

  datatype StaleBranch = StaleBranch(
    name: string,
    lastCommitDate: Option<int>,
    author: string,
    daysStale: int,
    aheadBehind: string,
    category: Category)

  /** The report; the free-text summary is not modelled. */
  datatype StaleBranchReport = StaleBranchReport(totalBranches: nat, staleBranches: seq<StaleBranch>, cleanupCandidates: nat)

  // ---------------------------------------------------------------------
  // Age
  // ---------------------------------------------------------------------

  /** `(now - last_date).days`, or 999 without a date. A timedelta's day
      count is the floor of the difference in days, which is what Dafny's
      division by a positive number gives. */
  function DaysOld(now: int, lastDate: Option<int>): (days: int)
    ensures lastDate.None? ==> days == MissingAge
    ensures lastDate.Some? ==>
      days * SecondsPerDay <= now - lastDate.value < days * SecondsPerDay + SecondsPerDay
  {
    match lastDate
    case Some(d) => (now - d) / SecondsPerDay
    case None => MissingAge
  }

  /** Older commits make older branches. */
  lemma DaysOldMonotone(now: int, a: int, b: int)
    requires a <= b
    ensures DaysOld(now, Some(a)) >= DaysOld(now, Some(b))
  {
  }

  // ---------------------------------------------------------------------
  // Ahead / behind
  // ---------------------------------------------------------------------

  /** `cmp.get(key, 0)` on the branch's compare entry, or 0 without one. */
  function AheadOf(compare: map<string, Comparison>, name: string): int {
    if name in compare then compare[name].aheadBy.GetOr(0) else 0
  }

  function BehindOf(compare: map<string, Comparison>, name: string): int {
    if name in compare then compare[name].behindBy.GetOr(0) else 0
  }

  /** `f"{ahead} ahead, {behind} behind"`. */
  function AheadBehind(ahead: int, behind: int): string {
    IntToString(ahead) + " ahead, " + IntToString(behind) + " behind"
  }

  /** Reads the two counts back out of the text. */
  function ParseAheadBehind(s: string): Option<(int, int)> {
    var parts := Split(s, ' ');
    if |parts| == 4 && parts[1] == "ahead," && parts[3] == "behind" then
      match (ParseInt(parts[0]), ParseInt(parts[2]))
      case (Some(a), Some(b)) => Some((a, b))
      case _ => None
    else None
  }

  lemma IntToStringNoSpace(i: int)
    ensures ' ' !in IntToString(i)
  {
    var s := IntToString(i);
    if i < 0 {
      assert s == "-" + NatToString(-i);
      assert forall k :: 1 <= k < |s| ==> s[k] == NatToString(-i)[k - 1];
    }
  }

  /** The ahead/behind text is read back exactly. */
  lemma AheadBehindRoundTrip(ahead: int, behind: int)
    ensures ParseAheadBehind(AheadBehind(ahead, behind)) == Some((ahead, behind))
  {
    var a, b := IntToString(ahead), IntToString(behind);
    var parts := [a, "ahead,", b, "behind"];
    assert Join(parts, " ") == AheadBehind(ahead, behind) by {
      assert Join(parts[3..], " ") == "behind";
      assert Join(parts[2..], " ") == b + " " + "behind";
      assert Join(parts[1..], " ") == "ahead," + " " + (b + " " + "behind");
    }
    IntToStringNoSpace(ahead);
    IntToStringNoSpace(behind);
    SplitJoin(parts, ' ');
    ParseIntRoundTrip(ahead);
    ParseIntRoundTrip(behind);
  }

  // ---------------------------------------------------------------------
  // Categories
  // ---------------------------------------------------------------------

  predicate IsWipName(lower: string) { Contains(lower, "wip") || Contains(lower, "draft") }

  predicate IsFeatureName(lower: string) { Contains(lower, "feature") || Contains(lower, "feat") }

  predicate IsFixName(lower: string) { Contains(lower, "fix") || Contains(lower, "bug") || Contains(lower, "hotfix") }

  /** The first rule that matches the lower-cased name decides. */
  function Categorize(name: string, ahead: int): (c: Category)
    ensures c == Wip <==> IsWipName(Lower(name))
    ensures c == StaleFeature <==> !IsWipName(Lower(name)) && IsFeatureName(Lower(name))
    ensures c == StaleFix <==> !IsWipName(Lower(name)) && !IsFeatureName(Lower(name)) && IsFixName(Lower(name))
    ensures c == Orphan <==>
      !IsWipName(Lower(name)) && !IsFeatureName(Lower(name)) && !IsFixName(Lower(name)) && ahead == 0
    ensures c == Abandoned <==>
      !IsWipName(Lower(name)) && !IsFeatureName(Lower(name)) && !IsFixName(Lower(name)) && ahead != 0
  {
    var lower := Lower(name);
    if IsWipName(lower) then Wip
    else if IsFeatureName(lower) then StaleFeature
    else if IsFixName(lower) then StaleFix
    else if ahead == 0 then Orphan
    else Abandoned
  }

  /** The category depends on the name only up to ASCII case. */
  lemma CategorizeCaseInsensitive(name: string, ahead: int)
    ensures Categorize(Lower(name), ahead) == Categorize(name, ahead)
  {
    LowerIdempotent(name);
  }

  /** Some keywords are redundant: every name containing "hotfix" contains
      "fix", and every name containing "feature" contains "feat". */
  lemma RedundantKeywords(lower: string)
    ensures Contains(lower, "hotfix") ==> Contains(lower, "fix")
    ensures Contains(lower, "feature") ==> Contains(lower, "feat")
  {
    assert OccursAt("hotfix", "fix", 3);
    ContainsAt("hotfix", "fix");
    assert StartsWith("feature", "feat");
    if Contains(lower, "hotfix") {
      ContainsTransitive(lower, "hotfix", "fix");
    }
    if Contains(lower, "feature") {
      ContainsTransitive(lower, "feature", "feat");
    }
  }

  /** The categories the repository's tests expect: a "wip" name, a
      feature branch, and a keyword-free name with and without commits
      ahead of the default branch. */
  lemma WipExample()
    ensures Categorize("wip-experiment", 0) == Wip
  {
    assert Lower("wip-experiment") == "wip-experiment";
    assert StartsWith("wip-experiment", "wip");
  }

  lemma FeatureName(f: string)
    requires f == "feature/login"
    ensures !IsWipName(Lower(f)) && IsFeatureName(Lower(f))
  {
    assert Lower(f) == f;
    assert StartsWith(f, "feature");
    MissingCharNotContained(f, "wip", 0);
    MissingCharNotContained(f, "draft", 0);
  }

  lemma FeatureExample()
    ensures Categorize("feature/login", 0) == StaleFeature
  {
    FeatureName("feature/login");
  }

  /** A lower-case name without the letters w, d, f and u holds none of
      the keywords. */
  lemma KeywordFreeLetters(s: string)
    requires Lower(s) == s
    requires 'w' !in s && 'd' !in s && 'f' !in s && 'u' !in s
    ensures !IsWipName(Lower(s)) && !IsFeatureName(Lower(s)) && !IsFixName(Lower(s))
  {
    MissingCharNotContained(s, "wip", 0);
    MissingCharNotContained(s, "draft", 0);
    MissingCharNotContained(s, "feature", 0);
    MissingCharNotContained(s, "feat", 0);
    MissingCharNotContained(s, "fix", 0);
    MissingCharNotContained(s, "bug", 1);
    MissingCharNotContained(s, "hotfix", 3);
  }

  lemma KeywordFree(s: string)
    requires s == "some-branch"
    ensures !IsWipName(Lower(s)) && !IsFeatureName(Lower(s)) && !IsFixName(Lower(s))
  {
    assert Lower(s) == s;
    KeywordFreeLetters(s);
  }

  lemma OrphanExample()
    ensures Categorize("some-branch", 0) == Orphan
    ensures Categorize("some-branch", 3) == Abandoned
  {
    KeywordFree("some-branch");
  }

  // ---------------------------------------------------------------------
  // Report
  // ---------------------------------------------------------------------

  /** A branch is reported when it is not the default branch and its age
      reaches the threshold. */
  predicate Reported(b: Branch, defaultBranch: string, threshold: int, now: int) {
    b.name != defaultBranch && DaysOld(now, b.lastDate) >= threshold
  }

  /** The report entry of a branch. */
  function Entry(b: Branch, compare: map<string, Comparison>, now: int): (s: StaleBranch)
    ensures s.name == b.name && s.lastCommitDate == b.lastDate
    ensures s.author == b.authorName.GetOr("")
    ensures s.daysStale == DaysOld(now, b.lastDate)
    ensures ParseAheadBehind(s.aheadBehind) == Some((AheadOf(compare, b.name), BehindOf(compare, b.name)))
    ensures s.category == Categorize(b.name, AheadOf(compare, b.name))
    ensures b.name !in compare ==> s.aheadBehind == AheadBehind(0, 0) && s.category != Abandoned
  {
    var ahead := AheadOf(compare, b.name);
    AheadBehindRoundTrip(ahead, BehindOf(compare, b.name));
    StaleBranch(b.name, b.lastDate, b.authorName.GetOr(""), DaysOld(now, b.lastDate),
                AheadBehind(ahead, BehindOf(compare, b.name)), Categorize(b.name, ahead))
  }

  /** The reported branches in listing order, before sorting. */
  function Candidates(branches: seq<Branch>, defaultBranch: string, compare: map<string, Comparison>,
                      threshold: int, now: int): (stale: seq<StaleBranch>)
    ensures |stale| <= |branches|
    ensures forall s :: s in stale <==>
      exists b :: b in branches && Reported(b, defaultBranch, threshold, now) && s == Entry(b, compare, now)
    decreases |branches|
  {
    if |branches| == 0 then []
    else
      var p := branches[..|branches| - 1];
      var b := branches[|branches| - 1];
      assert branches == p + [b];
      var rest := Candidates(p, defaultBranch, compare, threshold, now);
      if Reported(b, defaultBranch, threshold, now) then rest + [Entry(b, compare, now)] else rest
  }

  function DaysOf(s: StaleBranch): int { s.daysStale }

  /** One for the categories worth deleting outright, orphan and wip. */
  function CleanupWeight(s: StaleBranch): int {
    if s.category == Orphan || s.category == Wip then 1 else 0
  }

  /** Number of reported branches that are orphan or wip. */
  function CleanupCount(stale: seq<StaleBranch>): (n: nat)
    ensures n <= |stale|
    ensures n == Sorting.Total(stale, CleanupWeight)
    decreases |stale|
  {
    if |stale| == 0 then 0
    else
      var n := CleanupCount(stale[1..]);
      if stale[0].category == Orphan || stale[0].category == Wip then n + 1 else n
  }

  /** The report: all listed branches counted, the reported ones sorted
      most stale first with ties in listing order, and the number of
      orphan and wip entries. */
  function BuildStaleBranchReport(branches: seq<Branch>, defaultBranch: string, compare: map<string, Comparison>,
                                  threshold: int, now: int): (r: StaleBranchReport)
    ensures r.totalBranches == |branches|
    ensures forall s :: s in r.staleBranches <==>
      exists b :: b in branches && Reported(b, defaultBranch, threshold, now) && s == Entry(b, compare, now)
    ensures forall s :: s in r.staleBranches ==> s.name != defaultBranch && s.daysStale >= threshold
    ensures Sorting.NonIncreasing(r.staleBranches, DaysOf)
    ensures multiset(r.staleBranches) == multiset(Candidates(branches, defaultBranch, compare, threshold, now))
    ensures forall k :: Sorting.WithKey(r.staleBranches, DaysOf, k)
                     == Sorting.WithKey(Candidates(branches, defaultBranch, compare, threshold, now), DaysOf, k)
    ensures r.cleanupCandidates == CleanupCount(Candidates(branches, defaultBranch, compare, threshold, now))
    ensures r.cleanupCandidates <= |r.staleBranches|
  {
    var candidates := Candidates(branches, defaultBranch, compare, threshold, now);
    var stale := Sorting.SortDesc(candidates, DaysOf);
    forall k ensures Sorting.WithKey(stale, DaysOf, k) == Sorting.WithKey(candidates, DaysOf, k) {
      Sorting.SortStable(candidates, DaysOf, k);
    }
    forall s | s in stale ensures s in candidates {
      assert s in multiset(stale);
    }
    forall s | s in candidates ensures s in stale {
      assert s in multiset(candidates);
    }
    Sorting.TotalSort(candidates, DaysOf, CleanupWeight);
    StaleBranchReport(|branches|, stale, CleanupCount(stale))
  }

  /** The default branch is never reported, however old. */
  lemma DefaultNeverReported(branches: seq<Branch>, defaultBranch: string, compare: map<string, Comparison>,
                             threshold: int, now: int)
    ensures var r := BuildStaleBranchReport(branches, defaultBranch, compare, threshold, now);
      forall s :: s in r.staleBranches ==> s.name != defaultBranch
  {
  }

  /** A branch without a date is reported exactly when the threshold is at
      most 999 days. */
  lemma UndatedReported(b: Branch, defaultBranch: string, threshold: int, now: int)
    requires b.lastDate.None? && b.name != defaultBranch
    ensures Reported(b, defaultBranch, threshold, now) <==> threshold <= MissingAge
  {
  }

  /** The repository's threshold scenario: of a one-day-old default
      branch, a 90-day-old and a 10-day-old branch, only the 90-day-old
      one is reported at the default threshold. */
  lemma ThresholdExample(now: int, main: Branch, aged: Branch, recent: Branch)
    requires main == Branch("main", Some(now - SecondsPerDay), None)
    requires aged == Branch("feature/aged", Some(now - 90 * SecondsPerDay), None)
    requires recent == Branch("feature/recent", Some(now - 10 * SecondsPerDay), None)
    ensures var r := BuildStaleBranchReport([main, aged, recent], "main", map[], DefaultThreshold, now);
      r.totalBranches == 3 && |r.staleBranches| == 1 && r.staleBranches[0].name == "feature/aged"
  {
    var bs := [main, aged, recent];
    assert bs[..2] == [main, aged] && [main, aged][..1] == [main];
    assert aged.name != "main";
    assert DaysOld(now, main.lastDate) == 1;
    assert DaysOld(now, aged.lastDate) == 90;
    assert DaysOld(now, recent.lastDate) == 10;
    assert Candidates([main], "main", map[], DefaultThreshold, now) == [];
    assert Candidates([main, aged], "main", map[], DefaultThreshold, now) == [Entry(aged, map[], now)];
    assert Candidates(bs, "main", map[], DefaultThreshold, now) == [Entry(aged, map[], now)];
  }
}
