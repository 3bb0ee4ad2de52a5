/**
 * Per-contributor statistics built from commits, pull requests and issues,
 * and the bus factor derived from them.
 *
 * `ComputeContributorStats` follows the three loops of the analysis: an
 * insertion-ordered dictionary keyed by contributor identity is filled
 * from the commits, then the pull requests, then the issues; each entry
 * then gets its top directories and the entries are sorted by commit count,
 * most first. `Reference` is an independent, per-contributor description
 * of the same numbers (filter the records by key, then count and sum), and
 * the contract ties the two together.
 */
module People {

  import opened Wrappers
  import opened Seqs
  import opened Sorting
  import Tally
  import opened Models
  import opened Paths

  // ---------------------------------------------------------------------
  // Reference definitions: what a contributor's statistics mean
  // ---------------------------------------------------------------------

  /** The commits whose identity is `key`, in order. */
  function CommitsBy(commits: seq<Commit>, key: string): (r: seq<Commit>)
    ensures |r| <= |commits|
    ensures forall i :: 0 <= i < |r| ==> Identity(r[i]) == key
    ensures |r| == 0 <==> key !in Map(commits, Identity)
    decreases |commits|
  {
    if |commits| == 0 then []
    else
      var p := CommitsBy(commits[..|commits| - 1], key);
      assert Map(commits, Identity) == Map(commits[..|commits| - 1], Identity) + [Identity(commits[|commits| - 1])];
      if Identity(commits[|commits| - 1]) == key then p + [commits[|commits| - 1]] else p
  }

  /** Lines added over a run of commits. */
  function LinesAdded(commits: seq<Commit>): nat
    decreases |commits|
  {
    if |commits| == 0 then 0
    else LinesAdded(commits[..|commits| - 1]) + commits[|commits| - 1].additions
  }

  /** Lines removed over a run of commits. */
  function LinesRemoved(commits: seq<Commit>): nat
    decreases |commits|
  {
    if |commits| == 0 then 0
    else LinesRemoved(commits[..|commits| - 1]) + commits[|commits| - 1].deletions
  }

  /** Every changed file of a run of commits, repeats included, in order. */
  function ChangedFiles(commits: seq<Commit>): seq<string>
    decreases |commits|
  {
    if |commits| == 0 then []
    else ChangedFiles(commits[..|commits| - 1]) + commits[|commits| - 1].filesChanged
  }

  /** Earliest commit date of a run, None for no commits. */
  function FirstDate(commits: seq<Commit>): (d: Option<int>)
    ensures d.None? <==> |commits| == 0
    ensures d.Some? ==> forall i :: 0 <= i < |commits| ==> d.value <= commits[i].date
    ensures d.Some? ==> exists i :: 0 <= i < |commits| && commits[i].date == d.value
    decreases |commits|
  {
    if |commits| == 0 then None
    else
      var p := FirstDate(commits[..|commits| - 1]);
      var c := commits[|commits| - 1];
      if p.None? || c.date < p.value then Some(c.date) else p
  }

  /** Latest commit date of a run, None for no commits. */
  function LastDate(commits: seq<Commit>): (d: Option<int>)
    ensures d.None? <==> |commits| == 0
    ensures d.Some? ==> forall i :: 0 <= i < |commits| ==> commits[i].date <= d.value
    ensures d.Some? ==> exists i :: 0 <= i < |commits| && commits[i].date == d.value
    decreases |commits|
  {
    if |commits| == 0 then None
    else
      var p := LastDate(commits[..|commits| - 1]);
      var c := commits[|commits| - 1];
      if p.None? || c.date > p.value then Some(c.date) else p
  }

  function PrAuthor(pr: PullRequest): string { pr.author }
  function IssueAuthor(issue: Issue): string { issue.author }

  /** Number of pull requests opened by `key`. */
  function PrsOpenedBy(prs: seq<PullRequest>, key: string): (n: nat)
    ensures n <= |prs|
    ensures n == 0 <==> key !in Map(prs, PrAuthor)
    decreases |prs|
  {
    if |prs| == 0 then 0
    else
      assert Map(prs, PrAuthor) == Map(prs[..|prs| - 1], PrAuthor) + [PrAuthor(prs[|prs| - 1])];
      PrsOpenedBy(prs[..|prs| - 1], key) + (if prs[|prs| - 1].author == key then 1 else 0)
  }

  /** Number of merged pull requests opened by `key`. */
  function PrsMergedBy(prs: seq<PullRequest>, key: string): (n: nat)
    ensures n <= PrsOpenedBy(prs, key)
    decreases |prs|
  {
    if |prs| == 0 then 0
    else
      var pr := prs[|prs| - 1];
      PrsMergedBy(prs[..|prs| - 1], key) + (if pr.author == key && IsMerged(pr) then 1 else 0)
  }

  /** Number of issues opened by `key`. */
  function IssuesOpenedBy(issues: seq<Issue>, key: string): (n: nat)
    ensures n <= |issues|
    ensures n == 0 <==> key !in Map(issues, IssueAuthor)
    decreases |issues|
  {
    if |issues| == 0 then 0
    else
      assert Map(issues, IssueAuthor) == Map(issues[..|issues| - 1], IssueAuthor) + [IssueAuthor(issues[|issues| - 1])];
      IssuesOpenedBy(issues[..|issues| - 1], key) + (if issues[|issues| - 1].author == key then 1 else 0)
  }

  /** Number of closed issues opened by `key`. */
  function IssuesClosedBy(issues: seq<Issue>, key: string): (n: nat)
    ensures n <= IssuesOpenedBy(issues, key)
    decreases |issues|
  {
    if |issues| == 0 then 0
    else
      var issue := issues[|issues| - 1];
      IssuesClosedBy(issues[..|issues| - 1], key) + (if issue.author == key && IsClosed(issue) then 1 else 0)
  }

  /** Every contributor key in the order the loops first meet it: commit
      identities, then pull-request authors, then issue authors. */
  function AllKeys(commits: seq<Commit>, prs: seq<PullRequest>, issues: seq<Issue>): seq<string> {
    Map(commits, Identity) + Map(prs, PrAuthor) + Map(issues, IssueAuthor)
  }

  /** The contributors of the report, each once, in first-seen order. */
  function ContributorKeys(commits: seq<Commit>, prs: seq<PullRequest>, issues: seq<Issue>): seq<string> {
    Dedup(AllKeys(commits, prs, issues))
  }

  /** A contributor's statistics before top directories: name and email
      from the contributor's first commit (empty when the contributor only
      opened pull requests or issues), counts and sums over the records
      carrying the key, the files in first-touched order, and the earliest
      and latest commit dates. */
  function BaseReference(commits: seq<Commit>, prs: seq<PullRequest>, issues: seq<Issue>, key: string): ContributorStats {
    var cs := CommitsBy(commits, key);
    ContributorStats(
      key,
      if |cs| > 0 then cs[0].authorName else "",
      if |cs| > 0 then cs[0].authorEmail else "",
      |cs|, LinesAdded(cs), LinesRemoved(cs),
      PrsOpenedBy(prs, key), PrsMergedBy(prs, key),
      IssuesOpenedBy(issues, key), IssuesClosedBy(issues, key),
      Dedup(ChangedFiles(cs)), [],
      FirstDate(cs), LastDate(cs))
  }

  // ---------------------------------------------------------------------
  // The analysis as written: three passes over an insertion-ordered dict
  // ---------------------------------------------------------------------

  /** Position of the entry for `key`; `|acc|` when there is none. */
  function Find(acc: seq<ContributorStats>, key: string): (i: nat)
    ensures i <= |acc|
    ensures i < |acc| ==> acc[i].login == key
    ensures forall j :: 0 <= j < i ==> acc[j].login != key
    decreases |acc|
  {
    if |acc| == 0 then 0
    else if acc[0].login == key then 0
    else Find(acc[1..], key) + 1
  }

  /** Counts one commit into its author's entry. */
  function RecordCommit(s: ContributorStats, c: Commit): ContributorStats {
    s.(commitCount := s.commitCount + 1,
       linesAdded := s.linesAdded + c.additions,
       linesRemoved := s.linesRemoved + c.deletions,
       filesTouched := AppendNew(s.filesTouched, c.filesChanged),
       firstCommitDate :=
         if s.firstCommitDate.None? || c.date < s.firstCommitDate.value then Some(c.date) else s.firstCommitDate,
       lastCommitDate :=
         if s.lastCommitDate.None? || c.date > s.lastCommitDate.value then Some(c.date) else s.lastCommitDate)
  }

  function AddCommit(acc: seq<ContributorStats>, c: Commit): seq<ContributorStats> {
    var key := Identity(c);
    var i := Find(acc, key);
    if i < |acc| then acc[i := RecordCommit(acc[i], c)]
    else acc + [RecordCommit(NewStats(key, c.authorName, c.authorEmail), c)]
  }

  function FoldCommits(acc: seq<ContributorStats>, commits: seq<Commit>): seq<ContributorStats>
    decreases |commits|
  {
    if |commits| == 0 then acc
    else AddCommit(FoldCommits(acc, commits[..|commits| - 1]), commits[|commits| - 1])
  }

  /** Counts one pull request into its author's entry. */
  function RecordPr(s: ContributorStats, pr: PullRequest): ContributorStats {
    s.(prsOpened := s.prsOpened + 1,
       prsMerged := s.prsMerged + if IsMerged(pr) then 1 else 0)
  }

  function AddPr(acc: seq<ContributorStats>, pr: PullRequest): seq<ContributorStats> {
    var i := Find(acc, pr.author);
    if i < |acc| then acc[i := RecordPr(acc[i], pr)]
    else acc + [RecordPr(NewStats(pr.author, "", ""), pr)]
  }

  function FoldPrs(acc: seq<ContributorStats>, prs: seq<PullRequest>): seq<ContributorStats>
    decreases |prs|
  {
    if |prs| == 0 then acc
    else AddPr(FoldPrs(acc, prs[..|prs| - 1]), prs[|prs| - 1])
  }

  /** Counts one issue into its author's entry. */
  function RecordIssue(s: ContributorStats, issue: Issue): ContributorStats {
    s.(issuesOpened := s.issuesOpened + 1,
       issuesClosed := s.issuesClosed + if IsClosed(issue) then 1 else 0)
  }

  function AddIssue(acc: seq<ContributorStats>, issue: Issue): seq<ContributorStats> {
    var i := Find(acc, issue.author);
    if i < |acc| then acc[i := RecordIssue(acc[i], issue)]
    else acc + [RecordIssue(NewStats(issue.author, "", ""), issue)]
  }

  function FoldIssues(acc: seq<ContributorStats>, issues: seq<Issue>): seq<ContributorStats>
    decreases |issues|
  {
    if |issues| == 0 then acc
    else AddIssue(FoldIssues(acc, issues[..|issues| - 1]), issues[|issues| - 1])
  }

  // ---------------------------------------------------------------------
  // The passes compute the reference statistics
  // ---------------------------------------------------------------------

  /** `acc` holds, in order, the reference statistics of the keys `keys`. */
  predicate Matches(acc: seq<ContributorStats>, commits: seq<Commit>, prs: seq<PullRequest>,
                    issues: seq<Issue>, keys: seq<string>) {
    && |acc| == |keys|
    && forall j :: 0 <= j < |keys| ==> acc[j] == BaseReference(commits, prs, issues, keys[j])
  }

  /** Locating a key in a matching accumulator is locating it among the keys. */
  lemma FindMatches(acc: seq<ContributorStats>, commits: seq<Commit>, prs: seq<PullRequest>,
                    issues: seq<Issue>, keys: seq<string>, key: string)
    requires Matches(acc, commits, prs, issues, keys) && Distinct(keys)
    ensures Find(acc, key) < |acc| <==> key in keys
    ensures Find(acc, key) < |acc| ==> keys[Find(acc, key)] == key
    ensures forall j :: 0 <= j < |keys| && j != Find(acc, key) ==> keys[j] != key
  {
    var i := Find(acc, key);
    assert forall j :: 0 <= j < |keys| ==> acc[j].login == keys[j];
  }

  /** Appending a record to the sequence appends it to the per-key view. */
  lemma CommitsByAppend(commits: seq<Commit>, c: Commit, key: string)
    ensures CommitsBy(commits + [c], key) ==
      if Identity(c) == key then CommitsBy(commits, key) + [c] else CommitsBy(commits, key)
  {
    assert (commits + [c])[..|commits|] == commits;
  }

  /** The run summaries of one more commit. */
  lemma RunAppend(cs: seq<Commit>, c: Commit)
    ensures LinesAdded(cs + [c]) == LinesAdded(cs) + c.additions
    ensures LinesRemoved(cs + [c]) == LinesRemoved(cs) + c.deletions
    ensures ChangedFiles(cs + [c]) == ChangedFiles(cs) + c.filesChanged
    ensures FirstDate(cs + [c]) ==
      if FirstDate(cs).None? || c.date < FirstDate(cs).value then Some(c.date) else FirstDate(cs)
    ensures LastDate(cs + [c]) ==
      if LastDate(cs).None? || c.date > LastDate(cs).value then Some(c.date) else LastDate(cs)
  {
    assert (cs + [c])[..|cs|] == cs;
  }

  /** The run summaries of a single commit. */
  lemma SingleRun(c: Commit)
    ensures LinesAdded([c]) == c.additions && LinesRemoved([c]) == c.deletions
    ensures ChangedFiles([c]) == c.filesChanged
    ensures FirstDate([c]) == Some(c.date) && LastDate([c]) == Some(c.date)
  {
    RunAppend([], c);
    assert [] + [c] == [c];
  }

  lemma AppendNewEmpty(xs: seq<string>)
    ensures AppendNew([], xs) == Dedup(xs)
  {
    AppendNewDedup([], xs);
    assert [] + xs == xs;
  }

  /** Another contributor's commit leaves a contributor's statistics alone. */
  lemma CommitStepOther(commits: seq<Commit>, c: Commit, key: string)
    requires Identity(c) != key
    ensures BaseReference(commits + [c], [], [], key) == BaseReference(commits, [], [], key)
  {
    CommitsByAppend(commits, c, key);
  }

  /** The reference statistics of a contributor with no pull requests or
      issues, read from the contributor's own commits `cs`. */
  function RunStats(key: string, cs: seq<Commit>): ContributorStats {
    ContributorStats(
      key,
      if |cs| > 0 then cs[0].authorName else "",
      if |cs| > 0 then cs[0].authorEmail else "",
      |cs|, LinesAdded(cs), LinesRemoved(cs), 0, 0, 0, 0,
      Dedup(ChangedFiles(cs)), [], FirstDate(cs), LastDate(cs))
  }

  lemma BaseReferenceRun(commits: seq<Commit>, key: string)
    ensures BaseReference(commits, [], [], key) == RunStats(key, CommitsBy(commits, key))
  {
    assert PrsOpenedBy([], key) == 0 && PrsMergedBy([], key) == 0;
    assert IssuesOpenedBy([], key) == 0 && IssuesClosedBy([], key) == 0;
  }

  /** Another commit of a non-empty run is counted as RecordCommit does. */
  lemma RunStep(key: string, cs: seq<Commit>, c: Commit)
    requires |cs| > 0
    ensures RunStats(key, cs + [c]) == RecordCommit(RunStats(key, cs), c)
  {
    RunAppend(cs, c);
    AppendNewDedup(ChangedFiles(cs), c.filesChanged);
    assert (cs + [c])[0] == cs[0];
  }

  /** A further commit of a known contributor is counted as RecordCommit does. */
  lemma CommitStepKnown(commits: seq<Commit>, c: Commit, key: string)
    requires Identity(c) == key && key in Map(commits, Identity)
    ensures BaseReference(commits + [c], [], [], key) == RecordCommit(BaseReference(commits, [], [], key), c)
  {
    CommitsByAppend(commits, c, key);
    var cs := CommitsBy(commits, key);
    assert |cs| > 0;
    BaseReferenceRun(commits, key);
    BaseReferenceRun(commits + [c], key);
    RunStep(key, cs, c);
  }

  /** A run of one commit is that commit counted into fresh statistics
      carrying the commit's name and email. */
  lemma RunFirst(key: string, c: Commit)
    ensures RunStats(key, [c]) == RecordCommit(NewStats(key, c.authorName, c.authorEmail), c)
  {
    SingleRun(c);
    AppendNewEmpty(c.filesChanged);
  }

  /** The first commit of a contributor creates the entry with the commit's
      name and email and counts the commit into it. */
  lemma CommitStepNew(commits: seq<Commit>, c: Commit, key: string)
    requires Identity(c) == key && key !in Map(commits, Identity)
    ensures BaseReference(commits + [c], [], [], key) == RecordCommit(NewStats(key, c.authorName, c.authorEmail), c)
  {
    CommitsByAppend(commits, c, key);
    assert CommitsBy(commits, key) == [];
    assert CommitsBy(commits + [c], key) == [c];
    BaseReferenceRun(commits + [c], key);
    RunFirst(key, c);
  }

  /** The keys of a prefix grow by the new record's key when it is new. */
  lemma DedupAppend(xs: seq<string>, x: string)
    ensures Dedup(xs + [x]) == if x in Dedup(xs) then Dedup(xs) else Dedup(xs) + [x]
  {
    assert (xs + [x])[..|xs|] == xs;
  }

  /** Counting one more commit keeps the accumulator matched to the reference. */
  lemma CommitStepMatches(acc: seq<ContributorStats>, cs: seq<Commit>, c: Commit)
    requires Matches(acc, cs, [], [], Dedup(Map(cs, Identity)))
    ensures Matches(AddCommit(acc, c), cs + [c], [], [], Dedup(Map(cs + [c], Identity)))
  {
    var key := Identity(c);
    MapAppend(cs, c, Identity);
    DedupAppend(Map(cs, Identity), key);
    if key in Map(cs, Identity) {
      CommitStepMatchesKnown(acc, cs, c);
    } else {
      CommitStepMatchesNew(acc, cs, c);
    }
  }

  lemma CommitStepMatchesKnown(acc: seq<ContributorStats>, cs: seq<Commit>, c: Commit)
    requires Matches(acc, cs, [], [], Dedup(Map(cs, Identity)))
    requires Identity(c) in Map(cs, Identity)
    ensures Matches(AddCommit(acc, c), cs + [c], [], [], Dedup(Map(cs, Identity)))
  {
    var keys := Dedup(Map(cs, Identity));
    var key := Identity(c);
    FindMatches(acc, cs, [], [], keys, key);
    var i := Find(acc, key);
    var acc' := AddCommit(acc, c);
    assert i < |acc|;
    CommitStepKnown(cs, c, key);
    forall j | 0 <= j < |keys|
      ensures acc'[j] == BaseReference(cs + [c], [], [], keys[j])
    {
      if j != i {
        CommitStepOther(cs, c, keys[j]);
      }
    }
  }

  lemma CommitStepMatchesNew(acc: seq<ContributorStats>, cs: seq<Commit>, c: Commit)
    requires Matches(acc, cs, [], [], Dedup(Map(cs, Identity)))
    requires Identity(c) !in Map(cs, Identity)
    ensures Matches(AddCommit(acc, c), cs + [c], [], [], Dedup(Map(cs, Identity)) + [Identity(c)])
  {
    var keys := Dedup(Map(cs, Identity));
    var key := Identity(c);
    FindMatches(acc, cs, [], [], keys, key);
    var acc' := AddCommit(acc, c);
    var keys' := keys + [key];
    assert key !in keys;
    assert Find(acc, key) == |acc|;
    CommitStepNew(cs, c, key);
    forall j | 0 <= j < |keys'|
      ensures acc'[j] == BaseReference(cs + [c], [], [], keys'[j])
    {
      if j < |keys| {
        assert keys[j] in keys;
        assert acc'[j] == acc[j] && keys'[j] == keys[j];
        CommitStepOther(cs, c, keys[j]);
      } else {
        assert keys'[j] == key;
      }
    }
  }

  /** The commit pass computes the reference statistics of every commit author. */
  lemma {:induction false} FoldCommitsMatches(commits: seq<Commit>)
    ensures Matches(FoldCommits([], commits), commits, [], [], Dedup(Map(commits, Identity)))
    decreases |commits|
  {
    if |commits| > 0 {
      var cs := commits[..|commits| - 1];
      var c := commits[|commits| - 1];
      assert commits == cs + [c];
      FoldCommitsMatches(cs);
      CommitStepMatches(FoldCommits([], cs), cs, c);
    }
  }

  /** A key no record carries has the statistics of a fresh entry. */
  lemma FreshReference(commits: seq<Commit>, prs: seq<PullRequest>, issues: seq<Issue>, key: string)
    requires key !in AllKeys(commits, prs, issues)
    ensures BaseReference(commits, prs, issues, key) == NewStats(key, "", "")
  {
    assert key !in Map(commits, Identity) && key !in Map(prs, PrAuthor) && key !in Map(issues, IssueAuthor);
    assert CommitsBy(commits, key) == [];
    assert Dedup(ChangedFiles([])) == [];
  }

  lemma PrsAppend(prs: seq<PullRequest>, p: PullRequest, key: string)
    ensures PrsOpenedBy(prs + [p], key) == PrsOpenedBy(prs, key) + (if p.author == key then 1 else 0)
    ensures PrsMergedBy(prs + [p], key) == PrsMergedBy(prs, key) + (if p.author == key && IsMerged(p) then 1 else 0)
  {
    assert (prs + [p])[..|prs|] == prs;
  }

  lemma IssuesAppend(issues: seq<Issue>, t: Issue, key: string)
    ensures IssuesOpenedBy(issues + [t], key) == IssuesOpenedBy(issues, key) + (if t.author == key then 1 else 0)
    ensures IssuesClosedBy(issues + [t], key) == IssuesClosedBy(issues, key) + (if t.author == key && IsClosed(t) then 1 else 0)
  {
    assert (issues + [t])[..|issues|] == issues;
  }

  /** One more pull request changes its author's statistics the way
      RecordPr does, and no one else's. */
  lemma PrStep(commits: seq<Commit>, prs: seq<PullRequest>, p: PullRequest, key: string)
    ensures p.author != key ==> BaseReference(commits, prs + [p], [], key) == BaseReference(commits, prs, [], key)
    ensures p.author == key ==> BaseReference(commits, prs + [p], [], key) == RecordPr(BaseReference(commits, prs, [], key), p)
  {
    PrsAppend(prs, p, key);
  }

  /** One more issue changes its author's statistics the way RecordIssue
      does, and no one else's. */
  lemma IssueStep(commits: seq<Commit>, prs: seq<PullRequest>, issues: seq<Issue>, t: Issue, key: string)
    ensures t.author != key ==> BaseReference(commits, prs, issues + [t], key) == BaseReference(commits, prs, issues, key)
    ensures t.author == key ==> BaseReference(commits, prs, issues + [t], key) == RecordIssue(BaseReference(commits, prs, issues, key), t)
  {
    IssuesAppend(issues, t, key);
  }

  lemma AllKeysPrAppend(commits: seq<Commit>, prs: seq<PullRequest>, p: PullRequest)
    ensures AllKeys(commits, prs + [p], []) == AllKeys(commits, prs, []) + [p.author]
  {
    MapAppend(prs, p, PrAuthor);
    assert Map([], IssueAuthor) == [];
  }

  lemma AllKeysIssueAppend(commits: seq<Commit>, prs: seq<PullRequest>, issues: seq<Issue>, t: Issue)
    ensures AllKeys(commits, prs, issues + [t]) == AllKeys(commits, prs, issues) + [t.author]
  {
    MapAppend(issues, t, IssueAuthor);
  }

  /** Counting one more pull request keeps the accumulator matched. */
  lemma PrStepMatches(acc: seq<ContributorStats>, commits: seq<Commit>, prs: seq<PullRequest>, p: PullRequest)
    requires Matches(acc, commits, prs, [], ContributorKeys(commits, prs, []))
    ensures Matches(AddPr(acc, p), commits, prs + [p], [], ContributorKeys(commits, prs + [p], []))
  {
    AllKeysPrAppend(commits, prs, p);
    DedupAppend(AllKeys(commits, prs, []), p.author);
    if p.author in AllKeys(commits, prs, []) {
      PrStepMatchesKnown(acc, commits, prs, p);
    } else {
      PrStepMatchesNew(acc, commits, prs, p);
    }
  }

  lemma PrStepMatchesKnown(acc: seq<ContributorStats>, commits: seq<Commit>, prs: seq<PullRequest>, p: PullRequest)
    requires Matches(acc, commits, prs, [], ContributorKeys(commits, prs, []))
    requires p.author in AllKeys(commits, prs, [])
    ensures Matches(AddPr(acc, p), commits, prs + [p], [], ContributorKeys(commits, prs, []))
  {
    var keys := ContributorKeys(commits, prs, []);
    var key := p.author;
    FindMatches(acc, commits, prs, [], keys, key);
    var i := Find(acc, key);
    var acc' := AddPr(acc, p);
    assert i < |acc|;
    forall j | 0 <= j < |keys|
      ensures acc'[j] == BaseReference(commits, prs + [p], [], keys[j])
    {
      PrStep(commits, prs, p, keys[j]);
    }
  }

  lemma PrStepMatchesNew(acc: seq<ContributorStats>, commits: seq<Commit>, prs: seq<PullRequest>, p: PullRequest)
    requires Matches(acc, commits, prs, [], ContributorKeys(commits, prs, []))
    requires p.author !in AllKeys(commits, prs, [])
    ensures Matches(AddPr(acc, p), commits, prs + [p], [], ContributorKeys(commits, prs, []) + [p.author])
  {
    var keys := ContributorKeys(commits, prs, []);
    var key := p.author;
    var keys' := keys + [key];
    FindMatches(acc, commits, prs, [], keys, key);
    var acc' := AddPr(acc, p);
    assert key !in keys;
    assert Find(acc, key) == |acc|;
    FreshReference(commits, prs, [], key);
    forall j | 0 <= j < |keys'|
      ensures acc'[j] == BaseReference(commits, prs + [p], [], keys'[j])
    {
      if j < |keys| {
        assert keys[j] in keys;
        assert acc'[j] == acc[j] && keys'[j] == keys[j];
      } else {
        assert keys'[j] == key;
      }
      PrStep(commits, prs, p, keys'[j]);
    }
  }

  /** Counting one more issue keeps the accumulator matched. */
  lemma IssueStepMatches(acc: seq<ContributorStats>, commits: seq<Commit>, prs: seq<PullRequest>,
                         issues: seq<Issue>, t: Issue)
    requires Matches(acc, commits, prs, issues, ContributorKeys(commits, prs, issues))
    ensures Matches(AddIssue(acc, t), commits, prs, issues + [t], ContributorKeys(commits, prs, issues + [t]))
  {
    AllKeysIssueAppend(commits, prs, issues, t);
    DedupAppend(AllKeys(commits, prs, issues), t.author);
    if t.author in AllKeys(commits, prs, issues) {
      IssueStepMatchesKnown(acc, commits, prs, issues, t);
    } else {
      IssueStepMatchesNew(acc, commits, prs, issues, t);
    }
  }

  lemma IssueStepMatchesKnown(acc: seq<ContributorStats>, commits: seq<Commit>, prs: seq<PullRequest>,
                              issues: seq<Issue>, t: Issue)
    requires Matches(acc, commits, prs, issues, ContributorKeys(commits, prs, issues))
    requires t.author in AllKeys(commits, prs, issues)
    ensures Matches(AddIssue(acc, t), commits, prs, issues + [t], ContributorKeys(commits, prs, issues))
  {
    var keys := ContributorKeys(commits, prs, issues);
    var key := t.author;
    FindMatches(acc, commits, prs, issues, keys, key);
    var i := Find(acc, key);
    var acc' := AddIssue(acc, t);
    assert i < |acc|;
    forall j | 0 <= j < |keys|
      ensures acc'[j] == BaseReference(commits, prs, issues + [t], keys[j])
    {
      IssueStep(commits, prs, issues, t, keys[j]);
    }
  }

  lemma IssueStepMatchesNew(acc: seq<ContributorStats>, commits: seq<Commit>, prs: seq<PullRequest>,
                            issues: seq<Issue>, t: Issue)
    requires Matches(acc, commits, prs, issues, ContributorKeys(commits, prs, issues))
    requires t.author !in AllKeys(commits, prs, issues)
    ensures Matches(AddIssue(acc, t), commits, prs, issues + [t], ContributorKeys(commits, prs, issues) + [t.author])
  {
    var keys := ContributorKeys(commits, prs, issues);
    var key := t.author;
    var keys' := keys + [key];
    FindMatches(acc, commits, prs, issues, keys, key);
    var acc' := AddIssue(acc, t);
    assert key !in keys;
    assert Find(acc, key) == |acc|;
    FreshReference(commits, prs, issues, key);
    forall j | 0 <= j < |keys'|
      ensures acc'[j] == BaseReference(commits, prs, issues + [t], keys'[j])
    {
      if j < |keys| {
        assert keys[j] in keys;
        assert acc'[j] == acc[j] && keys'[j] == keys[j];
      } else {
        assert keys'[j] == key;
      }
      IssueStep(commits, prs, issues, t, keys'[j]);
    }
  }

  lemma {:induction false} FoldPrsMatches(acc: seq<ContributorStats>, commits: seq<Commit>, prs: seq<PullRequest>)
    requires Matches(acc, commits, [], [], ContributorKeys(commits, [], []))
    ensures Matches(FoldPrs(acc, prs), commits, prs, [], ContributorKeys(commits, prs, []))
    decreases |prs|
  {
    if |prs| > 0 {
      var ps := prs[..|prs| - 1];
      var p := prs[|prs| - 1];
      assert prs == ps + [p];
      FoldPrsMatches(acc, commits, ps);
      PrStepMatches(FoldPrs(acc, ps), commits, ps, p);
    }
  }

  lemma {:induction false} FoldIssuesMatches(acc: seq<ContributorStats>, commits: seq<Commit>,
                                             prs: seq<PullRequest>, issues: seq<Issue>)
    requires Matches(acc, commits, prs, [], ContributorKeys(commits, prs, []))
    ensures Matches(FoldIssues(acc, issues), commits, prs, issues, ContributorKeys(commits, prs, issues))
    decreases |issues|
  {
    if |issues| > 0 {
      var ts := issues[..|issues| - 1];
      var t := issues[|issues| - 1];
      assert issues == ts + [t];
      FoldIssuesMatches(acc, commits, prs, ts);
      IssueStepMatches(FoldIssues(acc, ts), commits, prs, ts, t);
    }
  }

  /** The three passes together compute the reference statistics of every
      contributor, in first-seen order. */
  lemma PassesMatch(commits: seq<Commit>, prs: seq<PullRequest>, issues: seq<Issue>)
    ensures Matches(FoldIssues(FoldPrs(FoldCommits([], commits), prs), issues),
                    commits, prs, issues, ContributorKeys(commits, prs, issues))
  {
    FoldCommitsMatches(commits);
    assert AllKeys(commits, [], []) == Map(commits, Identity) by {
      assert Map([], PrAuthor) == [] && Map([], IssueAuthor) == [];
    }
    FoldPrsMatches(FoldCommits([], commits), commits, prs);
    FoldIssuesMatches(FoldPrs(FoldCommits([], commits), prs), commits, prs, issues);
  }

  // ---------------------------------------------------------------------
  // Top directories
  // ---------------------------------------------------------------------

  /** A folder with its number of touched files. */
  datatype DirCount = DirCount(folder: string, count: int)

  function DirCountOf(d: DirCount): int { d.count }
  function DirName(d: DirCount): string { d.folder }

  /** The folder of each touched file, in order. */
  function Folders(files: seq<string>): seq<string> {
    Map(files, FolderOf)
  }

  /** The tallies of a counter as folder/count pairs, in key order. */
  function DirCounts(c: Tally.Counter<string>): (r: seq<DirCount>)
    requires forall i :: 0 <= i < |c.keys| ==> c.keys[i] in c.counts
    ensures |r| == |c.keys|
    ensures forall i :: 0 <= i < |r| ==> r[i] == DirCount(c.keys[i], c.counts[c.keys[i]])
  {
    seq(|c.keys|, i requires 0 <= i < |c.keys| => DirCount(c.keys[i], c.counts[c.keys[i]]))
  }

  /** At most this many top directories are kept per contributor. */
  const TopDirectoryLimit: nat := 5

  /** Each pair carries a folder of the list and that folder's number of occurrences. */
  predicate CountsOf(d: seq<DirCount>, folders: seq<string>) {
    forall i :: 0 <= i < |d| ==> d[i].folder in folders && d[i].count == Tally.Occurrences(folders, d[i].folder)
  }

  /** Reordering the pairs keeps them faithful, distinct and complete. */
  lemma SortedDirFacts(d: seq<DirCount>, sorted: seq<DirCount>, folders: seq<string>)
    requires multiset(d) == multiset(sorted)
    requires CountsOf(d, folders) && DistinctBy(d, DirName)
    requires forall f :: f in folders ==> f in Map(d, DirName)
    ensures CountsOf(sorted, folders) && DistinctBy(sorted, DirName)
    ensures forall f :: f in folders ==> f in Map(sorted, DirName)
  {
    PermutationDistinctBy(d, sorted, DirName);
    forall m | 0 <= m < |sorted|
      ensures sorted[m].folder in folders && sorted[m].count == Tally.Occurrences(folders, sorted[m].folder)
    {
      assert sorted[m] in multiset(d);
      var a :| 0 <= a < |d| && d[a] == sorted[m];
    }
    forall f | f in folders
      ensures f in Map(sorted, DirName)
    {
      var a :| 0 <= a < |d| && Map(d, DirName)[a] == f;
      assert d[a] in multiset(sorted);
      var m :| 0 <= m < |sorted| && sorted[m] == d[a];
      assert Map(sorted, DirName)[m] == f;
    }
  }

  /** The first five of a ranked, faithful, complete list of pairs. */
  lemma RankedPrefix(sorted: seq<DirCount>, folders: seq<string>)
    requires NonIncreasing(sorted, DirCountOf)
    requires CountsOf(sorted, folders) && DistinctBy(sorted, DirName)
    requires forall f :: f in folders ==> f in Map(sorted, DirName)
    ensures var top := Map(Take(sorted, TopDirectoryLimit), DirName);
      && |top| <= TopDirectoryLimit
      && Distinct(top)
      && (forall i :: 0 <= i < |top| ==> top[i] in folders)
      && (forall i, j :: 0 <= i < j < |top| ==> Tally.Occurrences(folders, top[i]) >= Tally.Occurrences(folders, top[j]))
      && (forall f :: f in folders && f !in top ==>
            |top| == TopDirectoryLimit && forall i :: 0 <= i < |top| ==> Tally.Occurrences(folders, top[i]) >= Tally.Occurrences(folders, f))
  {
    var t := Take(sorted, TopDirectoryLimit);
    var top := Map(t, DirName);
    assert forall i :: 0 <= i < |t| ==> t[i] == sorted[i];
    assert forall i :: 0 <= i < |top| ==> top[i] == sorted[i].folder;
    forall i, j | 0 <= i < j < |top|
      ensures Tally.Occurrences(folders, top[i]) >= Tally.Occurrences(folders, top[j])
    {
      assert DirCountOf(sorted[i]) >= DirCountOf(sorted[j]);
    }
    forall f | f in folders && f !in top
      ensures |top| == TopDirectoryLimit
      ensures forall i :: 0 <= i < |top| ==> Tally.Occurrences(folders, top[i]) >= Tally.Occurrences(folders, f)
    {
      var m :| 0 <= m < |sorted| && Map(sorted, DirName)[m] == f;
      assert forall i :: 0 <= i < |t| ==> sorted[i].folder != f;
      assert sorted[m].folder == f;
      assert m >= |t|;
      forall i | 0 <= i < |top|
        ensures Tally.Occurrences(folders, top[i]) >= Tally.Occurrences(folders, f)
      {
        assert DirCountOf(sorted[i]) >= DirCountOf(sorted[m]);
      }
    }
  }

  /** The folders of the touched files with their number of files, most
      first, ties in first-seen order: every folder exactly once, each with
      its true count. */
  function RankedFolders(files: seq<string>): (sorted: seq<DirCount>)
    ensures NonIncreasing(sorted, DirCountOf)
    ensures CountsOf(sorted, Folders(files)) && DistinctBy(sorted, DirName)
    ensures forall f :: f in Folders(files) ==> f in Map(sorted, DirName)
  {
    var folders := Folders(files);
    var c := Tally.Count(folders);
    Tally.CountSpec(folders);
    var d := DirCounts(c);
    DirCountsFacts(folders, c);
    var sorted := SortDesc(d, DirCountOf);
    SortedDirFacts(d, sorted, folders);
    sorted
  }

  /** The folder tally, before sorting: every folder once with its count. */
  lemma DirCountsFacts(folders: seq<string>, c: Tally.Counter<string>)
    requires c == Tally.Count(folders)
    requires forall i :: 0 <= i < |c.keys| ==> c.keys[i] in c.counts
    ensures CountsOf(DirCounts(c), folders)
    ensures DistinctBy(DirCounts(c), DirName)
    ensures forall f :: f in folders ==> f in Map(DirCounts(c), DirName)
  {
    Tally.CountSpec(folders);
    var d := DirCounts(c);
    assert forall i :: 0 <= i < |d| ==> d[i].folder == c.keys[i];
    assert CountsOf(d, folders);
    assert DistinctBy(d, DirName);
    forall f | f in folders
      ensures f in Map(d, DirName)
    {
      var a :| 0 <= a < |c.keys| && c.keys[a] == f;
      assert Map(d, DirName)[a] == f;
    }
  }

  /** `[d for d, _ in sorted(dir_counts.items(), key=lambda x: -x[1])[:5]]`
      over the folders of the touched files: at most five distinct folders
      of the contributor, by non-increasing number of touched files; a
      folder is left out only when five folders touched at least as often
      were kept. */
  function TopDirectories(files: seq<string>): (top: seq<string>)
    ensures |top| <= TopDirectoryLimit
    ensures Distinct(top)
    ensures forall i :: 0 <= i < |top| ==> top[i] in Folders(files)
    ensures forall i, j :: 0 <= i < j < |top| ==>
      Tally.Occurrences(Folders(files), top[i]) >= Tally.Occurrences(Folders(files), top[j])
    ensures forall f :: f in Folders(files) && f !in top ==>
      |top| == TopDirectoryLimit &&
      forall i :: 0 <= i < |top| ==> Tally.Occurrences(Folders(files), top[i]) >= Tally.Occurrences(Folders(files), f)
  {
    RankedPrefix(RankedFolders(files), Folders(files));
    Map(Take(RankedFolders(files), TopDirectoryLimit), DirName)
  }

  function WithTopDirectories(s: ContributorStats): ContributorStats {
    s.(topDirectories := TopDirectories(s.filesTouched))
  }

  // ---------------------------------------------------------------------
  // The whole analysis
  // ---------------------------------------------------------------------

  /** A contributor's complete reference statistics. */
  function Reference(commits: seq<Commit>, prs: seq<PullRequest>, issues: seq<Issue>, key: string): ContributorStats {
    WithTopDirectories(BaseReference(commits, prs, issues, key))
  }

  /** Reference statistics of every contributor, in first-seen order. */
  function References(commits: seq<Commit>, prs: seq<PullRequest>, issues: seq<Issue>): (r: seq<ContributorStats>)
    ensures |r| == |ContributorKeys(commits, prs, issues)|
    ensures forall j :: 0 <= j < |r| ==> r[j] == Reference(commits, prs, issues, ContributorKeys(commits, prs, issues)[j])
  {
    var keys := ContributorKeys(commits, prs, issues);
    seq(|keys|, j requires 0 <= j < |keys| => Reference(commits, prs, issues, keys[j]))
  }

  lemma AddCommitTotal(acc: seq<ContributorStats>, c: Commit)
    ensures Total(AddCommit(acc, c), CommitCountOf) == Total(acc, CommitCountOf) + 1
  {
    var i := Find(acc, Identity(c));
    if i < |acc| {
      TotalUpdate(acc, i, RecordCommit(acc[i], c), CommitCountOf);
    } else {
      TotalAppend(acc, [RecordCommit(NewStats(Identity(c), c.authorName, c.authorEmail), c)], CommitCountOf);
    }
  }

  lemma AddPrTotal(acc: seq<ContributorStats>, p: PullRequest)
    ensures Total(AddPr(acc, p), CommitCountOf) == Total(acc, CommitCountOf)
  {
    var i := Find(acc, p.author);
    if i < |acc| {
      TotalUpdate(acc, i, RecordPr(acc[i], p), CommitCountOf);
    } else {
      TotalAppend(acc, [RecordPr(NewStats(p.author, "", ""), p)], CommitCountOf);
    }
  }

  lemma AddIssueTotal(acc: seq<ContributorStats>, t: Issue)
    ensures Total(AddIssue(acc, t), CommitCountOf) == Total(acc, CommitCountOf)
  {
    var i := Find(acc, t.author);
    if i < |acc| {
      TotalUpdate(acc, i, RecordIssue(acc[i], t), CommitCountOf);
    } else {
      TotalAppend(acc, [RecordIssue(NewStats(t.author, "", ""), t)], CommitCountOf);
    }
  }

  /** Every commit is counted exactly once by the three passes. */
  lemma {:induction false} PassesTotal(commits: seq<Commit>, prs: seq<PullRequest>, issues: seq<Issue>)
    ensures Total(FoldIssues(FoldPrs(FoldCommits([], commits), prs), issues), CommitCountOf) == |commits|
    decreases |commits| + |prs| + |issues|
  {
    if |issues| > 0 {
      PassesTotal(commits, prs, issues[..|issues| - 1]);
      AddIssueTotal(FoldIssues(FoldPrs(FoldCommits([], commits), prs), issues[..|issues| - 1]), issues[|issues| - 1]);
    } else if |prs| > 0 {
      PassesTotal(commits, prs[..|prs| - 1], []);
      AddPrTotal(FoldPrs(FoldCommits([], commits), prs[..|prs| - 1]), prs[|prs| - 1]);
    } else if |commits| > 0 {
      PassesTotal(commits[..|commits| - 1], [], []);
      AddCommitTotal(FoldCommits([], commits[..|commits| - 1]), commits[|commits| - 1]);
    }
  }

  /** Sums agree over sequences that agree element by element on the summand. */
  lemma {:induction false} TotalPointwise(s: seq<ContributorStats>, t: seq<ContributorStats>)
    requires |s| == |t|
    requires forall i :: 0 <= i < |s| ==> s[i].commitCount == t[i].commitCount
    ensures Total(s, CommitCountOf) == Total(t, CommitCountOf)
    decreases |s|
  {
    if |s| > 0 {
      TotalPointwise(s[1..], t[1..]);
    }
  }

  /** The analysis as written equals the reference description: the
      reference statistics of every contributor, stably sorted by commit
      count, most first. The list names each contributor once, covers every
      commit author, pull-request author and issue author, and its commit
      counts add up to the number of commits. */
  function ComputeContributorStats(commits: seq<Commit>, prs: seq<PullRequest>, issues: seq<Issue>): (r: seq<ContributorStats>)
    ensures r == SortDesc(References(commits, prs, issues), CommitCountOf)
    ensures NonIncreasing(r, CommitCountOf)
    ensures forall i :: 0 <= i < |r| ==> r[i] == Reference(commits, prs, issues, r[i].login)
    ensures forall i :: 0 <= i < |r| ==> r[i].login in AllKeys(commits, prs, issues)
    ensures forall k :: k in AllKeys(commits, prs, issues) ==> k in Map(r, LoginOf)
    ensures DistinctBy(r, LoginOf)
    ensures Total(r, CommitCountOf) == |commits|
  {
    var acc := FoldIssues(FoldPrs(FoldCommits([], commits), prs), issues);
    PassesMatch(commits, prs, issues);
    PassesTotal(commits, prs, issues);
    var full := Map(acc, WithTopDirectories);
    var refs := References(commits, prs, issues);
    assert full == refs;
    var r := SortDesc(full, CommitCountOf);
    ContributorStatsSpec(commits, prs, issues, acc, r);
    r
  }

  /** The reference list names each contributor once, by their key. */
  lemma ReferencesLogins(commits: seq<Commit>, prs: seq<PullRequest>, issues: seq<Issue>)
    ensures forall j :: 0 <= j < |References(commits, prs, issues)| ==>
      References(commits, prs, issues)[j].login == ContributorKeys(commits, prs, issues)[j]
    ensures DistinctBy(References(commits, prs, issues), LoginOf)
  {
  }

  /** Every element of a reordering of the reference list is some key's reference. */
  lemma SortedReferences(commits: seq<Commit>, prs: seq<PullRequest>, issues: seq<Issue>, r: seq<ContributorStats>)
    requires multiset(r) == multiset(References(commits, prs, issues))
    ensures forall i :: 0 <= i < |r| ==> r[i] == Reference(commits, prs, issues, r[i].login)
    ensures forall i :: 0 <= i < |r| ==> r[i].login in AllKeys(commits, prs, issues)
  {
    var keys := ContributorKeys(commits, prs, issues);
    var refs := References(commits, prs, issues);
    forall i | 0 <= i < |r|
      ensures r[i] == Reference(commits, prs, issues, r[i].login)
      ensures r[i].login in AllKeys(commits, prs, issues)
    {
      assert r[i] in multiset(refs);
      var a :| 0 <= a < |refs| && refs[a] == r[i];
      assert refs[a] == Reference(commits, prs, issues, keys[a]);
    }
  }

  /** A reordering of the reference list still covers every key. */
  lemma SortedReferencesCover(commits: seq<Commit>, prs: seq<PullRequest>, issues: seq<Issue>, r: seq<ContributorStats>)
    requires multiset(r) == multiset(References(commits, prs, issues))
    ensures forall k :: k in AllKeys(commits, prs, issues) ==> k in Map(r, LoginOf)
  {
    var keys := ContributorKeys(commits, prs, issues);
    var refs := References(commits, prs, issues);
    ReferencesLogins(commits, prs, issues);
    forall k | k in AllKeys(commits, prs, issues)
      ensures k in Map(r, LoginOf)
    {
      var a :| 0 <= a < |keys| && keys[a] == k;
      assert refs[a] in multiset(r);
      var m :| 0 <= m < |r| && r[m] == refs[a];
      assert Map(r, LoginOf)[m] == k;
    }
  }

  lemma ContributorStatsSpec(commits: seq<Commit>, prs: seq<PullRequest>, issues: seq<Issue>,
                             acc: seq<ContributorStats>, r: seq<ContributorStats>)
    requires Matches(acc, commits, prs, issues, ContributorKeys(commits, prs, issues))
    requires Total(acc, CommitCountOf) == |commits|
    requires r == SortDesc(References(commits, prs, issues), CommitCountOf)
    ensures forall i :: 0 <= i < |r| ==> r[i] == Reference(commits, prs, issues, r[i].login)
    ensures forall i :: 0 <= i < |r| ==> r[i].login in AllKeys(commits, prs, issues)
    ensures forall k :: k in AllKeys(commits, prs, issues) ==> k in Map(r, LoginOf)
    ensures DistinctBy(r, LoginOf)
    ensures Total(r, CommitCountOf) == |commits|
  {
    SortedReferencesShape(commits, prs, issues, r);
    SortedReferencesTotal(commits, prs, issues, acc, r);
  }

  /** A reordering of the reference list holds each key's reference once. */
  lemma SortedReferencesShape(commits: seq<Commit>, prs: seq<PullRequest>, issues: seq<Issue>, r: seq<ContributorStats>)
    requires multiset(r) == multiset(References(commits, prs, issues))
    ensures forall i :: 0 <= i < |r| ==> r[i] == Reference(commits, prs, issues, r[i].login)
    ensures forall i :: 0 <= i < |r| ==> r[i].login in AllKeys(commits, prs, issues)
    ensures forall k :: k in AllKeys(commits, prs, issues) ==> k in Map(r, LoginOf)
    ensures DistinctBy(r, LoginOf)
  {
    ReferencesLogins(commits, prs, issues);
    PermutationDistinctBy(References(commits, prs, issues), r, LoginOf);
    SortedReferences(commits, prs, issues, r);
    SortedReferencesCover(commits, prs, issues, r);
  }

  /** Sorting the reference list keeps the accumulator's commit total. */
  lemma SortedReferencesTotal(commits: seq<Commit>, prs: seq<PullRequest>, issues: seq<Issue>,
                              acc: seq<ContributorStats>, r: seq<ContributorStats>)
    requires Matches(acc, commits, prs, issues, ContributorKeys(commits, prs, issues))
    requires Total(acc, CommitCountOf) == |commits|
    requires r == SortDesc(References(commits, prs, issues), CommitCountOf)
    ensures Total(r, CommitCountOf) == |commits|
  {
    var refs := References(commits, prs, issues);
    ReferencesLogins(commits, prs, issues);
    TotalPointwise(acc, refs);
    TotalSort(refs, CommitCountOf, CommitCountOf);
  }

  /** Contributors with equal commit counts keep the order in which the
      passes first met them. */
  lemma ContributorOrderStable(commits: seq<Commit>, prs: seq<PullRequest>, issues: seq<Issue>, k: int)
    ensures WithKey(ComputeContributorStats(commits, prs, issues), CommitCountOf, k)
         == WithKey(References(commits, prs, issues), CommitCountOf, k)
  {
    SortStable(References(commits, prs, issues), CommitCountOf, k);
  }

  // ---------------------------------------------------------------------
  // Bus factor
  // ---------------------------------------------------------------------

  /** The first `n` contributors account for at least `num/den` of all
      commits (`cumulative / total >= threshold`, cross-multiplied). */
  predicate Covers(stats: seq<ContributorStats>, n: nat, num: int, den: nat)
    requires n <= |stats|
  {
    den * Total(stats[..n], CommitCountOf) >= num * Total(stats, CommitCountOf)
  }

  lemma TotalNonNegative(s: seq<ContributorStats>)
    ensures Total(s, CommitCountOf) >= 0
    decreases |s|
  {
    if |s| > 0 {
      TotalNonNegative(s[1..]);
    }
  }

  /** The loop from position `i` on, with `cumulative` commits counted so far. */
  function ScanCoverage(stats: seq<ContributorStats>, i: nat, cumulative: int, total: int, num: int, den: nat): (n: nat)
    requires i <= |stats|
    ensures i <= n <= |stats|
    decreases |stats| - i
  {
    if i == |stats| then |stats|
    else
      var c := cumulative + stats[i].commitCount;
      if den * c >= num * total then i + 1 else ScanCoverage(stats, i + 1, c, total, num, den)
  }

  /** `compute_bus_factor(stats, threshold)` for `threshold == num/den`:
      0 when there are no commits; otherwise the smallest `n >= 1` whose
      first `n` contributors cover the threshold, or all of them when no
      prefix does. */
  function BusFactorWith(stats: seq<ContributorStats>, num: int, den: nat): (n: nat)
    requires den > 0
    ensures n <= |stats|
    ensures Total(stats, CommitCountOf) == 0 <==> n == 0
    ensures n > 0 && n < |stats| ==> Covers(stats, n, num, den)
    ensures n > 0 ==> forall m :: 1 <= m < n ==> !Covers(stats, m, num, den)
  {
    var total := Total(stats, CommitCountOf);
    if total == 0 then 0
    else
      TotalNonNegative(stats);
      ScanSpec(stats, 0, total, num, den);
      assert stats[..0] == [];
      ScanCoverage(stats, 0, 0, total, num, den)
  }

  /** The loop returns the first covering position after `i`. */
  lemma {:induction false} ScanSpec(stats: seq<ContributorStats>, i: nat, total: int, num: int, den: nat)
    requires i <= |stats| && total == Total(stats, CommitCountOf) && total > 0
    ensures var n := ScanCoverage(stats, i, Total(stats[..i], CommitCountOf), total, num, den);
      && (i < |stats| ==> n > i)
      && (n < |stats| ==> Covers(stats, n, num, den))
      && (forall m :: i < m < n ==> !Covers(stats, m, num, den))
    decreases |stats| - i
  {
    if i < |stats| {
      var cum := Total(stats[..i], CommitCountOf);
      assert stats[..i + 1] == stats[..i] + [stats[i]];
      TotalAppend(stats[..i], [stats[i]], CommitCountOf);
      assert Total(stats[..i + 1], CommitCountOf) == cum + stats[i].commitCount;
      if den * (cum + stats[i].commitCount) < num * total {
        ScanSpec(stats, i + 1, total, num, den);
      }
    }
  }

  /** The default threshold of 80%. */
  function BusFactor(stats: seq<ContributorStats>): (n: nat)
    ensures n <= |stats|
    ensures Total(stats, CommitCountOf) == 0 <==> n == 0
    ensures n > 0 ==> Covers(stats, n, 4, 5)
    ensures n > 0 ==> forall m :: 1 <= m < n ==> !Covers(stats, m, 4, 5)
  {
    WholeListCovers(stats, 4, 5);
    BusFactorWith(stats, 4, 5)
  }

  /** With a threshold of at most one the whole list always covers it, so
      the bus factor is exactly the smallest covering prefix. */
  lemma WholeListCovers(stats: seq<ContributorStats>, num: int, den: nat)
    requires den > 0 && num <= den
    ensures Covers(stats, |stats|, num, den)
  {
    assert stats[..|stats|] == stats;
    TotalNonNegative(stats);
    var t := Total(stats, CommitCountOf);
    assert den * t - num * t == (den - num) * t;
  }

  /** Cross-multiplied ratio comparison is monotone in the threshold. */
  lemma CoversWeaker(stats: seq<ContributorStats>, n: nat, num1: int, den1: nat, num2: int, den2: nat)
    requires n <= |stats| && den1 > 0 && den2 > 0
    requires num1 * den2 <= num2 * den1
    requires Covers(stats, n, num2, den2)
    ensures Covers(stats, n, num1, den1)
  {
    TotalNonNegative(stats);
    RatioWeaker(Total(stats[..n], CommitCountOf), Total(stats, CommitCountOf), num1, den1, num2, den2);
  }

  /** `c / t >= num2 / den2` implies `c / t >= num1 / den1` when the first
      threshold is at most the second. */
  lemma RatioWeaker(c: int, t: int, num1: int, den1: int, num2: int, den2: int)
    requires t >= 0 && den1 > 0 && den2 > 0
    requires num1 * den2 <= num2 * den1
    requires den2 * c >= num2 * t
    ensures den1 * c >= num1 * t
  {
    MulMono(den1, den2 * c, num2 * t);
    assert den1 * (den2 * c) == den2 * (den1 * c);
    assert den1 * (num2 * t) == (num2 * den1) * t;
    MulMono(t, num2 * den1, num1 * den2);
    assert t * (num2 * den1) == (num2 * den1) * t;
    assert t * (num1 * den2) == den2 * (num1 * t);
    CancelPositive(den2, den1 * c, num1 * t);
  }

  lemma MulMono(k: int, x: int, y: int)
    requires k >= 0 && x >= y
    ensures k * x >= k * y
  {
    assert k * x - k * y == k * (x - y);
  }

  lemma CancelPositive(k: int, x: int, y: int)
    requires k > 0 && k * x >= k * y
    ensures x >= y
  {
    assert k * (x - y) >= 0;
  }

  /** Raising the threshold never lowers the bus factor. */
  lemma BusFactorMonotone(stats: seq<ContributorStats>, num1: int, den1: nat, num2: int, den2: nat)
    requires den1 > 0 && den2 > 0
    requires num1 * den2 <= num2 * den1
    ensures BusFactorWith(stats, num1, den1) <= BusFactorWith(stats, num2, den2)
  {
    var n1 := BusFactorWith(stats, num1, den1);
    var n2 := BusFactorWith(stats, num2, den2);
    if 0 < n2 < |stats| {
      CoversWeaker(stats, n2, num1, den1, num2, den2);
    }
  }

  /** Ten commits split 5, 3, 1, 1: the first two contributors hold 80%. */
  lemma BusFactorExample(a: ContributorStats, b: ContributorStats, c: ContributorStats, d: ContributorStats)
    requires a.commitCount == 5 && b.commitCount == 3 && c.commitCount == 1 && d.commitCount == 1
    ensures BusFactor([a, b, c, d]) == 2
  {
    var s := [a, b, c, d];
    assert s[1..] == [b, c, d] && [b, c, d][1..] == [c, d] && [c, d][1..] == [d] && [d][1..] == [];
    assert [a, b][1..] == [b] && [a][1..] == [];
    assert Total([d], CommitCountOf) == 1;
    assert Total([c, d], CommitCountOf) == 2;
    assert Total([b, c, d], CommitCountOf) == 5;
    assert Total(s, CommitCountOf) == 10;
    assert s[..1] == [a] && s[..2] == [a, b];
    assert Total(s[..1], CommitCountOf) == 5;
    assert Total(s[..2], CommitCountOf) == 8;
    assert !Covers(s, 1, 4, 5) && Covers(s, 2, 4, 5);
  }
}

