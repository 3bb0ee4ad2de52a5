/**
 * The record types the analyses consume and produce: commits, pull
 * requests, issues, per-contributor statistics and code findings, with the
 * few behaviours the records carry themselves (the derived short hash, the
 * contributor identity rule, the severity label and the per-severity
 * finding count). Timestamps are integers; optional values are Options.
 */
module Models {

  import opened Wrappers
  import opened Strings
  import opened Seqs
  import opened Tally

  /** An analysis window. */
  datatype Timeframe = Timeframe(since: int, until: int)

  datatype Commit = Commit(
    sha: string,
    shortSha: string,
    message: string,
    authorName: string,
    authorEmail: string,
    authorLogin: Option<string>,
    date: int,
    url: string,
    additions: nat,
    deletions: nat,
    filesChanged: seq<string>)

  /** Length of the abbreviated commit hash. */
  const ShortShaLength: nat := 7

  /** Builds a commit the way the record's post-construction hook does: an
      empty short hash is replaced by the first seven characters of the
      full hash (all of it when shorter); a given short hash is kept. */
  function NewCommit(
    sha: string, shortSha: string, message: string, authorName: string,
    authorEmail: string, authorLogin: Option<string>, date: int, url: string,
    additions: nat, deletions: nat, filesChanged: seq<string>): (c: Commit)
    ensures shortSha != "" ==> c.shortSha == shortSha
    ensures shortSha == "" ==> StartsWith(sha, c.shortSha) && |c.shortSha| == Min(ShortShaLength, |sha|)
    ensures c.sha == sha && c.message == message && c.authorName == authorName
    ensures c.authorEmail == authorEmail && c.authorLogin == authorLogin && c.date == date
    ensures c.url == url && c.additions == additions && c.deletions == deletions
    ensures c.filesChanged == filesChanged
  {
    var short := if shortSha == "" then Take(sha, ShortShaLength) else shortSha;
    Commit(sha, short, message, authorName, authorEmail, authorLogin, date, url,
           additions, deletions, filesChanged)
  }

  /** Re-building a commit from its own fields changes nothing: the short
      hash hook is idempotent, and when the full hash is non-empty the short
      hash is never empty. */
  lemma NewCommitIdempotent(c: Commit)
    requires c.shortSha != ""
    ensures NewCommit(c.sha, c.shortSha, c.message, c.authorName, c.authorEmail,
                      c.authorLogin, c.date, c.url, c.additions, c.deletions,
                      c.filesChanged) == c
  {
  }

  /** The two constructions pinned down by the record tests. */
  lemma ShortShaExamples()
    ensures NewCommit("abc123def456", "", "feat: new feature", "Dev", "", None, 0, "",
                      0, 0, []).shortSha == "abc123d"
    ensures NewCommit("1234567890abcdef", "", "test", "Dev", "", None, 0, "",
                      0, 0, []).shortSha == "1234567"
  {
  }

  /** The contributor key of a commit: the platform login, else the email,
      else the display name; an empty string counts as missing. */
  function Identity(c: Commit): (key: string)
    ensures key == "" <==>
      (c.authorLogin.None? || c.authorLogin.value == "") && c.authorEmail == "" && c.authorName == ""
    ensures key in {c.authorLogin.GetOr(""), c.authorEmail, c.authorName}
  {
    if c.authorLogin.Some? && c.authorLogin.value != "" then c.authorLogin.value
    else if c.authorEmail != "" then c.authorEmail
    else c.authorName
  }

  /** Two commits with the same non-empty login share their key, however
      their email and display name differ. */
  lemma IdentityConsistent(a: Commit, b: Commit)
    requires a.authorLogin == b.authorLogin && a.authorLogin.Some? && a.authorLogin.value != ""
    ensures Identity(a) == Identity(b) == a.authorLogin.value
  {
  }

  /** Without a login the email decides, and without either the name. */
  lemma IdentityFallback(c: Commit)
    requires c.authorLogin.None? || c.authorLogin.value == ""
    ensures c.authorEmail != "" ==> Identity(c) == c.authorEmail
    ensures c.authorEmail == "" ==> Identity(c) == c.authorName
  {
  }

  datatype PullRequest = PullRequest(
    number: int,
    title: string,
    body: Option<string>,
    author: string,
    createdAt: int,
    mergedAt: Option<int>,
    closedAt: Option<int>,
    url: string,
    labels: seq<string>,
    additions: nat,
    deletions: nat,
    changedFiles: nat,
    reviewComments: nat)

  /** A pull request counts as merged when it has a merge time. */
  predicate IsMerged(pr: PullRequest) { pr.mergedAt.Some? }

  datatype Issue = Issue(
    number: int,
    title: string,
    body: Option<string>,
    author: string,
    state: string,
    createdAt: int,
    closedAt: Option<int>,
    url: string,
    labels: seq<string>)

  /** An issue counts as closed when it has a close time. */
  predicate IsClosed(issue: Issue) { issue.closedAt.Some? }

  datatype ContributorStats = ContributorStats(
    login: string,
    name: string,
    email: string,
    commitCount: nat,
    linesAdded: nat,
    linesRemoved: nat,
    prsOpened: nat,
    prsMerged: nat,
    issuesOpened: nat,
    issuesClosed: nat,
    filesTouched: seq<string>,
    topDirectories: seq<string>,
    firstCommitDate: Option<int>,
    lastCommitDate: Option<int>)

  /** Statistics for a contributor before any record has been counted. */
  predicate IsFresh(s: ContributorStats) {
    && s.commitCount == 0 && s.linesAdded == 0 && s.linesRemoved == 0
    && s.prsOpened == 0 && s.prsMerged == 0 && s.issuesOpened == 0 && s.issuesClosed == 0
    && s.filesTouched == [] && s.topDirectories == []
    && s.firstCommitDate.None? && s.lastCommitDate.None?
  }

  /** `ContributorStats(login=..., name=..., email=...)`: every counter at its
      default of zero, no files, no directories, no dates. */
  function NewStats(login: string, name: string, email: string): (s: ContributorStats)
    ensures IsFresh(s)
    ensures s.login == login && s.name == name && s.email == email
  {
    ContributorStats(login, name, email, 0, 0, 0, 0, 0, 0, 0, [], [], None, None)
  }

  function LoginOf(s: ContributorStats): string { s.login }

  /** Commit count as an integer key, for sorting and summing. */
  function CommitCountOf(s: ContributorStats): int { s.commitCount }

  // ---------------------------------------------------------------------
  // Code findings
  // ---------------------------------------------------------------------

  datatype Severity = Critical | High | Medium | Low | Info

  /** The severity's string value. */
  function SeverityValue(sev: Severity): string {
    match sev
    case Critical => "critical"
    case High => "high"
    case Medium => "medium"
    case Low => "low"
    case Info => "info"
  }

  /** The coloured-circle icon shown before a severity. */
  function SeverityIcon(sev: Severity): char {
    match sev
    case Critical => '\U{1F534}'
    case High => '\U{1F7E0}'
    case Medium => '\U{1F7E1}'
    case Low => '\U{1F535}'
    case Info => '\U{26AA}'
  }

  datatype CodeFinding = CodeFinding(
    id: string,
    folder: string,
    file: string,
    line: Option<int>,
    category: string,
    severity: Severity,
    title: string,
    description: string,
    suggestion: string)

  /** The icon, a space, and the upper-cased severity value. */
  function DisplaySeverity(f: CodeFinding): (r: string)
    ensures |r| == 2 + |SeverityValue(f.severity)|
    ensures r[0] == SeverityIcon(f.severity) && r[1] == ' '
    ensures r[2..] == Upper(SeverityValue(f.severity))
  {
    [SeverityIcon(f.severity)] + " " + Upper(SeverityValue(f.severity))
  }

  /** The label determines the severity: distinct severities never share a label. */
  lemma DisplaySeverityInjective(f: CodeFinding, g: CodeFinding)
    requires DisplaySeverity(f) == DisplaySeverity(g)
    ensures f.severity == g.severity
  {
    assert DisplaySeverity(f)[0] == DisplaySeverity(g)[0];
  }

  /** The critical label is the red circle followed by "CRITICAL". */
  lemma DisplaySeverityCritical(f: CodeFinding)
    requires f.severity == Critical
    ensures DisplaySeverity(f) == "\U{1F534} CRITICAL"
  {
  }

  datatype FolderAnalysis = FolderAnalysis(
    path: string,
    fileCount: nat,
    totalLines: nat,
    languages: seq<string>,
    findings: seq<CodeFinding>,
    llmNotes: string)

  /** The severity values of the findings, in order. */
  function SeverityValues(findings: seq<CodeFinding>): (vs: seq<string>)
    ensures |vs| == |findings|
    ensures forall i :: 0 <= i < |findings| ==> vs[i] == SeverityValue(findings[i].severity)
  {
    seq(|findings|, i requires 0 <= i < |findings| => SeverityValue(findings[i].severity))
  }

  /** Number of findings per severity value, keyed in first-seen order. The
      keys are severities of some finding, each count is how many findings
      carry that severity, and the counts add up to the number of findings. */
  function FindingCountBySeverity(fa: FolderAnalysis): (c: Counter<string>)
    ensures Valid(c)
    ensures forall i :: 0 <= i < |c.keys| ==>
      exists j :: 0 <= j < |fa.findings| && c.keys[i] == SeverityValue(fa.findings[j].severity)
    ensures forall k :: k in c.counts ==> c.counts[k] == Occurrences(SeverityValues(fa.findings), k)
    ensures Total(c) == |fa.findings|
  {
    var vs := SeverityValues(fa.findings);
    CountSpec(vs);
    Count(vs)
  }
}
