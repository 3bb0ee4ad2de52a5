/**
 * The commit journal: merged pull requests and notable commits become
 * changelog entries, each classified by an ordered keyword rule table,
 * near-duplicates are dropped, and the entries are rendered as markdown
 * grouped by category in a fixed order.
 */
module Changelog {

  import opened Wrappers
  import opened Strings
  import opened Seqs
  import opened Models

  // ---------------------------------------------------------------------
  // Categories and the rule table
  // ---------------------------------------------------------------------

  datatype Category = Feat | Fix | Docs | Refactor | Test | Chore | Perf | Ci | Style

  function CategoryName(c: Category): string {
    match c
    case Feat => "feat"
    case Fix => "fix"
    case Docs => "docs"
    case Refactor => "refactor"
    case Test => "test"
    case Chore => "chore"
    case Perf => "perf"
    case Ci => "ci"
    case Style => "style"
  }

  /** A classification rule: it fires on a lower-cased text that starts
      with one of its prefixes or contains one of its keywords. */
  datatype Rule = Rule(category: Category, prefixes: seq<string>, keywords: seq<string>)

  predicate AnyPrefix(lower: string, ps: seq<string>)
    decreases |ps|
  {
    |ps| > 0 && (StartsWith(lower, ps[0]) || AnyPrefix(lower, ps[1..]))
  }

  predicate AnyKeyword(lower: string, ks: seq<string>)
    decreases |ks|
  {
    |ks| > 0 && (Contains(lower, ks[0]) || AnyKeyword(lower, ks[1..]))
  }

  predicate Fires(r: Rule, lower: string) {
    AnyPrefix(lower, r.prefixes) || AnyKeyword(lower, r.keywords)
  }

  const FeatRule: Rule := Rule(Feat, ["feat"], ["feature", "add ", "new "])
  const FixRule: Rule := Rule(Fix, ["fix"], ["bug", "patch", "repair"])
  const DocsRule: Rule := Rule(Docs, ["docs"], ["readme", "documentation"])
  const RefactorRule: Rule := Rule(Refactor, ["refactor"], ["cleanup", "clean up"])
  const TestRule: Rule := Rule(Test, ["test"], ["spec"])
  const ChoreRule: Rule := Rule(Chore, ["chore"], ["bump", "update dep", "upgrade"])
  const PerfRule: Rule := Rule(Perf, [], ["perf", "speed", "optim"])
  const CiRule: Rule := Rule(Ci, [], ["ci", "pipeline", "workflow", "action"])
  const StyleRule: Rule := Rule(Style, [], ["style", "format", "lint"])

  /** The rules in the order they are tried. */
  const Rules: seq<Rule> := [FeatRule, FixRule, DocsRule, RefactorRule, TestRule, ChoreRule, PerfRule, CiRule, StyleRule]

  /** The category of the first rule that fires; "chore" when none does. */
  function FirstMatch(rules: seq<Rule>, lower: string): (c: Category)
    ensures (exists i :: 0 <= i < |rules| && Fires(rules[i], lower)) || c == Chore
    decreases |rules|
  {
    if |rules| == 0 then Chore
    else if Fires(rules[0], lower) then rules[0].category
    else
      var c := FirstMatch(rules[1..], lower);
      assert forall i :: 0 <= i < |rules[1..]| ==> rules[1..][i] == rules[i + 1];
      c
  }

  /** Rule `i` is the first of `rules` to fire on `lower`. */
  predicate FirstFiring(rules: seq<Rule>, i: int, lower: string) {
    0 <= i < |rules| && Fires(rules[i], lower) && forall j :: 0 <= j < i ==> !Fires(rules[j], lower)
  }

  /** `_infer_category`: the rules tried one after another on the
      lower-cased text. The result is the category of the first rule of
      the table that fires, or "chore". */
  function InferCategory(text: string): (c: Category)
    ensures c == FirstMatch(Rules, Lower(text))
    ensures forall i :: FirstFiring(Rules, i, Lower(text)) ==> c == Rules[i].category
  {
    var lower := Lower(text);
    FirstMatchIsFirst(Rules, lower);
    RulesUnfold(lower);
    if Fires(FeatRule, lower) then Feat
    else if Fires(FixRule, lower) then Fix
    else if Fires(DocsRule, lower) then Docs
    else if Fires(RefactorRule, lower) then Refactor
    else if Fires(TestRule, lower) then Test
    else if Fires(ChoreRule, lower) then Chore
    else if Fires(PerfRule, lower) then Perf
    else if Fires(CiRule, lower) then Ci
    else if Fires(StyleRule, lower) then Style
    else Chore
  }

  /** FirstMatch returns the category of the earliest firing rule. */
  lemma {:induction false} FirstMatchIsFirst(rules: seq<Rule>, lower: string)
    ensures forall i :: FirstFiring(rules, i, lower) ==> FirstMatch(rules, lower) == rules[i].category
    decreases |rules|
  {
    if |rules| > 0 {
      FirstMatchIsFirst(rules[1..], lower);
      forall i | FirstFiring(rules, i, lower)
        ensures FirstMatch(rules, lower) == rules[i].category
      {
        if i > 0 {
          assert !Fires(rules[0], lower);
          assert rules[1..][i - 1] == rules[i];
          assert forall j :: 0 <= j < i - 1 ==> rules[1..][j] == rules[j + 1];
          assert FirstFiring(rules[1..], i - 1, lower);
        }
      }
    }
  }

  lemma FirstMatchStep(rules: seq<Rule>, lower: string)
    requires |rules| > 0
    ensures FirstMatch(rules, lower) == if Fires(rules[0], lower) then rules[0].category else FirstMatch(rules[1..], lower)
  {
  }

  /** The table unrolled: FirstMatch over Rules is the chain of tests. */
  lemma RulesUnfold(lower: string)
    ensures FirstMatch(Rules, lower) ==
      if Fires(FeatRule, lower) then Feat
      else if Fires(FixRule, lower) then Fix
      else if Fires(DocsRule, lower) then Docs
      else if Fires(RefactorRule, lower) then Refactor
      else if Fires(TestRule, lower) then Test
      else if Fires(ChoreRule, lower) then Chore
      else if Fires(PerfRule, lower) then Perf
      else if Fires(CiRule, lower) then Ci
      else if Fires(StyleRule, lower) then Style
      else Chore
  {
    var r := Rules;
    forall k | 0 <= k < 9 ensures r[k..][1..] == r[k + 1..] {
    }
    FirstMatchStep(r[0..], lower);
    FirstMatchStep(r[1..], lower);
    FirstMatchStep(r[2..], lower);
    FirstMatchStep(r[3..], lower);
    FirstMatchStep(r[4..], lower);
    FirstMatchStep(r[5..], lower);
    FirstMatchStep(r[6..], lower);
    FirstMatchStep(r[7..], lower);
    FirstMatchStep(r[8..], lower);
    assert r[9..] == [];
    assert r[0..] == r;
  }

  // ---------------------------------------------------------------------
  // Entries
  // ---------------------------------------------------------------------

  /** A changelog entry. `scope` is never filled in by the analysis. */
  datatype ChangelogEntry = ChangelogEntry(
    category: Category,
    scope: string,
    description: string,
    author: string,
    prNumber: Option<int>,
    sha: string)

  /** The entry of a merged pull request. */
  function PrEntry(pr: PullRequest): ChangelogEntry {
    ChangelogEntry(InferCategory(pr.title), "", pr.title, pr.author, Some(pr.number), "")
  }

  function EntryNumber(e: ChangelogEntry): Option<int> { e.prNumber }

  /** The merged pull requests in order, each number taken at its first
      merged occurrence. */
  function PrEntries(prs: seq<PullRequest>): (es: seq<ChangelogEntry>)
    ensures DistinctBy(es, EntryNumber)
    ensures forall e :: e in es ==> exists pr :: pr in prs && IsMerged(pr) && e == PrEntry(pr)
    ensures forall pr :: pr in prs && IsMerged(pr) ==> Some(pr.number) in Map(es, EntryNumber)
    decreases |prs|
  {
    if |prs| == 0 then []
    else
      var p := prs[..|prs| - 1];
      var pr := prs[|prs| - 1];
      var es := PrEntries(p);
      assert prs == p + [pr];
      if IsMerged(pr) && Some(pr.number) !in Map(es, EntryNumber) then
        var r := es + [PrEntry(pr)];
        assert Map(r, EntryNumber) == Map(es, EntryNumber) + [Some(pr.number)];
        r
      else es
  }

  /** The first line of a commit message, stripped. */
  function Headline(c: Commit): string {
    Strip(Split(c.message, '\n')[0])
  }

  /** Merge commits and headlines under ten characters are skipped; the
      second prefix test of the source is implied by the first. */
  predicate Notable(headline: string) {
    !StartsWith(headline, "Merge ") && !StartsWith(headline, "Merge pull request") && |headline| >= 10
  }

  /** The commit is not skipped. */
  predicate IsNotable(c: Commit) {
    Notable(Headline(c))
  }

  /** `c.author_login or c.author_name`. */
  function CommitAuthor(c: Commit): string {
    if c.authorLogin.Some? && c.authorLogin.value != "" then c.authorLogin.value else c.authorName
  }

  function CommitEntry(c: Commit): ChangelogEntry {
    var msg := Headline(c);
    ChangelogEntry(InferCategory(msg), "", msg, CommitAuthor(c), None, c.shortSha)
  }

  /** The entries of the notable commits, in order. */
  function CommitEntries(commits: seq<Commit>): (es: seq<ChangelogEntry>)
    ensures |es| <= |commits|
    ensures forall e :: e in es <==> exists c :: c in commits && IsNotable(c) && e == CommitEntry(c)
  {
    KeepMap(commits, IsNotable, CommitEntry)
  }

  /** `[f(x) for x in s if keep(x)]`. */
  function KeepMap<T(!new), U(!new)>(s: seq<T>, keep: T -> bool, f: T -> U): (r: seq<U>)
    ensures |r| <= |s|
    ensures forall e :: e in r <==> exists x :: x in s && keep(x) && e == f(x)
    decreases |s|
  {
    if |s| == 0 then []
    else
      var p := s[..|s| - 1];
      var c := s[|s| - 1];
      var r := KeepMap(p, keep, f);
      var t := r + if keep(c) then [f(c)] else [];
      KeepMapStep(s, p, c, r, t, keep, f);
      t
  }

  /** The membership contract of KeepMap survives one more element. */
  lemma KeepMapStep<T, U>(all: seq<T>, p: seq<T>, c: T, r: seq<U>, s: seq<U>, keep: T -> bool, f: T -> U)
    requires all == p + [c]
    requires s == r + if keep(c) then [f(c)] else []
    requires forall e :: e in r <==> exists x :: x in p && keep(x) && e == f(x)
    ensures forall e :: e in s <==> exists x :: x in all && keep(x) && e == f(x)
  {
    forall e | e in s
      ensures exists x :: x in all && keep(x) && e == f(x)
    {
      if e !in r {
        assert c in all;
      }
    }
    forall e | exists x :: x in all && keep(x) && e == f(x)
      ensures e in s
    {
      var x :| x in all && keep(x) && e == f(x);
      if x != c {
        assert x in p;
      }
    }
  }

  /** The comprehension keeps the input order: it maps the kept elements. */
  lemma {:induction false} KeepMapInOrder<T(!new), U(!new)>(s: seq<T>, keep: T -> bool, f: T -> U)
    ensures KeepMap(s, keep, f) == Map(Filter(s, keep), f)
    decreases |s|
  {
    if |s| > 0 {
      var p := s[..|s| - 1];
      var c := s[|s| - 1];
      calc {
        KeepMap(s, keep, f);
        KeepMap(p, keep, f) + if keep(c) then [f(c)] else [];
      == { KeepMapInOrder(p, keep, f); }
        Map(Filter(p, keep), f) + if keep(c) then [f(c)] else [];
      == { MapFilterSnoc(p, c, keep, f); }
        Map(Filter(p + [c], keep), f);
      == { assert s == p + [c]; }
        Map(Filter(s, keep), f);
      }
    }
  }

  /** The commit entries are those of the notable commits, in commit order,
      one per commit. */
  lemma CommitEntriesInOrder(commits: seq<Commit>)
    ensures CommitEntries(commits) == Map(Filter(commits, IsNotable), CommitEntry)
  {
    KeepMapInOrder(commits, IsNotable, CommitEntry);
  }

  /** The pull-request entries are the merged pull requests' entries in
      order, each number kept at its first occurrence. */
  lemma {:induction false} PrEntriesInOrder(prs: seq<PullRequest>)
    ensures PrEntries(prs) == DedupBy(Map(Filter(prs, IsMerged), PrEntry), EntryNumber)
    decreases |prs|
  {
    if |prs| > 0 {
      var p := prs[..|prs| - 1];
      var pr := prs[|prs| - 1];
      var merged := Map(Filter(p, IsMerged), PrEntry);
      var es := PrEntries(p);
      calc {
        PrEntries(prs);
      == { PrEntriesLast(prs); }
        if IsMerged(pr) && Some(pr.number) !in Map(es, EntryNumber) then es + [PrEntry(pr)] else es;
      == { PrEntriesInOrder(p); }
        if IsMerged(pr) && Some(pr.number) !in Map(DedupBy(merged, EntryNumber), EntryNumber)
        then DedupBy(merged, EntryNumber) + [PrEntry(pr)] else DedupBy(merged, EntryNumber);
      == { DedupBySnoc(merged, PrEntry(pr), EntryNumber); assert merged + [] == merged; }
        DedupBy(merged + if IsMerged(pr) then [PrEntry(pr)] else [], EntryNumber);
      == { MapFilterSnoc(p, pr, IsMerged, PrEntry); }
        DedupBy(Map(Filter(p + [pr], IsMerged), PrEntry), EntryNumber);
      == { assert prs == p + [pr]; }
        DedupBy(Map(Filter(prs, IsMerged), PrEntry), EntryNumber);
      }
    }
  }

  /** One step of the pull-request loop. */
  lemma PrEntriesLast(prs: seq<PullRequest>)
    requires |prs| > 0
    ensures var es := PrEntries(prs[..|prs| - 1]);
      var pr := prs[|prs| - 1];
      PrEntries(prs) == if IsMerged(pr) && Some(pr.number) !in Map(es, EntryNumber) then es + [PrEntry(pr)] else es
  {
  }

  /** The "Merge pull request" test adds nothing to the "Merge " test. */
  lemma MergePrefixRedundant(headline: string)
    ensures StartsWith(headline, "Merge pull request") ==> StartsWith(headline, "Merge ")
  {
    assert StartsWith("Merge pull request", "Merge ");
    if StartsWith(headline, "Merge pull request") {
      StartsWithTransitive(headline, "Merge pull request", "Merge ");
    }
  }

  // ---------------------------------------------------------------------
  // Near-duplicate removal
  // ---------------------------------------------------------------------

  const KeyLength: nat := 60

  /** `description.lower().strip()[:60]`. */
  function DedupKey(e: ChangelogEntry): string {
    Take(Strip(Lower(e.description)), KeyLength)
  }

  /** Position `i` holds the first occurrence of its value. */
  predicate IsFirst<K(==)>(ks: seq<K>, i: nat)
    requires i < |ks|
  {
    ks[i] !in ks[..i]
  }

  /** The positions of `ks` holding the first occurrence of their value. */
  function FirstPositions<K(==)>(ks: seq<K>): (idx: seq<nat>)
    ensures forall j :: 0 <= j < |idx| ==> idx[j] < |ks|
    ensures forall j, k :: 0 <= j < k < |idx| ==> idx[j] < idx[k]
    ensures forall i :: 0 <= i < |ks| ==> (i in idx <==> IsFirst(ks, i))
    decreases |ks|
  {
    if |ks| == 0 then []
    else
      var idx := FirstPositions(ks[..|ks| - 1]);
      FirstPositionsStep(ks, ks[..|ks| - 1], idx);
      if ks[|ks| - 1] in ks[..|ks| - 1] then idx else idx + [|ks| - 1]
  }

  /** The contract of FirstPositions survives one more element. */
  lemma FirstPositionsStep<K>(ks: seq<K>, p: seq<K>, idx: seq<nat>)
    requires |ks| > 0 && p == ks[..|ks| - 1]
    requires forall j :: 0 <= j < |idx| ==> idx[j] < |p|
    requires forall j, k :: 0 <= j < k < |idx| ==> idx[j] < idx[k]
    requires forall i :: 0 <= i < |p| ==> (i in idx <==> IsFirst(p, i))
    ensures var r := if ks[|ks| - 1] in p then idx else idx + [|ks| - 1];
      && (forall j :: 0 <= j < |r| ==> r[j] < |ks|)
      && (forall j, k :: 0 <= j < k < |r| ==> r[j] < r[k])
      && (forall i :: 0 <= i < |ks| ==> (i in r <==> IsFirst(ks, i)))
  {
    var n := |ks| - 1;
    var r := if ks[n] in p then idx else idx + [n];
    assert ks[..n] == p;
    forall i | 0 <= i < n
      ensures i in r <==> IsFirst(ks, i)
    {
      assert p[..i] == ks[..i] && p[i] == ks[i];
      assert IsFirst(ks, i) == IsFirst(p, i);
      assert i in r <==> i in idx by {
        if ks[n] !in p {
          assert r == idx + [n];
        }
      }
    }
    if ks[n] in p {
      assert forall j :: 0 <= j < |idx| ==> idx[j] != n;
      assert !IsFirst(ks, n);
    } else {
      assert r[|idx|] == n;
      assert IsFirst(ks, n);
    }
  }

  lemma FirstPositionsAppend<K>(ks: seq<K>, x: K)
    ensures FirstPositions(ks + [x]) == if x in ks then FirstPositions(ks) else FirstPositions(ks) + [|ks|]
  {
    assert (ks + [x])[..|ks|] == ks;
  }

  /** Appending one element: the kept prefix grows by it exactly when
      its key is new. */
  lemma DedupStep<T, K>(es: seq<T>, key: T -> K, d: seq<T>)
    requires |es| > 0
    requires |d| == |FirstPositions(Map(es[..|es| - 1], key))|
    requires forall j :: 0 <= j < |d| ==> d[j] == es[..|es| - 1][FirstPositions(Map(es[..|es| - 1], key))[j]]
    ensures var r := if key(es[|es| - 1]) in Map(d, key) then d else d + [es[|es| - 1]];
      |r| == |FirstPositions(Map(es, key))|
    ensures var r := if key(es[|es| - 1]) in Map(d, key) then d else d + [es[|es| - 1]];
      forall j :: 0 <= j < |r| ==> r[j] == es[FirstPositions(Map(es, key))[j]]
  {
    var p := es[..|es| - 1];
    var e := es[|es| - 1];
    var idx := FirstPositions(Map(p, key));
    var fs := FirstPositions(Map(es, key));
    MapLast(es, key);
    SeenKeys(p, d, key, idx, key(e));
    FirstPositionsAppend(Map(p, key), key(e));
    forall j | 0 <= j < |d|
      ensures d[j] == es[idx[j]]
    {
      assert idx[j] < |p|;
      assert es[idx[j]] == p[idx[j]];
    }
    if key(e) in Map(p, key) {
      assert fs == idx;
    } else {
      assert fs == idx + [|p|];
      var r := d + [e];
      forall j | 0 <= j < |r|
        ensures r[j] == es[fs[j]]
      {
        if j < |d| {
          assert r[j] == d[j] && fs[j] == idx[j];
        } else {
          assert fs[j] == |p|;
        }
      }
    }
  }

  /** One pass keeping an element when its key is not among the keys kept
      so far. The result is the subsequence of `es` at the first
      occurrence of each key. */
  function DedupBy<T, K(==)>(es: seq<T>, key: T -> K): (r: seq<T>)
    ensures |r| == |FirstPositions(Map(es, key))|
    ensures forall j :: 0 <= j < |r| ==> r[j] == es[FirstPositions(Map(es, key))[j]]
    decreases |es|
  {
    if |es| == 0 then []
    else
      var d := DedupBy(es[..|es| - 1], key);
      DedupStep(es, key, d);
      if key(es[|es| - 1]) in Map(d, key) then d else d + [es[|es| - 1]]
  }

  /** One more element is kept exactly when its key is new. */
  lemma DedupBySnoc<T, K>(es: seq<T>, x: T, key: T -> K)
    ensures DedupBy(es + [x], key) ==
      if key(x) in Map(DedupBy(es, key), key) then DedupBy(es, key) else DedupBy(es, key) + [x]
  {
    assert (es + [x])[..|es|] == es;
  }

  /** The keys kept so far are the keys seen so far. */
  lemma SeenKeys<T, K>(p: seq<T>, d: seq<T>, key: T -> K, idx: seq<nat>, x: K)
    requires idx == FirstPositions(Map(p, key))
    requires |d| == |idx| && forall j :: 0 <= j < |d| ==> d[j] == p[idx[j]]
    ensures x in Map(d, key) <==> x in Map(p, key)
  {
    var ks := Map(p, key);
    if x in Map(d, key) {
      var j :| 0 <= j < |d| && Map(d, key)[j] == x;
      assert ks[idx[j]] == x;
    }
    if x in ks {
      var i := FirstIndex(ks, x);
      assert i in idx;
      var j :| 0 <= j < |idx| && idx[j] == i;
      assert Map(d, key)[j] == x;
    }
  }

  /** No two kept elements share a key. */
  lemma DedupByKeysDistinct<T, K>(es: seq<T>, key: T -> K)
    ensures DistinctBy(DedupBy(es, key), key)
  {
    var r := DedupBy(es, key);
    var ks := Map(es, key);
    var idx := FirstPositions(ks);
    forall j, k | 0 <= j < k < |r| ensures key(r[j]) != key(r[k]) {
      assert idx[k] in idx;
      assert ks[idx[j]] == ks[..idx[k]][idx[j]];
    }
  }

  /** Every key of the input is kept. */
  lemma DedupByCovers<T, K>(es: seq<T>, key: T -> K)
    ensures forall i :: 0 <= i < |es| ==> key(es[i]) in Map(DedupBy(es, key), key)
  {
    forall i | 0 <= i < |es| ensures key(es[i]) in Map(DedupBy(es, key), key) {
      SeenKeys(es, DedupBy(es, key), key, FirstPositions(Map(es, key)), key(es[i]));
    }
  }

  /** Elements whose keys are already distinct are all kept. */
  lemma {:induction false} DedupByDistinct<T, K>(es: seq<T>, key: T -> K)
    requires DistinctBy(es, key)
    ensures DedupBy(es, key) == es
    decreases |es|
  {
    if |es| > 0 {
      var p := es[..|es| - 1];
      var e := es[|es| - 1];
      assert DistinctBy(p, key);
      DedupByDistinct(p, key);
      assert key(e) !in Map(p, key);
      SeenKeys(p, p, key, FirstPositions(Map(p, key)), key(e));
    }
  }

  /** `_deduplicate`: the entries at the first occurrence of each key, in
      order; no two share a key and every key of the input is kept. */
  function Deduplicate(es: seq<ChangelogEntry>): (r: seq<ChangelogEntry>)
    ensures |r| == |FirstPositions(Map(es, DedupKey))|
    ensures forall j :: 0 <= j < |r| ==> r[j] == es[FirstPositions(Map(es, DedupKey))[j]]
    ensures DistinctBy(r, DedupKey)
    ensures forall i :: 0 <= i < |es| ==> DedupKey(es[i]) in Map(r, DedupKey)
  {
    DedupByKeysDistinct(es, DedupKey);
    DedupByCovers(es, DedupKey);
    DedupBy(es, DedupKey)
  }

  /** Removing near-duplicates twice is removing them once. */
  lemma DeduplicateIdempotent(es: seq<ChangelogEntry>)
    ensures Deduplicate(Deduplicate(es)) == Deduplicate(es)
  {
    DedupByDistinct(Deduplicate(es), DedupKey);
  }

  // ---------------------------------------------------------------------
  // The report and its markdown
  // ---------------------------------------------------------------------

  datatype ChangelogReport = ChangelogReport(entries: seq<ChangelogEntry>, markdown: string)

  /** `build_changelog`: merged pull requests first, then notable commits,
      near-duplicates dropped; the markdown is filled in by rendering. */
  function BuildChangelog(commits: seq<Commit>, prs: seq<PullRequest>): (report: ChangelogReport)
    ensures report.markdown == ""
    ensures report.entries == Deduplicate(PrEntries(prs) + CommitEntries(commits))
    ensures DistinctBy(report.entries, DedupKey)
    ensures forall e :: e in report.entries ==>
      (exists pr :: pr in prs && IsMerged(pr) && e == PrEntry(pr)) ||
      (exists c :: c in commits && Notable(Headline(c)) && e == CommitEntry(c))
    ensures forall e :: e in PrEntries(prs) + CommitEntries(commits) ==> DedupKey(e) in Map(report.entries, DedupKey)
    ensures forall j, k :: 0 <= j < k < |report.entries| && report.entries[j].prNumber.None? ==> report.entries[k].prNumber.None?
  {
    var ps := PrEntries(prs);
    var cs := CommitEntries(commits);
    var r := Deduplicate(ps + cs);
    BuildOrder(ps, cs, r);
    BuildProvenance(commits, prs, r);
    ChangelogReport(r, "")
  }

  /** The report's entries against an order-explicit reference: the merged
      pull requests' entries (first occurrence per number), then the notable
      commits' entries, both in input order, near-duplicates dropped. */
  lemma BuildChangelogEntries(commits: seq<Commit>, prs: seq<PullRequest>)
    ensures BuildChangelog(commits, prs).entries ==
      Deduplicate(DedupBy(Map(Filter(prs, IsMerged), PrEntry), EntryNumber) + Map(Filter(commits, IsNotable), CommitEntry))
  {
    PrEntriesInOrder(prs);
    CommitEntriesInOrder(commits);
  }

  /** Every kept entry is a merged pull request's or a notable commit's. */
  lemma BuildProvenance(commits: seq<Commit>, prs: seq<PullRequest>, r: seq<ChangelogEntry>)
    requires r == Deduplicate(PrEntries(prs) + CommitEntries(commits))
    ensures forall e :: e in r ==>
      (exists pr :: pr in prs && IsMerged(pr) && e == PrEntry(pr)) ||
      (exists c :: c in commits && Notable(Headline(c)) && e == CommitEntry(c))
  {
    var ps := PrEntries(prs);
    var cs := CommitEntries(commits);
    DeduplicateKeepsInput(ps + cs);
    forall e | e in r
      ensures (exists pr :: pr in prs && IsMerged(pr) && e == PrEntry(pr)) ||
              (exists c :: c in commits && Notable(Headline(c)) && e == CommitEntry(c))
    {
      assert e in ps + cs;
      if e in ps {
        var pr :| pr in prs && IsMerged(pr) && e == PrEntry(pr);
      } else {
        assert e in cs;
        var c :| c in commits && Notable(Headline(c)) && e == CommitEntry(c);
      }
    }
  }

  /** Removing near-duplicates only drops entries. */
  lemma DeduplicateKeepsInput(es: seq<ChangelogEntry>)
    ensures forall e :: e in Deduplicate(es) ==> e in es
  {
    var r := Deduplicate(es);
    var idx := FirstPositions(Map(es, DedupKey));
    forall e | e in r ensures e in es {
      var j :| 0 <= j < |r| && r[j] == e;
      assert e == es[idx[j]];
    }
  }

  /** Entries taken in increasing positions of `ps + cs`, where the `ps`
      carry a number and the `cs` do not: no numbered entry follows an
      unnumbered one. */
  lemma BuildOrder(ps: seq<ChangelogEntry>, cs: seq<ChangelogEntry>, r: seq<ChangelogEntry>)
    requires forall e :: e in ps ==> e.prNumber.Some?
    requires forall e :: e in cs ==> e.prNumber.None?
    requires r == Deduplicate(ps + cs)
    ensures forall j, k :: 0 <= j < k < |r| && r[j].prNumber.None? ==> r[k].prNumber.None?
  {
    var all := ps + cs;
    var idx := FirstPositions(Map(all, DedupKey));
    forall j, k | 0 <= j < k < |r| && r[j].prNumber.None? ensures r[k].prNumber.None? {
      assert r[j] == all[idx[j]];
      assert idx[j] >= |ps|;
      assert idx[j] < idx[k];
      assert all[idx[k]] in cs;
    }
  }

  /** The heading label of each category, with the code points exactly as
      they stand in the source text (emoji decoded byte by byte). */
  function Label(c: Category): string {
    match c
    case Feat => "\U{e2}\U{153}\U{a8} Features"
    case Fix => "\U{11f}\U{178}\U{203a} Bug Fixes"
    case Docs => "\U{11f}\U{178}\U{201c}\U{161} Documentation"
    case Refactor => "\U{e2}\U{2122}\U{bb}\U{ef}\U{b8} Refactoring"
    case Test => "\U{11f}\U{178}\U{a7}\U{aa} Tests"
    case Chore => "\U{11f}\U{178}\U{201d}\U{a7} Chores"
    case Perf => "\U{e2}\U{161}\U{a1} Performance"
    case Ci => "\U{11f}\U{178}\U{201d}\U{201e} CI/CD"
    case Style => "\U{11f}\U{178}\U{2019}\U{2026} Style"
  }

  const Header: string := "# Changelog\n"

  /** The order in which the category sections are written. */
  const Order: seq<Category> := [Feat, Fix, Refactor, Perf, Docs, Test, Ci, Chore, Style]

  function Heading(c: Category): string { "## " + Label(c) + "\n" }

  /** ` (#n)` for a non-zero pull request number, else ` (sha)` when there
      is one. */
  function Reference(e: ChangelogEntry): string {
    if e.prNumber.Some? && e.prNumber.value != 0 then " (#" + IntToString(e.prNumber.value) + ")"
    else if e.sha != "" then " (" + e.sha + ")"
    else ""
  }

  function Byline(e: ChangelogEntry): string {
    if e.author != "" then " \U{e2}\U{20ac}\U{201d} @" + e.author else ""
  }

  function EntryLine(e: ChangelogEntry): string {
    "- " + e.description + Reference(e) + Byline(e)
  }

  /** The entries of one category, in report order. */
  function ItemsOf(es: seq<ChangelogEntry>, c: Category): (r: seq<ChangelogEntry>)
    ensures forall e :: multiset(r)[e] == if e.category == c then multiset(es)[e] else 0
    ensures forall e :: e in r <==> e in es && e.category == c
    decreases |es|
  {
    if |es| == 0 then []
    else
      var p := es[..|es| - 1];
      var e := es[|es| - 1];
      assert es == p + [e];
      ItemsOf(p, c) + if e.category == c then [e] else []
  }

  /** A category's lines: nothing when it has no entries, else its
      heading, one line per entry and a blank line. */
  function Section(es: seq<ChangelogEntry>, c: Category): seq<string> {
    var items := ItemsOf(es, c);
    if |items| == 0 then [] else [Heading(c)] + Map(items, EntryLine) + [""]
  }

  function Sections(es: seq<ChangelogEntry>, cats: seq<Category>): seq<string>
    decreases |cats|
  {
    if |cats| == 0 then [] else Section(es, cats[0]) + Sections(es, cats[1..])
  }

  function MarkdownLines(es: seq<ChangelogEntry>): seq<string> {
    [Header] + Sections(es, Order)
  }

  /** `render_changelog_markdown`: the lines joined by newlines; the
      report gets the markdown and is otherwise unchanged. */
  function RenderChangelog(report: ChangelogReport): (out: (string, ChangelogReport))
    ensures StartsWith(out.0, Header)
    ensures out.0 == Join(MarkdownLines(report.entries), "\n")
    ensures out.1 == report.(markdown := out.0)
  {
    var lines := MarkdownLines(report.entries);
    JoinStartsWithHead(lines, "\n");
    var md := Join(lines, "\n");
    (md, report.(markdown := md))
  }

  /** A join begins with its first piece. */
  lemma JoinStartsWithHead(parts: seq<string>, sep: string)
    requires |parts| >= 1
    ensures StartsWith(Join(parts, sep), parts[0])
  {
    if |parts| > 1 {
      assert Join(parts, sep) == parts[0] + (sep + Join(parts[1..], sep));
    }
  }

  // ---------------------------------------------------------------------
  // What the markdown holds
  // ---------------------------------------------------------------------

  predicate IsHeadingLine(line: string) { StartsWith(line, "## ") }

  predicate IsEntryLine(line: string) { StartsWith(line, "- ") }

  /** The entries in the order they are written: category by category. */
  function Grouped(es: seq<ChangelogEntry>, cats: seq<Category>): seq<ChangelogEntry>
    decreases |cats|
  {
    if |cats| == 0 then [] else ItemsOf(es, cats[0]) + Grouped(es, cats[1..])
  }

  /** The categories of `cats` that have at least one entry. */
  function Present(es: seq<ChangelogEntry>, cats: seq<Category>): seq<Category>
    decreases |cats|
  {
    if |cats| == 0 then []
    else (if |ItemsOf(es, cats[0])| > 0 then [cats[0]] else []) + Present(es, cats[1..])
  }

  /** The kinds of line: a heading, an entry line, or neither. */
  lemma LineKinds(e: ChangelogEntry, c: Category)
    ensures IsHeadingLine(Heading(c)) && !IsEntryLine(Heading(c))
    ensures IsEntryLine(EntryLine(e)) && !IsHeadingLine(EntryLine(e))
    ensures !IsHeadingLine("") && !IsEntryLine("")
    ensures !IsHeadingLine(Header) && !IsEntryLine(Header)
  {
    assert Heading(c)[..3] == "## ";
    assert Heading(c)[..2][0] == '#';
    assert EntryLine(e)[..2] == "- ";
    assert Header[..3][1] == ' ';
    assert Header[..2][0] == '#';
  }

  /** Entry lines pass the entry filter and none passes the heading filter. */
  lemma {:induction false} EntryLinesFilter(items: seq<ChangelogEntry>)
    ensures Filter(Map(items, EntryLine), IsEntryLine) == Map(items, EntryLine)
    ensures Filter(Map(items, EntryLine), IsHeadingLine) == []
    decreases |items|
  {
    if |items| > 0 {
      var c: Category :| true;
      LineKinds(items[0], c);
      EntryLinesFilter(items[1..]);
      assert Map(items, EntryLine)[1..] == Map(items[1..], EntryLine);
    }
  }

  /** A heading, lines that are all entry lines, and a blank line. */
  lemma SectionShape(h: string, lines: seq<string>)
    requires IsHeadingLine(h) && !IsEntryLine(h)
    requires Filter(lines, IsEntryLine) == lines && Filter(lines, IsHeadingLine) == []
    ensures Filter([h] + lines + [""], IsEntryLine) == lines
    ensures Filter([h] + lines + [""], IsHeadingLine) == [h]
  {
    FilterAppend([h] + lines, [""], IsEntryLine);
    FilterAppend([h], lines, IsEntryLine);
    FilterAppend([h] + lines, [""], IsHeadingLine);
    FilterAppend([h], lines, IsHeadingLine);
    FilterSingle("", IsEntryLine);
    FilterSingle("", IsHeadingLine);
    FilterSingle(h, IsEntryLine);
    FilterSingle(h, IsHeadingLine);
  }

  /** One category's section: its entry lines and, when present, its heading. */
  lemma SectionLines(es: seq<ChangelogEntry>, c: Category)
    ensures Filter(Section(es, c), IsEntryLine) == Map(ItemsOf(es, c), EntryLine)
    ensures Filter(Section(es, c), IsHeadingLine) == if |ItemsOf(es, c)| > 0 then [Heading(c)] else []
  {
    var items := ItemsOf(es, c);
    if |items| > 0 {
      var e: ChangelogEntry :| true;
      LineKinds(e, c);
      EntryLinesFilter(items);
      SectionShape(Heading(c), Map(items, EntryLine));
    }
  }

  /** The entry lines of the sections are the entries grouped by category. */
  lemma {:induction false} SectionsEntryLines(es: seq<ChangelogEntry>, cats: seq<Category>)
    ensures Filter(Sections(es, cats), IsEntryLine) == Map(Grouped(es, cats), EntryLine)
    decreases |cats|
  {
    if |cats| > 0 {
      SectionsEntryLines(es, cats[1..]);
      SectionLines(es, cats[0]);
      FilterAppend(Section(es, cats[0]), Sections(es, cats[1..]), IsEntryLine);
      MapConcat(ItemsOf(es, cats[0]), Grouped(es, cats[1..]), EntryLine);
    }
  }

  /** The headings of the sections are those of the present categories. */
  lemma {:induction false} SectionsHeadings(es: seq<ChangelogEntry>, cats: seq<Category>)
    ensures Filter(Sections(es, cats), IsHeadingLine) == Map(Present(es, cats), Heading)
    decreases |cats|
  {
    if |cats| > 0 {
      SectionsHeadings(es, cats[1..]);
      SectionLines(es, cats[0]);
      FilterAppend(Section(es, cats[0]), Sections(es, cats[1..]), IsHeadingLine);
      var first := if |ItemsOf(es, cats[0])| > 0 then [cats[0]] else [];
      MapConcat(first, Present(es, cats[1..]), Heading);
    }
  }

  /** Each entry is grouped once for every time its category is listed;
      over distinct categories, exactly once when listed. */
  lemma {:induction false} GroupedCounts(es: seq<ChangelogEntry>, cats: seq<Category>)
    requires Distinct(cats)
    ensures forall e :: multiset(Grouped(es, cats))[e] == if e.category in cats then multiset(es)[e] else 0
    decreases |cats|
  {
    if |cats| > 0 {
      assert Distinct(cats[1..]);
      GroupedCounts(es, cats[1..]);
      assert forall c :: c in cats <==> c == cats[0] || c in cats[1..];
      assert cats[0] !in cats[1..];
    }
  }

  /** A category is present exactly when some entry has it. */
  lemma {:induction false} PresentMembers(es: seq<ChangelogEntry>, cats: seq<Category>)
    ensures forall c :: c in Present(es, cats) <==> c in cats && exists e :: e in es && e.category == c
    decreases |cats|
  {
    if |cats| > 0 {
      PresentMembers(es, cats[1..]);
      assert forall c :: c in cats <==> c == cats[0] || c in cats[1..];
      if |ItemsOf(es, cats[0])| > 0 {
        assert ItemsOf(es, cats[0])[0] in ItemsOf(es, cats[0]);
      }
    }
  }

  lemma OrderComplete(c: Category)
    ensures c in Order
  {
    match c
    case Feat => assert Order[0] == c;
    case Fix => assert Order[1] == c;
    case Refactor => assert Order[2] == c;
    case Perf => assert Order[3] == c;
    case Docs => assert Order[4] == c;
    case Test => assert Order[5] == c;
    case Ci => assert Order[6] == c;
    case Chore => assert Order[7] == c;
    case Style => assert Order[8] == c;
  }

  lemma OrderDistinct()
    ensures Distinct(Order)
  {
  }

  /** Every entry is written exactly once. */
  lemma GroupedPermutation(es: seq<ChangelogEntry>)
    ensures multiset(Grouped(es, Order)) == multiset(es)
  {
    OrderDistinct();
    GroupedCounts(es, Order);
    forall x: ChangelogEntry ensures x.category in Order { OrderComplete(x.category); }
  }

  /** A category gets a heading exactly when some entry has it. */
  lemma PresentExactly(es: seq<ChangelogEntry>)
    ensures forall c :: c in Present(es, Order) <==> exists e :: e in es && e.category == c
  {
    PresentMembers(es, Order);
    forall c: Category ensures c in Order { OrderComplete(c); }
  }

  /** The title line is neither a heading nor an entry line. */
  lemma MarkdownFilters(es: seq<ChangelogEntry>)
    ensures Filter(MarkdownLines(es), IsEntryLine) == Filter(Sections(es, Order), IsEntryLine)
    ensures Filter(MarkdownLines(es), IsHeadingLine) == Filter(Sections(es, Order), IsHeadingLine)
  {
    var e: ChangelogEntry :| true;
    LineKinds(e, Feat);
    FilterAppend([Header], Sections(es, Order), IsEntryLine);
    FilterAppend([Header], Sections(es, Order), IsHeadingLine);
    FilterSingle(Header, IsEntryLine);
    FilterSingle(Header, IsHeadingLine);
  }

  /** The markdown's lines: the entry lines are the entries grouped by
      category in the fixed order, each entry exactly once; the headings
      are those of the categories that have entries, in that order. */
  lemma MarkdownContents(es: seq<ChangelogEntry>)
    ensures Filter(MarkdownLines(es), IsEntryLine) == Map(Grouped(es, Order), EntryLine)
    ensures multiset(Grouped(es, Order)) == multiset(es)
    ensures Filter(MarkdownLines(es), IsHeadingLine) == Map(Present(es, Order), Heading)
    ensures forall c :: c in Present(es, Order) <==> exists e :: e in es && e.category == c
  {
    MarkdownFilters(es);
    SectionsEntryLines(es, Order);
    SectionsHeadings(es, Order);
    GroupedPermutation(es);
    PresentExactly(es);
  }

  // ---------------------------------------------------------------------
  // Examples
  // ---------------------------------------------------------------------

  /** A conventional "feat" prefix classifies as a feature. */
  lemma ExampleFeature()
    ensures InferCategory("feat: add login") == Feat
  {
    var t := "feat: add login";
    LowerUnchanged(t);
    assert StartsWith(t, FeatRule.prefixes[0]);
    assert FirstFiring(Rules, 0, Lower(t));
  }

  /** A lower-case text starting with "fix" is a fix unless the feature
      rule fires, and it cannot fire without an 'a' or a 'w'. */
  lemma FixPrefixWins(t: string)
    requires Lower(t) == t
    requires StartsWith(t, "fix") && 'a' !in t && 'w' !in t
    ensures InferCategory(t) == Fix
  {
    assert !StartsWith(t, "feat") by { assert t[..3][1] == 'i'; }
    MissingCharNotContained(t, "feature", 2);
    MissingCharNotContained(t, "add ", 0);
    MissingCharNotContained(t, "new ", 2);
    var ks := FeatRule.keywords;
    assert ks[1..][1..][1..] == [];
    assert !Fires(FeatRule, t);
    assert StartsWith(t, FixRule.prefixes[0]);
    assert FirstFiring(Rules, 1, t);
  }

  lemma ExampleFix()
    ensures InferCategory("fix: null deref") == Fix
  {
    var t := "fix: null deref";
    LowerUnchanged(t);
    FixPrefixWins(t);
  }

  /** A pull request number of zero is not written; the sha is. */
  lemma ExampleZeroNumber()
    ensures Reference(ChangelogEntry(Fix, "", "x", "", Some(0), "abc1234")) == " (abc1234)"
    ensures Reference(ChangelogEntry(Fix, "", "x", "", Some(12), "abc1234")) == " (#12)"
  {
    assert NatToString(12) == "12";
  }

  /** Short and merge headlines are skipped. */
  lemma ExampleSkipped()
    ensures !Notable("bump deps")
    ensures !Notable("Merge branch 'main' into dev")
    ensures Notable("fix: null deref")
  {
    assert "Merge branch 'main' into dev"[..6] == "Merge ";
    assert "fix: null deref"[..6][0] != "Merge "[0];
  }
}
