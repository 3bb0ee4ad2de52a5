/**
 * The what-if simulator: what happens when a contributor leaves (their
 * commits, pull requests and issues are dropped and the statistics and bus
 * factor recomputed; the files only they touched become orphans) and what
 * a module deprecation touches (its files and the people who worked on
 * them).
 */
module WhatIf {

  import opened Strings
  import opened Seqs
  import opened Models
  import People
  import Sorting
  import BusMitigation

  /** At most this many files are listed per scenario. */
  const FileLimit: nat := 30

  /** Scenarios are built for this many contributors and folders. */
  const ScenarioCount: nat := 3

  /** One simulation. The free-text impact summary is not modelled. */
  datatype WhatIfScenario = WhatIfScenario(
    scenario: string,
    parameter: string,
    busFactorBefore: int,
    busFactorAfter: int,
    orphanedFiles: seq<string>,
    affectedAreas: seq<string>)

  // ---------------------------------------------------------------------
  // Dropping a contributor's records
  // ---------------------------------------------------------------------

  /** The commits whose identity is not `login`, in order. */
  function CommitsWithout(commits: seq<Commit>, login: string): (r: seq<Commit>)
    ensures forall c :: c in r <==> c in commits && Identity(c) != login
    decreases |commits|
  {
    if |commits| == 0 then []
    else
      var p := commits[..|commits| - 1];
      var c := commits[|commits| - 1];
      assert commits == p + [c];
      if Identity(c) != login then CommitsWithout(p, login) + [c] else CommitsWithout(p, login)
  }

  /** The pull requests not opened by `login`, in order. */
  function PrsWithout(prs: seq<PullRequest>, login: string): (r: seq<PullRequest>)
    ensures forall p :: p in r <==> p in prs && p.author != login
    decreases |prs|
  {
    if |prs| == 0 then []
    else
      var q := prs[..|prs| - 1];
      var p := prs[|prs| - 1];
      assert prs == q + [p];
      if p.author != login then PrsWithout(q, login) + [p] else PrsWithout(q, login)
  }

  /** The issues not opened by `login`, in order. */
  function IssuesWithout(issues: seq<Issue>, login: string): (r: seq<Issue>)
    ensures forall i :: i in r <==> i in issues && i.author != login
    decreases |issues|
  {
    if |issues| == 0 then []
    else
      var q := issues[..|issues| - 1];
      var i := issues[|issues| - 1];
      assert issues == q + [i];
      if i.author != login then IssuesWithout(q, login) + [i] else IssuesWithout(q, login)
  }

  lemma {:induction false} CommitsByWithout(commits: seq<Commit>, login: string, key: string)
    requires key != login
    ensures People.CommitsBy(CommitsWithout(commits, login), key) == People.CommitsBy(commits, key)
    decreases |commits|
  {
    if |commits| > 0 {
      var p := commits[..|commits| - 1];
      var c := commits[|commits| - 1];
      CommitsByWithout(p, login, key);
      var w := CommitsWithout(p, login);
      if Identity(c) != login {
        assert (w + [c])[..|w|] == w;
      }
    }
  }

  lemma {:induction false} PrsOpenedWithout(prs: seq<PullRequest>, login: string, key: string)
    requires key != login
    ensures People.PrsOpenedBy(PrsWithout(prs, login), key) == People.PrsOpenedBy(prs, key)
    decreases |prs|
  {
    if |prs| > 0 {
      var q := prs[..|prs| - 1];
      var p := prs[|prs| - 1];
      PrsOpenedWithout(q, login, key);
      var w := PrsWithout(q, login);
      if p.author != login {
        var v := w + [p];
        assert PrsWithout(prs, login) == v;
        assert v[..|v| - 1] == w && v[|v| - 1] == p;
      } else {
        assert PrsWithout(prs, login) == w;
      }
    }
  }

  lemma {:induction false} PrsMergedWithout(prs: seq<PullRequest>, login: string, key: string)
    requires key != login
    ensures People.PrsMergedBy(PrsWithout(prs, login), key) == People.PrsMergedBy(prs, key)
    decreases |prs|
  {
    if |prs| > 0 {
      var q := prs[..|prs| - 1];
      var p := prs[|prs| - 1];
      PrsMergedWithout(q, login, key);
      var w := PrsWithout(q, login);
      if p.author != login {
        var v := w + [p];
        assert PrsWithout(prs, login) == v;
        assert v[..|v| - 1] == w && v[|v| - 1] == p;
      } else {
        assert PrsWithout(prs, login) == w;
      }
    }
  }

  lemma {:induction false} IssuesOpenedWithout(issues: seq<Issue>, login: string, key: string)
    requires key != login
    ensures People.IssuesOpenedBy(IssuesWithout(issues, login), key) == People.IssuesOpenedBy(issues, key)
    decreases |issues|
  {
    if |issues| > 0 {
      var q := issues[..|issues| - 1];
      var i := issues[|issues| - 1];
      IssuesOpenedWithout(q, login, key);
      var w := IssuesWithout(q, login);
      if i.author != login {
        var v := w + [i];
        assert IssuesWithout(issues, login) == v;
        assert v[..|v| - 1] == w && v[|v| - 1] == i;
      } else {
        assert IssuesWithout(issues, login) == w;
      }
    }
  }

  lemma {:induction false} IssuesClosedWithout(issues: seq<Issue>, login: string, key: string)
    requires key != login
    ensures People.IssuesClosedBy(IssuesWithout(issues, login), key) == People.IssuesClosedBy(issues, key)
    decreases |issues|
  {
    if |issues| > 0 {
      var q := issues[..|issues| - 1];
      var i := issues[|issues| - 1];
      IssuesClosedWithout(q, login, key);
      var w := IssuesWithout(q, login);
      if i.author != login {
        var v := w + [i];
        assert IssuesWithout(issues, login) == v;
        assert v[..|v| - 1] == w && v[|v| - 1] == i;
      } else {
        assert IssuesWithout(issues, login) == w;
      }
    }
  }

  /** Dropping one contributor leaves everybody else's statistics as they were. */
  lemma ReferenceWithout(commits: seq<Commit>, prs: seq<PullRequest>, issues: seq<Issue>, login: string, key: string)
    requires key != login
    ensures People.Reference(CommitsWithout(commits, login), PrsWithout(prs, login), IssuesWithout(issues, login), key)
         == People.Reference(commits, prs, issues, key)
  {
    CommitsByWithout(commits, login, key);
    PrsOpenedWithout(prs, login, key);
    PrsMergedWithout(prs, login, key);
    IssuesOpenedWithout(issues, login, key);
    IssuesClosedWithout(issues, login, key);
  }

  /** Filtering out the records whose key is `login` removes exactly that key. */
  lemma MapWithout<T>(s: seq<T>, r: seq<T>, f: T -> string, login: string, key: string)
    requires forall x :: x in r <==> x in s && f(x) != login
    ensures key in Map(r, f) <==> key in Map(s, f) && key != login
  {
    if key in Map(r, f) {
      var k :| 0 <= k < |r| && Map(r, f)[k] == key;
      assert r[k] in s;
      var j :| 0 <= j < |s| && s[j] == r[k];
      assert Map(s, f)[j] == key;
    }
    if key in Map(s, f) && key != login {
      var j :| 0 <= j < |s| && Map(s, f)[j] == key;
      assert s[j] in r;
      var k :| 0 <= k < |r| && r[k] == s[j];
      assert Map(r, f)[k] == key;
    }
  }

  /** The keys left after the drop are exactly the old keys other than `login`. */
  lemma KeysWithout(commits: seq<Commit>, prs: seq<PullRequest>, issues: seq<Issue>, login: string, key: string)
    ensures key in People.AllKeys(CommitsWithout(commits, login), PrsWithout(prs, login), IssuesWithout(issues, login))
        <==> key in People.AllKeys(commits, prs, issues) && key != login
  {
    MapWithout(commits, CommitsWithout(commits, login), Identity, login, key);
    MapWithout(prs, PrsWithout(prs, login), People.PrAuthor, login, key);
    MapWithout(issues, IssuesWithout(issues, login), People.IssueAuthor, login, key);
  }

  /** After the drop, the recomputed statistics list every other contributor
      with unchanged numbers, and the departed contributor not at all. */
  lemma RemovalStats(commits: seq<Commit>, prs: seq<PullRequest>, issues: seq<Issue>, login: string)
    ensures var s := People.ComputeContributorStats(CommitsWithout(commits, login), PrsWithout(prs, login), IssuesWithout(issues, login));
      && (forall i :: 0 <= i < |s| ==> s[i].login != login && s[i] == People.Reference(commits, prs, issues, s[i].login))
      && (forall i :: 0 <= i < |s| ==> s[i].login in People.AllKeys(commits, prs, issues))
      && (forall key :: key in People.AllKeys(commits, prs, issues) && key != login ==> key in Map(s, LoginOf))
  {
    var cs, ps, iss := CommitsWithout(commits, login), PrsWithout(prs, login), IssuesWithout(issues, login);
    var s := People.ComputeContributorStats(cs, ps, iss);
    forall i | 0 <= i < |s|
      ensures s[i].login != login && s[i] == People.Reference(commits, prs, issues, s[i].login)
      ensures s[i].login in People.AllKeys(commits, prs, issues)
    {
      KeysWithout(commits, prs, issues, login, s[i].login);
      ReferenceWithout(commits, prs, issues, login, s[i].login);
    }
    forall key | key in People.AllKeys(commits, prs, issues) && key != login
      ensures key in Map(s, LoginOf)
    {
      KeysWithout(commits, prs, issues, login, key);
    }
  }

  /** The test `key != login` on a contributor key. */
  function OtherKey(login: string): string -> bool {
    (k: string) => k != login
  }

  /** The test `s.login != login` on a contributor's statistics. */
  function OtherContributor(login: string): ContributorStats -> bool {
    (s: ContributorStats) => s.login != login
  }

  lemma {:induction false} CommitsWithoutKeys(commits: seq<Commit>, login: string)
    ensures Map(CommitsWithout(commits, login), Identity) == Filter(Map(commits, Identity), OtherKey(login))
    decreases |commits|
  {
    if |commits| > 0 {
      var p := commits[..|commits| - 1];
      var c := commits[|commits| - 1];
      CommitsWithoutKeys(p, login);
      MapLast(commits, Identity);
      FilterSnoc(Map(p, Identity), Identity(c), OtherKey(login));
      if Identity(c) != login {
        MapAppend(CommitsWithout(p, login), c, Identity);
      } else {
        assert Filter(Map(p, Identity), OtherKey(login)) + [] == Filter(Map(p, Identity), OtherKey(login));
      }
    }
  }

  lemma {:induction false} PrsWithoutKeys(prs: seq<PullRequest>, login: string)
    ensures Map(PrsWithout(prs, login), People.PrAuthor) == Filter(Map(prs, People.PrAuthor), OtherKey(login))
    decreases |prs|
  {
    if |prs| > 0 {
      var q := prs[..|prs| - 1];
      var p := prs[|prs| - 1];
      PrsWithoutKeys(q, login);
      MapLast(prs, People.PrAuthor);
      FilterSnoc(Map(q, People.PrAuthor), p.author, OtherKey(login));
      if p.author != login {
        MapAppend(PrsWithout(q, login), p, People.PrAuthor);
      } else {
        assert Filter(Map(q, People.PrAuthor), OtherKey(login)) + [] == Filter(Map(q, People.PrAuthor), OtherKey(login));
      }
    }
  }

  lemma {:induction false} IssuesWithoutKeys(issues: seq<Issue>, login: string)
    ensures Map(IssuesWithout(issues, login), People.IssueAuthor) == Filter(Map(issues, People.IssueAuthor), OtherKey(login))
    decreases |issues|
  {
    if |issues| > 0 {
      var q := issues[..|issues| - 1];
      var i := issues[|issues| - 1];
      IssuesWithoutKeys(q, login);
      MapLast(issues, People.IssueAuthor);
      FilterSnoc(Map(q, People.IssueAuthor), i.author, OtherKey(login));
      if i.author != login {
        MapAppend(IssuesWithout(q, login), i, People.IssueAuthor);
      } else {
        assert Filter(Map(q, People.IssueAuthor), OtherKey(login)) + [] == Filter(Map(q, People.IssueAuthor), OtherKey(login));
      }
    }
  }

  /** The contributors left after the drop, in first-seen order, are the
      old ones without `login`. */
  lemma ContributorKeysWithout(commits: seq<Commit>, prs: seq<PullRequest>, issues: seq<Issue>, login: string)
    ensures People.ContributorKeys(CommitsWithout(commits, login), PrsWithout(prs, login), IssuesWithout(issues, login))
         == Filter(People.ContributorKeys(commits, prs, issues), OtherKey(login))
  {
    var mc, mp, mi := Map(commits, Identity), Map(prs, People.PrAuthor), Map(issues, People.IssueAuthor);
    CommitsWithoutKeys(commits, login);
    PrsWithoutKeys(prs, login);
    IssuesWithoutKeys(issues, login);
    FilterAppend(mc, mp, OtherKey(login));
    FilterAppend(mc + mp, mi, OtherKey(login));
    DedupFilter(People.AllKeys(commits, prs, issues), OtherKey(login));
  }

  /** The per-contributor statistics after the drop are the old ones without `login`'s. */
  lemma ReferencesWithout(commits: seq<Commit>, prs: seq<PullRequest>, issues: seq<Issue>, login: string)
    ensures People.References(CommitsWithout(commits, login), PrsWithout(prs, login), IssuesWithout(issues, login))
         == Filter(People.References(commits, prs, issues), OtherContributor(login))
  {
    var cs, ps, iss := CommitsWithout(commits, login), PrsWithout(prs, login), IssuesWithout(issues, login);
    var keys := People.ContributorKeys(commits, prs, issues);
    var kept := People.ContributorKeys(cs, ps, iss);
    var before := (k: string) => People.Reference(commits, prs, issues, k);
    ContributorKeysWithout(commits, prs, issues, login);
    assert People.References(commits, prs, issues) == Map(keys, before);
    MapFilter(keys, OtherKey(login), before, OtherContributor(login));
    forall j | 0 <= j < |kept|
      ensures People.References(cs, ps, iss)[j] == Map(kept, before)[j]
    {
      InFilter(keys, OtherKey(login), kept[j]);
      ReferenceWithout(commits, prs, issues, login, kept[j]);
    }
  }

  /** Recomputing the statistics without `login`'s records gives the old
      ranking with `login` struck out, everyone else in the same order. */
  lemma RemovalDropsOne(commits: seq<Commit>, prs: seq<PullRequest>, issues: seq<Issue>, login: string)
    ensures People.ComputeContributorStats(CommitsWithout(commits, login), PrsWithout(prs, login), IssuesWithout(issues, login))
         == Filter(People.ComputeContributorStats(commits, prs, issues), OtherContributor(login))
  {
    ReferencesWithout(commits, prs, issues, login);
    Sorting.SortFilter(People.References(commits, prs, issues), CommitCountOf, OtherContributor(login));
  }

  // ---------------------------------------------------------------------
  // Orphaned files and affected areas
  // ---------------------------------------------------------------------

  /** Every file changed by a commit whose identity is (`mine`) or is not
      (`!mine`) `login`, repeats kept. */
  function FilesBy(commits: seq<Commit>, login: string, mine: bool): (files: seq<string>)
    ensures forall fp :: fp in files <==>
      exists c :: c in commits && (Identity(c) == login) == mine && fp in c.filesChanged
    decreases |commits|
  {
    if |commits| == 0 then []
    else
      var p := commits[..|commits| - 1];
      var c := commits[|commits| - 1];
      assert commits == p + [c];
      if (Identity(c) == login) == mine then FilesBy(p, login, mine) + c.filesChanged else FilesBy(p, login, mine)
  }

  /** `sorted(contributor_files - other_files)`: exactly the files `login`
      owns alone, in increasing order. */
  function Orphaned(commits: seq<Commit>, login: string): (files: seq<string>)
    ensures StrictlySorted(files)
    ensures forall fp :: fp in files <==> BusMitigation.SoleOwner(commits, fp, login)
  {
    SortedSet(Minus(FilesBy(commits, login, true), FilesBy(commits, login, false)))
  }

  /** The folder a path names before its first "/". */
  function TopLevel(fp: string): string
    requires '/' in fp
  {
    fp[..IndexOf(fp, '/')]
  }

  /** `parts[0]` of every path with more than one "/"-separated part. */
  function TopLevelDirs(files: seq<string>): (dirs: seq<string>)
    ensures forall d :: d in dirs <==> exists fp :: fp in files && '/' in fp && d == TopLevel(fp)
    decreases |files|
  {
    if |files| == 0 then []
    else
      var p := files[..|files| - 1];
      var fp := files[|files| - 1];
      assert files == p + [fp];
      var parts := Split(fp, '/');
      SplitHead(fp, '/');
      if |parts| > 1 then TopLevelDirs(p) + [parts[0]] else TopLevelDirs(p)
  }

  /** Nothing is left after the drop exactly when every commit was theirs. */
  lemma NoneLeft(commits: seq<Commit>, login: string)
    ensures |CommitsWithout(commits, login)| == 0 <==> forall c :: c in commits ==> Identity(c) == login
  {
    var cs := CommitsWithout(commits, login);
    assert |cs| == 0 || cs[0] in cs;
  }

  /** The orphans of a removal are the exclusive files the bus-mitigation
      report lists for the same contributor, up to its shorter limit. */
  lemma OrphansAreExclusive(commits: seq<Commit>, login: string)
    ensures Take(Orphaned(commits, login), BusMitigation.ExclusiveLimit) == BusMitigation.ExclusiveFiles(commits, login)
  {
    var sole := SortedSet(BusMitigation.SoleOwned(BusMitigation.FileOwners(BusMitigation.Touches(commits)), login));
    forall fp ensures fp in sole <==> fp in Orphaned(commits, login) {
      BusMitigation.SoleOwnedSpec(commits, login, fp);
    }
    SortedListingUnique(sole, Orphaned(commits, login));
  }

  /** The orphans listed: the first thirty sole-owned files in order. */
  lemma ShownOrphans(commits: seq<Commit>, login: string)
    ensures var shown := Take(Orphaned(commits, login), FileLimit);
      && StrictlySorted(shown) && |shown| <= FileLimit
      && (forall fp :: fp in shown ==> BusMitigation.SoleOwner(commits, fp, login))
      && (forall fp :: BusMitigation.SoleOwner(commits, fp, login) && fp !in shown ==>
            |shown| == FileLimit && forall k :: 0 <= k < FileLimit ==> Less(shown[k], fp))
  {
    var orphaned := Orphaned(commits, login);
    var shown := Take(orphaned, FileLimit);
    TakeSorted(orphaned, FileLimit);
    forall fp | BusMitigation.SoleOwner(commits, fp, login) && fp !in shown
      ensures |shown| == FileLimit && forall k :: 0 <= k < FileLimit ==> Less(shown[k], fp)
    {
      TakeLeftOut(orphaned, FileLimit, fp);
    }
  }

  /** Removing a contributor: the statistics and bus factor without their
      records, at most thirty of the files only they touched, and the
      top-level folders of all those files. */
  function SimulateRemoveContributor(login: string, commits: seq<Commit>, prs: seq<PullRequest>, issues: seq<Issue>,
                                     currentBusFactor: int): (r: WhatIfScenario)
    ensures r.scenario == "remove_contributor" && r.parameter == login && r.busFactorBefore == currentBusFactor
    ensures r.busFactorAfter == 0 <==> forall c :: c in commits ==> Identity(c) == login
    ensures StrictlySorted(r.orphanedFiles) && |r.orphanedFiles| <= FileLimit
    ensures forall fp :: fp in r.orphanedFiles ==> BusMitigation.SoleOwner(commits, fp, login)
    ensures forall fp :: BusMitigation.SoleOwner(commits, fp, login) && fp !in r.orphanedFiles ==>
      |r.orphanedFiles| == FileLimit && forall k :: 0 <= k < FileLimit ==> Less(r.orphanedFiles[k], fp)
    ensures StrictlySorted(r.affectedAreas)
    ensures forall d :: d in r.affectedAreas <==>
      exists fp :: BusMitigation.SoleOwner(commits, fp, login) && '/' in fp && d == TopLevel(fp)
  {
    ShownOrphans(commits, login);
    WhatIfScenario("remove_contributor", login, currentBusFactor, BusFactorAfter(login, commits, prs, issues),
                   Take(Orphaned(commits, login), FileLimit), AffectedAreas(commits, login))
  }

  /** The scenario's new bus factor is the bus factor of the statistics
      recomputed without `login`'s records, which is that of the old
      ranking with `login` struck out. */
  lemma RemovalBusFactor(login: string, commits: seq<Commit>, prs: seq<PullRequest>, issues: seq<Issue>, currentBusFactor: int)
    ensures var r := SimulateRemoveContributor(login, commits, prs, issues, currentBusFactor);
      && r.busFactorAfter == People.BusFactor(
           People.ComputeContributorStats(CommitsWithout(commits, login), PrsWithout(prs, login), IssuesWithout(issues, login)))
      && r.busFactorAfter == People.BusFactor(Filter(People.ComputeContributorStats(commits, prs, issues), OtherContributor(login)))
  {
    RemovalDropsOne(commits, prs, issues, login);
  }

  /** The bus factor once `login`'s records are gone: 0 exactly when
      nobody else committed. */
  function BusFactorAfter(login: string, commits: seq<Commit>, prs: seq<PullRequest>, issues: seq<Issue>): (n: nat)
    ensures n == 0 <==> forall c :: c in commits ==> Identity(c) == login
  {
    NoneLeft(commits, login);
    People.BusFactor(People.ComputeContributorStats(CommitsWithout(commits, login), PrsWithout(prs, login), IssuesWithout(issues, login)))
  }

  /** The top-level folders of the files only `login` touched, sorted. */
  function AffectedAreas(commits: seq<Commit>, login: string): (dirs: seq<string>)
    ensures StrictlySorted(dirs)
    ensures forall d :: d in dirs <==>
      exists fp :: BusMitigation.SoleOwner(commits, fp, login) && '/' in fp && d == TopLevel(fp)
  {
    SortedSet(TopLevelDirs(Orphaned(commits, login)))
  }

  // ---------------------------------------------------------------------
  // Deprecating a module
  // ---------------------------------------------------------------------

  /** The module test as written: `fp.startswith(dir + "/") or
      fp.startswith(dir)`. */
  predicate InModule(fp: string, dir: string) {
    StartsWith(fp, dir + "/") || StartsWith(fp, dir)
  }

  /** The first alternative implies the second, so the test is a plain
      prefix test: a module "src" also claims "srcgen/x.py". */
  lemma InModuleIsPrefix(fp: string, dir: string)
    ensures InModule(fp, dir) <==> StartsWith(fp, dir)
  {
    if StartsWith(fp, dir + "/") {
      assert fp[..|dir|] == (fp[..|dir| + 1])[..|dir|];
    }
  }

  lemma InModuleSibling()
    ensures InModule("srcgen/x.py", "src")
  {
    assert "srcgen/x.py"[..3] == "src";
  }

  /** Files in the module `dir` and the identities that changed them, repeats kept. */
  function ModuleFiles(commits: seq<Commit>, dir: string): (files: seq<string>)
    ensures forall fp :: fp in files <==> InModule(fp, dir) && exists c :: c in commits && fp in c.filesChanged
    decreases |commits|
  {
    if |commits| == 0 then []
    else
      var p := commits[..|commits| - 1];
      var c := commits[|commits| - 1];
      assert commits == p + [c];
      ModuleFiles(p, dir) + InModuleOf(c.filesChanged, dir)
  }

  function ModuleAuthors(commits: seq<Commit>, dir: string): (authors: seq<string>)
    ensures forall a :: a in authors <==>
      exists c :: c in commits && Identity(c) == a && exists fp :: fp in c.filesChanged && InModule(fp, dir)
    decreases |commits|
  {
    if |commits| == 0 then []
    else
      var p := commits[..|commits| - 1];
      var c := commits[|commits| - 1];
      assert commits == p + [c];
      var hits := InModuleOf(c.filesChanged, dir);
      assert |hits| > 0 <==> exists fp :: fp in c.filesChanged && InModule(fp, dir) by {
        assert |hits| == 0 || hits[0] in hits;
      }
      if |hits| > 0 then ModuleAuthors(p, dir) + [Identity(c)] else ModuleAuthors(p, dir)
  }

  /** The files of one commit that are in `dir`. */
  function InModuleOf(files: seq<string>, dir: string): (r: seq<string>)
    ensures forall fp :: fp in r <==> fp in files && InModule(fp, dir)
    decreases |files|
  {
    if |files| == 0 then []
    else
      var p := files[..|files| - 1];
      assert files == p + [files[|files| - 1]];
      if InModule(files[|files| - 1], dir) then InModuleOf(p, dir) + [files[|files| - 1]] else InModuleOf(p, dir)
  }

  /** Deprecating a module: at most thirty of its files and every identity
      that changed one of them; the bus factor is not recomputed. */
  function SimulateDeprecateModule(dir: string, commits: seq<Commit>): (r: WhatIfScenario)
    ensures r.scenario == "deprecate_module" && r.parameter == dir
    ensures r.busFactorBefore == 0 && r.busFactorAfter == 0
    ensures StrictlySorted(r.orphanedFiles) && |r.orphanedFiles| <= FileLimit
    ensures forall fp :: fp in r.orphanedFiles ==> StartsWith(fp, dir) && exists c :: c in commits && fp in c.filesChanged
    ensures forall c, fp :: c in commits && fp in c.filesChanged && StartsWith(fp, dir) && fp !in r.orphanedFiles ==>
      |r.orphanedFiles| == FileLimit && forall k :: 0 <= k < FileLimit ==> Less(r.orphanedFiles[k], fp)
    ensures StrictlySorted(r.affectedAreas)
    ensures forall a :: a in r.affectedAreas <==>
      exists c :: c in commits && Identity(c) == a && exists fp :: fp in c.filesChanged && StartsWith(fp, dir)
  {
    var all := SortedSet(ModuleFiles(commits, dir));
    var shown := Take(all, FileLimit);
    TakeSorted(all, FileLimit);
    forall fp ensures InModule(fp, dir) <==> StartsWith(fp, dir) {
      InModuleIsPrefix(fp, dir);
    }
    forall c, fp | c in commits && fp in c.filesChanged && StartsWith(fp, dir) && fp !in shown
      ensures |shown| == FileLimit && forall k :: 0 <= k < FileLimit ==> Less(shown[k], fp)
    {
      assert fp in all;
      TakeLeftOut(all, FileLimit, fp);
    }
    WhatIfScenario("deprecate_module", dir, 0, 0, shown, SortedSet(ModuleAuthors(commits, dir)))
  }

  // ---------------------------------------------------------------------
  // Report
  // ---------------------------------------------------------------------

  /** Removal scenarios for the first three contributors, then deprecation
      scenarios for the first three folders. */
  function BuildWhatIfReport(stats: seq<ContributorStats>, commits: seq<Commit>, prs: seq<PullRequest>, issues: seq<Issue>,
                             busFactor: int, topDirs: seq<string>): (scenarios: seq<WhatIfScenario>)
    ensures |scenarios| == Min(ScenarioCount, |stats|) + Min(ScenarioCount, |topDirs|)
    ensures forall i :: 0 <= i < Min(ScenarioCount, |stats|) ==>
      scenarios[i] == SimulateRemoveContributor(stats[i].login, commits, prs, issues, busFactor)
    ensures forall j :: 0 <= j < Min(ScenarioCount, |topDirs|) ==>
      scenarios[Min(ScenarioCount, |stats|) + j] == SimulateDeprecateModule(topDirs[j], commits)
  {
    var removals := Map(Take(stats, ScenarioCount), (s: ContributorStats) => SimulateRemoveContributor(s.login, commits, prs, issues, busFactor));
    var deprecations := Map(Take(topDirs, ScenarioCount), (d: string) => SimulateDeprecateModule(d, commits));
    removals + deprecations
  }
}
