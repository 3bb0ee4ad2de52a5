/**
 * Bus-factor mitigation: a risk level from the bus factor, the files that
 * only one contributor ever touched, and the "knowledge monopolists".
 *
 * The analysis fills an insertion-ordered dictionary from file path to the
 * set of identities that changed it (`FileOwners`, a fold over every
 * commit's changed files); a file is exclusive to a contributor when that
 * set is exactly that contributor. `SoleOwner` says the same thing
 * directly in terms of the commits, and `ExclusiveFiles` is proved to
 * agree with it.
 */
module BusMitigation {

  import opened Seqs
  import opened Strings
  import Sorting
  import opened Models

  // ---------------------------------------------------------------------
  // Risk level
  // ---------------------------------------------------------------------

  /** Rank of a risk level, 0 for "low" up to 3 for "critical". */
  function RiskRank(level: string): nat {
    if level == "critical" then 3
    else if level == "high" then 2
    else if level == "medium" then 1
    else 0
  }

  /** Bus factor 1 or less is critical, 2 high, 3 medium, more is low. */
  function RiskLevel(busFactor: int): (level: string)
    ensures level in {"critical", "high", "medium", "low"}
    ensures RiskRank(level) == if busFactor <= 0 then 3 else 3 - Min(busFactor - 1, 3)
  {
    if busFactor <= 1 then "critical"
    else if busFactor <= 2 then "high"
    else if busFactor <= 3 then "medium"
    else "low"
  }

  /** A larger bus factor never raises the risk. */
  lemma RiskMonotone(a: int, b: int)
    requires a <= b
    ensures RiskRank(RiskLevel(b)) <= RiskRank(RiskLevel(a))
  {
  }

  // ---------------------------------------------------------------------
  // Who touched which file
  // ---------------------------------------------------------------------

  /** One changed file of one commit, with the commit's identity. */
  datatype Touch = Touch(who: string, file: string)

  function FileOf(t: Touch): string { t.file }

  /** The touches of one commit, in the order of its changed files. */
  function TouchesOf(c: Commit): (ts: seq<Touch>)
    ensures |ts| == |c.filesChanged|
    ensures forall k :: 0 <= k < |ts| ==> ts[k] == Touch(Identity(c), c.filesChanged[k])
  {
    seq(|c.filesChanged|, k requires 0 <= k < |c.filesChanged| => Touch(Identity(c), c.filesChanged[k]))
  }

  /** Every touch of every commit, in loop order. */
  function Touches(commits: seq<Commit>): (ts: seq<Touch>)
    ensures forall t :: t in ts <==> exists c :: c in commits && t.who == Identity(c) && t.file in c.filesChanged
    decreases |commits|
  {
    if |commits| == 0 then []
    else
      var p := commits[..|commits| - 1];
      var c := commits[|commits| - 1];
      assert commits == p + [c];
      var r := Touches(p) + TouchesOf(c);
      assert forall t :: t in TouchesOf(c) <==> t.who == Identity(c) && t.file in c.filesChanged by {
        forall t ensures t in TouchesOf(c) <==> t.who == Identity(c) && t.file in c.filesChanged {
          if t.who == Identity(c) && t.file in c.filesChanged {
            var k :| 0 <= k < |c.filesChanged| && c.filesChanged[k] == t.file;
            assert TouchesOf(c)[k] == t;
          }
        }
      }
      r
  }

  // ---------------------------------------------------------------------
  // The file-owner dictionary
  // ---------------------------------------------------------------------

  /** One dictionary entry: a file and its owner set, as a duplicate-free
      sequence in first-seen order. */
  datatype Ownership = Ownership(file: string, owners: seq<string>)

  function FindFile(acc: seq<Ownership>, fp: string): (i: nat)
    ensures i <= |acc|
    ensures i < |acc| ==> acc[i].file == fp
    ensures forall j :: 0 <= j < i ==> acc[j].file != fp
    decreases |acc|
  {
    if |acc| == 0 then 0
    else if acc[0].file == fp then 0
    else FindFile(acc[1..], fp) + 1
  }

  /** `file_owners[fp].add(login)`. */
  function AddTouch(acc: seq<Ownership>, t: Touch): seq<Ownership> {
    var i := FindFile(acc, t.file);
    if i == |acc| then acc + [Ownership(t.file, [t.who])]
    else if t.who in acc[i].owners then acc
    else acc[i := Ownership(t.file, acc[i].owners + [t.who])]
  }

  /** The dictionary after all touches. */
  function FileOwners(ts: seq<Touch>): seq<Ownership>
    decreases |ts|
  {
    if |ts| == 0 then [] else AddTouch(FileOwners(ts[..|ts| - 1]), ts[|ts| - 1])
  }

  predicate HasEntry(acc: seq<Ownership>, fp: string) {
    exists i :: 0 <= i < |acc| && acc[i].file == fp
  }

  /** `owners` is the set of identities that touched `fp`. */
  ghost predicate OwnerSet(owners: seq<string>, ts: seq<Touch>, fp: string) {
    Distinct(owners) && forall x :: x in owners <==> Touch(x, fp) in ts
  }

  /** The dictionary has one entry per touched file and nothing else, and
      each entry holds exactly the identities that touched its file. */
  ghost predicate OwnersMatch(acc: seq<Ownership>, ts: seq<Touch>) {
    && (forall i, j :: 0 <= i < j < |acc| ==> acc[i].file != acc[j].file)
    && (forall i :: 0 <= i < |acc| ==> OwnerSet(acc[i].owners, ts, acc[i].file))
    && (forall k :: 0 <= k < |ts| ==> HasEntry(acc, ts[k].file))
  }

  /** A touch of a file not yet in the dictionary appends its entry. */
  lemma AddTouchNew(acc: seq<Ownership>, ts: seq<Touch>, who: string, fp: string)
    requires OwnersMatch(acc, ts)
    requires FindFile(acc, fp) == |acc|
    ensures OwnersMatch(AddTouch(acc, Touch(who, fp)), ts + [Touch(who, fp)])
  {
    var t := Touch(who, fp);
    var r := AddTouch(acc, t);
    var ts' := ts + [t];
    assert r == acc + [Ownership(fp, [who])];
    forall k | 0 <= k < |ts|
      ensures ts[k].file != fp
    {
      var i :| 0 <= i < |acc| && acc[i].file == ts[k].file;
    }
    forall i | 0 <= i < |r|
      ensures OwnerSet(r[i].owners, ts', r[i].file)
    {
      if i < |acc| {
        assert r[i] == acc[i];
        assert forall x :: Touch(x, r[i].file) in ts' <==> Touch(x, r[i].file) in ts;
      } else {
        forall x
          ensures x in r[i].owners <==> Touch(x, fp) in ts'
        {
          assert Touch(x, fp) !in ts;
        }
      }
    }
    forall k | 0 <= k < |ts'|
      ensures HasEntry(r, ts'[k].file)
    {
      if k < |ts| {
        var i :| 0 <= i < |acc| && acc[i].file == ts[k].file;
        assert r[i] == acc[i];
      } else {
        assert r[|acc|].file == fp;
      }
    }
  }

  /** Another touch by a known owner of a listed file changes nothing. */
  lemma AddTouchRepeat(acc: seq<Ownership>, ts: seq<Touch>, who: string, fp: string, n: nat)
    requires OwnersMatch(acc, ts)
    requires n == FindFile(acc, fp) && n < |acc| && who in acc[n].owners
    ensures OwnersMatch(AddTouch(acc, Touch(who, fp)), ts + [Touch(who, fp)])
  {
    var t := Touch(who, fp);
    assert AddTouch(acc, t) == acc;
    assert Touch(who, fp) in ts;
    forall i | 0 <= i < |acc|
      ensures OwnerSet(acc[i].owners, ts + [t], acc[i].file)
    {
      assert forall x :: Touch(x, acc[i].file) in ts + [t] <==> Touch(x, acc[i].file) in ts;
    }
    forall k | 0 <= k < |ts + [t]|
      ensures HasEntry(acc, (ts + [t])[k].file)
    {
      if k == |ts| {
        assert acc[n].file == fp;
      }
    }
  }

  /** A touch by a new owner of a listed file adds the owner to that entry. */
  lemma AddTouchOwner(acc: seq<Ownership>, ts: seq<Touch>, who: string, fp: string, n: nat)
    requires OwnersMatch(acc, ts)
    requires n == FindFile(acc, fp) && n < |acc| && who !in acc[n].owners
    ensures OwnersMatch(AddTouch(acc, Touch(who, fp)), ts + [Touch(who, fp)])
  {
    var t := Touch(who, fp);
    var r := acc[n := Ownership(fp, acc[n].owners + [who])];
    assert AddTouch(acc, t) == r;
    var ts' := ts + [t];
    forall i | 0 <= i < |r|
      ensures OwnerSet(r[i].owners, ts', r[i].file)
    {
      if i != n {
        assert r[i] == acc[i];
        assert forall x :: Touch(x, r[i].file) in ts' <==> Touch(x, r[i].file) in ts;
      } else {
        assert forall x :: Touch(x, fp) in ts' <==> Touch(x, fp) in ts || x == who;
      }
    }
    forall k | 0 <= k < |ts'|
      ensures HasEntry(r, ts'[k].file)
    {
      if k < |ts| {
        var i :| 0 <= i < |acc| && acc[i].file == ts[k].file;
        assert r[i].file == ts[k].file;
      } else {
        assert r[n].file == fp;
      }
    }
  }

  lemma AddTouchMatches(acc: seq<Ownership>, ts: seq<Touch>, t: Touch)
    requires OwnersMatch(acc, ts)
    ensures OwnersMatch(AddTouch(acc, t), ts + [t])
  {
    var n := FindFile(acc, t.file);
    assert t == Touch(t.who, t.file);
    if n == |acc| {
      AddTouchNew(acc, ts, t.who, t.file);
    } else if t.who in acc[n].owners {
      AddTouchRepeat(acc, ts, t.who, t.file, n);
    } else {
      AddTouchOwner(acc, ts, t.who, t.file, n);
    }
  }

  /** The dictionary fold computes the owner set of every touched file. */
  lemma {:induction false} FileOwnersMatch(ts: seq<Touch>)
    ensures OwnersMatch(FileOwners(ts), ts)
    decreases |ts|
  {
    if |ts| > 0 {
      var p := ts[..|ts| - 1];
      FileOwnersMatch(p);
      AddTouchMatches(FileOwners(p), p, ts[|ts| - 1]);
      assert p + [ts[|ts| - 1]] == ts;
    }
  }

  // ---------------------------------------------------------------------
  // Exclusive files
  // ---------------------------------------------------------------------

  /** At most this many exclusive files are listed per contributor. */
  const ExclusiveLimit: nat := 20

  /** Reference: `login` touched `fp` and nobody else did. */
  ghost predicate SoleOwner(commits: seq<Commit>, fp: string, login: string) {
    && (exists c :: c in commits && fp in c.filesChanged && Identity(c) == login)
    && (forall c :: c in commits && fp in c.filesChanged ==> Identity(c) == login)
  }

  /** `len(owners) == 1` with `login` the one owner. */
  predicate OnlyOwner(owners: seq<string>, login: string) {
    |owners| == 1 && owners[0] == login
  }

  /** The files of the entries whose owner set is exactly `{login}`. */
  function SoleOwned(acc: seq<Ownership>, login: string): (files: seq<string>)
    ensures forall fp :: fp in files <==> exists i :: 0 <= i < |acc| && acc[i].file == fp && OnlyOwner(acc[i].owners, login)
    decreases |acc|
  {
    if |acc| == 0 then []
    else
      var p := acc[..|acc| - 1];
      var e := acc[|acc| - 1];
      var r := SoleOwned(p, login);
      assert forall i :: 0 <= i < |acc| - 1 ==> p[i] == acc[i];
      if OnlyOwner(e.owners, login) then r + [e.file] else r
  }

  /** The first two elements of a duplicate-free sequence differ. */
  lemma DistinctFirstTwo(w: seq<string>)
    requires Distinct(w)
    ensures |w| <= 1 || w[0] != w[1]
  {
  }

  /** A duplicate-free sequence holding `x` and nothing else is `[x]`. */
  lemma DistinctConstant(w: seq<string>, x: string)
    requires Distinct(w) && x in w
    requires forall j :: 0 <= j < |w| ==> w[j] == x
    ensures w == [x]
  {
    DistinctFirstTwo(w);
  }

  /** Owned by the dictionary's reading equals owned by the reference. */
  lemma SoleOwnedSpec(commits: seq<Commit>, login: string, fp: string)
    ensures fp in SoleOwned(FileOwners(Touches(commits)), login) <==> SoleOwner(commits, fp, login)
  {
    if fp in SoleOwned(FileOwners(Touches(commits)), login) {
      SoleOwnedSound(commits, login, fp);
    }
    if SoleOwner(commits, fp, login) {
      SoleOwnedComplete(commits, login, fp);
    }
  }

  /** An owner set that is exactly `[login]` says `login` touched the
      file and nobody else did. */
  lemma OnlyOwnerTouches(owners: seq<string>, ts: seq<Touch>, fp: string, login: string)
    requires OwnerSet(owners, ts, fp) && OnlyOwner(owners, login)
    ensures Touch(login, fp) in ts
    ensures forall x :: Touch(x, fp) in ts ==> x == login
  {
    assert owners[0] in owners;
  }

  lemma SoleOwnedSound(commits: seq<Commit>, login: string, fp: string)
    requires fp in SoleOwned(FileOwners(Touches(commits)), login)
    ensures SoleOwner(commits, fp, login)
  {
    var ts := Touches(commits);
    var acc := FileOwners(ts);
    FileOwnersMatch(ts);
    var i :| 0 <= i < |acc| && acc[i].file == fp && OnlyOwner(acc[i].owners, login);
    OnlyOwnerTouches(acc[i].owners, ts, fp, login);
    forall c | c in commits && fp in c.filesChanged
      ensures Identity(c) == login
    {
      assert Touch(Identity(c), fp) in ts;
    }
  }

  lemma SoleOwnedComplete(commits: seq<Commit>, login: string, fp: string)
    requires SoleOwner(commits, fp, login)
    ensures fp in SoleOwned(FileOwners(Touches(commits)), login)
  {
    var ts := Touches(commits);
    var acc := FileOwners(ts);
    FileOwnersMatch(ts);
    var c :| c in commits && fp in c.filesChanged && Identity(c) == login;
    assert Touch(login, fp) in ts;
    var k :| 0 <= k < |ts| && ts[k] == Touch(login, fp);
    assert HasEntry(acc, ts[k].file);
    var i :| 0 <= i < |acc| && acc[i].file == fp;
    var owners := acc[i].owners;
    assert OwnerSet(owners, ts, fp);
    assert login in owners;
    forall j | 0 <= j < |owners|
      ensures owners[j] == login
    {
      assert owners[j] in owners;
      assert Touch(owners[j], fp) in ts;
    }
    DistinctConstant(owners, login);
    assert OnlyOwner(owners, login);
  }

  /** `sorted(exclusive[login])[:20]`: the files only `login` touched, in
      increasing order, at most twenty of them; a file left out means the
      twenty listed ones all sort before it. */
  function ExclusiveFiles(commits: seq<Commit>, login: string): (files: seq<string>)
    ensures StrictlySorted(files) && |files| <= ExclusiveLimit
    ensures forall fp :: fp in files ==> SoleOwner(commits, fp, login)
    ensures forall fp :: SoleOwner(commits, fp, login) && fp !in files ==>
      |files| == ExclusiveLimit && forall k :: 0 <= k < |files| ==> Less(files[k], fp)
  {
    var sorted := SortedSet(SoleOwned(FileOwners(Touches(commits)), login));
    var files := Take(sorted, ExclusiveLimit);
    TakeSorted(sorted, ExclusiveLimit);
    forall fp | fp in files
      ensures SoleOwner(commits, fp, login)
    {
      SoleOwnedSpec(commits, login, fp);
    }
    forall fp | SoleOwner(commits, fp, login) && fp !in files
      ensures |files| == ExclusiveLimit && forall k :: 0 <= k < |files| ==> Less(files[k], fp)
    {
      SoleOwnedSpec(commits, login, fp);
      var m :| 0 <= m < |sorted| && sorted[m] == fp;
      assert m >= |files| by {
        assert forall k :: 0 <= k < |files| ==> files[k] == sorted[k];
      }
    }
    files
  }

  /** One entry of the exclusive-file dictionary. */
  datatype Exclusive = Exclusive(login: string, files: seq<string>)

  function LoginOfExclusive(e: Exclusive): string { e.login }

  /** The owners of single-owner files, one per such file, in dictionary order. */
  function SoleOwners(acc: seq<Ownership>): (owners: seq<string>)
    ensures forall x :: x in owners <==> exists i :: 0 <= i < |acc| && OnlyOwner(acc[i].owners, x)
    decreases |acc|
  {
    if |acc| == 0 then []
    else
      var p := acc[..|acc| - 1];
      var e := acc[|acc| - 1];
      var r := SoleOwners(p);
      assert forall i :: 0 <= i < |acc| - 1 ==> p[i] == acc[i];
      if |e.owners| == 1 then r + [e.owners[0]] else r
  }

  /** The file has exactly one owner. */
  function SingleOwner(): Ownership -> bool {
    (o: Ownership) => |o.owners| == 1
  }

  /** The owner of a single-owner file. */
  function TheOwner(): Ownership -> string {
    (o: Ownership) => if |o.owners| == 1 then o.owners[0] else ""
  }

  /** The sole owners come in file order, one per single-owner file. */
  lemma {:induction false} SoleOwnersInOrder(acc: seq<Ownership>)
    ensures SoleOwners(acc) == Map(Filter(acc, SingleOwner()), TheOwner())
    decreases |acc|
  {
    if |acc| > 0 {
      var p := acc[..|acc| - 1];
      var e := acc[|acc| - 1];
      calc {
        SoleOwners(acc);
        SoleOwners(p) + if |e.owners| == 1 then [e.owners[0]] else [];
      == { SoleOwnersInOrder(p); }
        Map(Filter(p, SingleOwner()), TheOwner()) + if |e.owners| == 1 then [e.owners[0]] else [];
      == { MapFilterSnoc(p, e, SingleOwner(), TheOwner()); }
        Map(Filter(p + [e], SingleOwner()), TheOwner());
      == { assert acc == p + [e]; }
        Map(Filter(acc, SingleOwner()), TheOwner());
      }
    }
  }

  /** The dictionary's keys are the sole owners in first-seen order, going
      through the files in first-touch order. */
  lemma ExclusiveKeysInOrder(commits: seq<Commit>)
    ensures Map(ExclusiveMap(commits), LoginOfExclusive) ==
      Dedup(Map(Filter(FileOwners(Touches(commits)), SingleOwner()), TheOwner()))
  {
    SoleOwnersInOrder(FileOwners(Touches(commits)));
  }

  /** The exclusive-file dictionary: one entry per contributor who is the
      only owner of some file, keyed in first-seen order, each holding that
      contributor's exclusive files. */
  function ExclusiveMap(commits: seq<Commit>): (m: seq<Exclusive>)
    ensures DistinctBy(m, LoginOfExclusive)
    ensures forall k :: 0 <= k < |m| ==> m[k].files == ExclusiveFiles(commits, m[k].login) && |m[k].files| > 0
    ensures forall login, fp :: SoleOwner(commits, fp, login) ==> login in Map(m, LoginOfExclusive)
  {
    var acc := FileOwners(Touches(commits));
    var keys := Dedup(SoleOwners(acc));
    var m := Map(keys, login => Exclusive(login, ExclusiveFiles(commits, login)));
    assert Map(m, LoginOfExclusive) == keys;
    forall k | 0 <= k < |m|
      ensures |m[k].files| > 0
    {
      var i :| 0 <= i < |acc| && OnlyOwner(acc[i].owners, keys[k]);
      assert acc[i].file in SoleOwned(acc, keys[k]);
      SoleOwnedSpec(commits, keys[k], acc[i].file);
      assert ExclusiveFiles(commits, keys[k]) != [];
    }
    forall login, fp | SoleOwner(commits, fp, login)
      ensures login in Map(m, LoginOfExclusive)
    {
      SoleOwnedSpec(commits, login, fp);
      assert login in SoleOwners(acc);
    }
    m
  }

  // ---------------------------------------------------------------------
  // Knowledge monopolists
  // ---------------------------------------------------------------------

  /** Only the first ten contributors are examined. */
  const MonopolistScan: nat := 10

  /** More than this many exclusive files makes a monopolist. */
  const MonopolistFiles: nat := 5

  predicate HoldsMany(commits: seq<Commit>, login: string) {
    |ExclusiveFiles(commits, login)| > MonopolistFiles
  }

  /** `stats[0].commit_count / total > 0.6`, cross-multiplied. */
  predicate DominatesCommits(stats: seq<ContributorStats>) {
    var total := Sorting.Total(stats, CommitCountOf);
    |stats| > 0 && total > 0 && 5 * stats[0].commitCount > 3 * total
  }

  /** The first loop: logins among `stats` with many exclusive files, in
      statistics order. */
  function Flagged(stats: seq<ContributorStats>, commits: seq<Commit>): (logins: seq<string>)
    ensures forall l :: l in logins <==> exists i :: 0 <= i < |stats| && stats[i].login == l && HoldsMany(commits, l)
    ensures |logins| > 0 && |stats| > 0 && HoldsMany(commits, stats[0].login) ==> logins[0] == stats[0].login
  {
    LoginsWhere(stats, ManyFiles(commits))
  }

  /** The flagged logins are those of the entries with many exclusive files,
      in statistics order. */
  lemma FlaggedInOrder(stats: seq<ContributorStats>, commits: seq<Commit>)
    ensures Flagged(stats, commits) == Map(Filter(stats, LoginKept(ManyFiles(commits))), LoginOf)
  {
    LoginsWhereInOrder(stats, ManyFiles(commits));
  }

  /** The test of the first loop, on a login. */
  function ManyFiles(commits: seq<Commit>): string -> bool {
    (l: string) => HoldsMany(commits, l)
  }

  /** A login test lifted to the statistics entry that carries the login. */
  function LoginKept(keep: string -> bool): ContributorStats -> bool {
    (s: ContributorStats) => keep(s.login)
  }

  /** The logins of `stats` that pass `keep`, in order. */
  function LoginsWhere(stats: seq<ContributorStats>, keep: string -> bool): (logins: seq<string>)
    ensures forall l :: l in logins <==> exists i :: 0 <= i < |stats| && stats[i].login == l && keep(l)
    ensures |logins| > 0 && |stats| > 0 && keep(stats[0].login) ==> logins[0] == stats[0].login
    decreases |stats|
  {
    if |stats| == 0 then []
    else
      var p := stats[..|stats| - 1];
      var s := stats[|stats| - 1];
      var r := LoginsWhere(p, keep);
      assert forall i :: 0 <= i < |stats| - 1 ==> p[i] == stats[i];
      if keep(s.login) then r + [s.login] else r
  }

  /** The loop keeps the statistics order: its logins are those of the
      entries that pass, in order. */
  lemma {:induction false} LoginsWhereInOrder(stats: seq<ContributorStats>, keep: string -> bool)
    ensures LoginsWhere(stats, keep) == Map(Filter(stats, LoginKept(keep)), LoginOf)
    decreases |stats|
  {
    if |stats| > 0 {
      var p := stats[..|stats| - 1];
      var s := stats[|stats| - 1];
      var step := if keep(s.login) then [s.login] else [];
      calc {
        LoginsWhere(stats, keep);
      == { LoginsWhereLast(stats, keep); }
        LoginsWhere(p, keep) + step;
      == { LoginsWhereInOrder(p, keep); }
        Map(Filter(p, LoginKept(keep)), LoginOf) + step;
      == { MapFilterSnoc(p, s, LoginKept(keep), LoginOf); }
        Map(Filter(p + [s], LoginKept(keep)), LoginOf);
      == { assert stats == p + [s]; }
        Map(Filter(stats, LoginKept(keep)), LoginOf);
      }
    }
  }

  /** One step of the loop: the last entry adds its login when it passes. */
  lemma LoginsWhereLast(stats: seq<ContributorStats>, keep: string -> bool)
    requires |stats| > 0
    ensures LoginsWhere(stats, keep) ==
      LoginsWhere(stats[..|stats| - 1], keep) + (if keep(stats[|stats| - 1].login) then [stats[|stats| - 1].login] else [])
  {
    var q := LoginsWhere(stats[..|stats| - 1], keep);
    assert q + [] == q;
  }

  /** The monopolists: among the first ten contributors those with more than
      five exclusive files, in order, preceded by the top contributor when
      that one holds more than 60% of all commits and is not already listed. */
  function Monopolists(stats: seq<ContributorStats>, commits: seq<Commit>): (m: seq<string>)
    ensures forall l :: l in m <==>
      ((exists i :: 0 <= i < Min(MonopolistScan, |stats|) && stats[i].login == l && HoldsMany(commits, l))
        || (DominatesCommits(stats) && l == stats[0].login))
    ensures DominatesCommits(stats) ==> |m| > 0 && m[0] == stats[0].login
  {
    var scanned := Take(stats, MonopolistScan);
    var flagged := Flagged(scanned, commits);
    FlaggedScanned(stats, commits);
    if DominatesCommits(stats) && stats[0].login !in flagged then [stats[0].login] + flagged
    else
      assert DominatesCommits(stats) ==> scanned[0] == stats[0];
      flagged
  }

  /** The logins flagged among the first ten contributors. */
  lemma FlaggedScanned(stats: seq<ContributorStats>, commits: seq<Commit>)
    ensures forall l :: l in Flagged(Take(stats, MonopolistScan), commits) <==>
      exists i :: 0 <= i < Min(MonopolistScan, |stats|) && stats[i].login == l && HoldsMany(commits, l)
  {
    var scanned := Take(stats, MonopolistScan);
    forall l | l in Flagged(scanned, commits)
      ensures exists i :: 0 <= i < Min(MonopolistScan, |stats|) && stats[i].login == l && HoldsMany(commits, l)
    {
      var i :| 0 <= i < |scanned| && scanned[i].login == l && HoldsMany(commits, l);
      assert stats[i] == scanned[i];
    }
  }

  /** The monopolists are the flagged logins in statistics order, with the
      top contributor put in front only when it dominates the commits and
      was not flagged already. */
  lemma MonopolistsOrder(stats: seq<ContributorStats>, commits: seq<Commit>)
    ensures var flagged := Flagged(Take(stats, MonopolistScan), commits);
      var m := Monopolists(stats, commits);
      m == flagged || (DominatesCommits(stats) && stats[0].login !in flagged && m == [stats[0].login] + flagged)
  {
  }

  /** Contributors with distinct logins give monopolists without repeats. */
  lemma MonopolistsDistinct(stats: seq<ContributorStats>, commits: seq<Commit>)
    ensures DistinctBy(stats, LoginOf) ==> Distinct(Monopolists(stats, commits))
  {
    if DistinctBy(stats, LoginOf) {
      var scanned := Take(stats, MonopolistScan);
      assert DistinctBy(scanned, LoginOf) by {
        forall i, j | 0 <= i < j < |scanned| ensures LoginOf(scanned[i]) != LoginOf(scanned[j]) {
          assert scanned[i] == stats[i] && scanned[j] == stats[j];
        }
      }
      var flagged := Flagged(scanned, commits);
      FlaggedInOrder(scanned, commits);
      MapFilterDistinct(scanned, LoginKept(ManyFiles(commits)), LoginOf);
      MonopolistsOrder(stats, commits);
      var m := Monopolists(stats, commits);
      if m != flagged {
        var top := stats[0].login;
        assert m == [top] + flagged && top !in flagged;
        DistinctCons(top, flagged);
      }
    }
  }

  /** A contributor with 90 of 100 commits is a monopolist whatever the files. */
  lemma MonopolistExample(commits: seq<Commit>)
    ensures var stats := [NewStats("megadev", "", "").(commitCount := 90), NewStats("helper", "", "").(commitCount := 10)];
      |Monopolists(stats, commits)| > 0 && Monopolists(stats, commits)[0] == "megadev"
  {
    var stats := [NewStats("megadev", "", "").(commitCount := 90), NewStats("helper", "", "").(commitCount := 10)];
    assert stats[1..][1..] == [];
    assert Sorting.Total(stats[1..], CommitCountOf) == 10;
    assert Sorting.Total(stats, CommitCountOf) == 100;
  }

  // ---------------------------------------------------------------------
  // Report
  // ---------------------------------------------------------------------

  datatype BusFactorMitigationReport = BusFactorMitigationReport(
    busFactor: int, riskLevel: string, knowledgeMonopolists: seq<string>, exclusiveFiles: seq<Exclusive>)

  /** The whole analysis for a given bus factor. */
  function BuildBusMitigation(stats: seq<ContributorStats>, commits: seq<Commit>, busFactor: int): (r: BusFactorMitigationReport)
    ensures r.busFactor == busFactor
    ensures r.riskLevel == "critical" <==> busFactor <= 1
    ensures r.riskLevel == RiskLevel(busFactor)
    ensures r.knowledgeMonopolists == Monopolists(stats, commits) && r.exclusiveFiles == ExclusiveMap(commits)
    ensures forall l :: l in r.knowledgeMonopolists ==> exists i :: 0 <= i < |stats| && stats[i].login == l
    ensures forall k :: 0 <= k < |r.exclusiveFiles| ==>
      forall fp :: fp in r.exclusiveFiles[k].files ==> SoleOwner(commits, fp, r.exclusiveFiles[k].login)
  {
    BusFactorMitigationReport(busFactor, RiskLevel(busFactor), Monopolists(stats, commits), ExclusiveMap(commits))
  }
}
