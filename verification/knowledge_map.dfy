/**
 * The contributor-by-folder knowledge matrix. Every file a commit touches
 * in one of the listed top-level folders counts once for the commit's
 * author in that folder, together with the commit's changed lines. The
 * matrix covers the first fifteen contributors of the statistics list; a
 * folder is a knowledge silo when one of them holds at least 80% of its
 * touches.
 */
module KnowledgeMap {

  import opened Wrappers
  import opened Strings
  import opened Seqs
  import Tally
  import opened Models
  import opened Paths

  type Cell = (string, string)

  /** `d.get(k, 0)`. */
  function Get(m: map<Cell, nat>, k: Cell): nat {
    if k in m then m[k] else 0
  }

  /** The two nested counting dictionaries, keyed by (login, folder). */
  datatype FolderTally = FolderTally(touches: map<Cell, nat>, lines: map<Cell, nat>)

  // ---------------------------------------------------------------------
  // Reference: touches and lines per contributor and folder
  // ---------------------------------------------------------------------

  /** How many of `files` lie in `folder`. */
  function FolderHits(files: seq<string>, folder: string): nat {
    Tally.Occurrences(Map(files, FirstSegment), folder)
  }

  /** Files of `login`'s commits that lie in `folder`. */
  function FileTouches(commits: seq<Commit>, login: string, folder: string): nat
    decreases |commits|
  {
    if |commits| == 0 then 0
    else
      var c := commits[|commits| - 1];
      FileTouches(commits[..|commits| - 1], login, folder)
        + (if Identity(c) == login then FolderHits(c.filesChanged, folder) else 0)
  }

  /** Changed lines of `login`'s commits, counted once per file of the
      commit in `folder`. */
  function LinesTouched(commits: seq<Commit>, login: string, folder: string): nat
    decreases |commits|
  {
    if |commits| == 0 then 0
    else
      var c := commits[|commits| - 1];
      LinesTouched(commits[..|commits| - 1], login, folder)
        + (if Identity(c) == login then Copies(FolderHits(c.filesChanged, folder), c.additions + c.deletions) else 0)
  }

  // ---------------------------------------------------------------------
  // The counting loops as written
  // ---------------------------------------------------------------------

  /** The inner loop over one commit's files. */
  function TallyFiles(t: FolderTally, login: string, files: seq<string>, weight: nat, topDirs: seq<string>): FolderTally
    decreases |files|
  {
    if |files| == 0 then t
    else
      var prev := TallyFiles(t, login, files[..|files| - 1], weight, topDirs);
      var folder := FirstSegment(files[|files| - 1]);
      if folder in topDirs then
        FolderTally(prev.touches[(login, folder) := Get(prev.touches, (login, folder)) + 1],
                    prev.lines[(login, folder) := Get(prev.lines, (login, folder)) + weight])
      else prev
  }

  /** The outer loop over the commits. */
  function TallyCommits(commits: seq<Commit>, topDirs: seq<string>): FolderTally
    decreases |commits|
  {
    if |commits| == 0 then FolderTally(map[], map[])
    else
      var c := commits[|commits| - 1];
      TallyFiles(TallyCommits(commits[..|commits| - 1], topDirs), Identity(c), c.filesChanged,
                 c.additions + c.deletions, topDirs)
  }

  lemma GetUpdate(m: map<Cell, nat>, k: Cell, v: nat, k2: Cell)
    ensures Get(m[k := v], k2) == if k2 == k then v else Get(m, k2)
  {
  }

  lemma FolderHitsAppend(files: seq<string>, x: string, folder: string)
    ensures FolderHits(files + [x], folder) == FolderHits(files, folder) + (if FirstSegment(x) == folder then 1 else 0)
  {
    MapAppend(files, x, FirstSegment);
    assert (Map(files, FirstSegment) + [FirstSegment(x)])[..|files|] == Map(files, FirstSegment);
  }

  /** One more file adds one touch and the commit's lines to its folder's
      cell when that folder is listed. */
  lemma TallyFilesStep(t: FolderTally, login: string, p: seq<string>, x: string, weight: nat,
                       topDirs: seq<string>, l: string, f: string)
    ensures var before := TallyFiles(t, login, p, weight, topDirs);
      var after := TallyFiles(t, login, p + [x], weight, topDirs);
      var hit := l == login && FirstSegment(x) == f && f in topDirs;
      && Get(after.touches, (l, f)) == Get(before.touches, (l, f)) + (if hit then 1 else 0)
      && Get(after.lines, (l, f)) == Get(before.lines, (l, f)) + (if hit then weight else 0)
  {
    var prev := TallyFiles(t, login, p, weight, topDirs);
    var folder := FirstSegment(x);
    assert (p + [x])[..|p|] == p;
    assert TallyFiles(t, login, p + [x], weight, topDirs) ==
      if folder in topDirs then
        FolderTally(prev.touches[(login, folder) := Get(prev.touches, (login, folder)) + 1],
                    prev.lines[(login, folder) := Get(prev.lines, (login, folder)) + weight])
      else prev;
    if folder in topDirs {
      GetUpdate(prev.touches, (login, folder), Get(prev.touches, (login, folder)) + 1, (l, f));
      GetUpdate(prev.lines, (login, folder), Get(prev.lines, (login, folder)) + weight, (l, f));
    }
  }

  /** One commit's files add its hits to its author's cells and nothing elsewhere. */
  lemma {:induction false} TallyFilesSpec(t: FolderTally, login: string, files: seq<string>, weight: nat,
                                          topDirs: seq<string>, l: string, f: string)
    ensures var r := TallyFiles(t, login, files, weight, topDirs);
      var hits := if l == login && f in topDirs then FolderHits(files, f) else 0;
      && Get(r.touches, (l, f)) == Get(t.touches, (l, f)) + hits
      && Get(r.lines, (l, f)) == Get(t.lines, (l, f)) + Copies(hits, weight)
    decreases |files|
  {
    if |files| > 0 {
      var p := files[..|files| - 1];
      var x := files[|files| - 1];
      TallyFilesSpec(t, login, p, weight, topDirs, l, f);
      assert files == p + [x];
      FolderHitsAppend(p, x, f);
      TallyFilesStep(t, login, p, x, weight, topDirs, l, f);
      var hit := l == login && FirstSegment(x) == f && f in topDirs;
      var hp := if l == login && f in topDirs then FolderHits(p, f) else 0;
      var h := if l == login && f in topDirs then FolderHits(files, f) else 0;
      assert h == hp + if hit then 1 else 0;
      assert Copies(h, weight) == Copies(hp, weight) + if hit then weight else 0;
    } else {
      assert Map(files, FirstSegment) == [];
    }
  }

  /** The counting loops compute the reference touches and lines of every
      contributor in every listed folder, and nothing for other folders. */
  lemma {:induction false} TallyCommitsSpec(commits: seq<Commit>, topDirs: seq<string>, l: string, f: string)
    ensures Get(TallyCommits(commits, topDirs).touches, (l, f)) == if f in topDirs then FileTouches(commits, l, f) else 0
    ensures Get(TallyCommits(commits, topDirs).lines, (l, f)) == if f in topDirs then LinesTouched(commits, l, f) else 0
    decreases |commits|
  {
    if |commits| > 0 {
      var c := commits[|commits| - 1];
      TallyCommitsSpec(commits[..|commits| - 1], topDirs, l, f);
      TallyFilesSpec(TallyCommits(commits[..|commits| - 1], topDirs), Identity(c), c.filesChanged,
                     c.additions + c.deletions, topDirs, l, f);
    }
  }

  // ---------------------------------------------------------------------
  // The matrix
  // ---------------------------------------------------------------------

  /** Number of contributors the matrix covers. */
  const ActiveLimit: nat := 15

  /** One cell. The score `ct / max_commits` is kept as the exact fraction
      scoreNum / scoreDen. */
  datatype KnowledgeCell = KnowledgeCell(
    login: string, folder: string, scoreNum: nat, scoreDen: nat, commits: nat, linesChanged: nat)

  datatype KnowledgeMapReport = KnowledgeMapReport(
    contributors: seq<string>, folders: seq<string>, cells: seq<KnowledgeCell>, knowledgeSilos: seq<string>)

  /** The logins of the first fifteen contributors. */
  function ActiveLogins(stats: seq<ContributorStats>): (logins: seq<string>)
    ensures |logins| == Min(ActiveLimit, |stats|)
    ensures forall i :: 0 <= i < |logins| ==> logins[i] == stats[i].login
  {
    Map(Take(stats, ActiveLimit), LoginOf)
  }

  /** The largest touch count over the matrix, starting from 1 (the loop
      over `logins` then `folders`). */
  function MaxTouches(t: FolderTally, logins: seq<string>, folders: seq<string>): (m: nat)
    ensures m >= 1
    ensures forall i, j :: 0 <= i < |logins| && 0 <= j < |folders| ==> Get(t.touches, (logins[i], folders[j])) <= m
    ensures m == 1 || exists i, j :: 0 <= i < |logins| && 0 <= j < |folders| && Get(t.touches, (logins[i], folders[j])) == m
    decreases |logins|
  {
    if |logins| == 0 then 1
    else
      var prev := MaxTouches(t, logins[..|logins| - 1], folders);
      var row := RowMax(t, logins[|logins| - 1], folders, prev);
      assert forall i :: 0 <= i < |logins| - 1 ==> logins[..|logins| - 1][i] == logins[i];
      row
  }

  /** The inner loop: raises `m` to the largest touch count of one row. */
  function RowMax(t: FolderTally, login: string, folders: seq<string>, m: nat): (r: nat)
    ensures r >= m
    ensures forall j :: 0 <= j < |folders| ==> Get(t.touches, (login, folders[j])) <= r
    ensures r == m || exists j :: 0 <= j < |folders| && Get(t.touches, (login, folders[j])) == r
    decreases |folders|
  {
    if |folders| == 0 then m
    else
      var prev := RowMax(t, login, folders[..|folders| - 1], m);
      var ct := Get(t.touches, (login, folders[|folders| - 1]));
      assert forall j :: 0 <= j < |folders| - 1 ==> folders[..|folders| - 1][j] == folders[j];
      if ct > prev then ct else prev
  }

  function MakeCell(t: FolderTally, login: string, folder: string, max: nat): KnowledgeCell {
    var ct := Get(t.touches, (login, folder));
    KnowledgeCell(login, folder, ct, max, ct, Get(t.lines, (login, folder)))
  }

  /** The cells of one contributor, one per folder in folder order. */
  function RowCells(t: FolderTally, login: string, folders: seq<string>, max: nat): (row: seq<KnowledgeCell>)
    ensures |row| == |folders|
    ensures forall j :: 0 <= j < |folders| ==> row[j] == MakeCell(t, login, folders[j], max)
    ensures forall k :: 0 <= k < |row| ==> row[k].login == login && row[k].folder in folders
    decreases |folders|
  {
    if |folders| == 0 then []
    else RowCells(t, login, folders[..|folders| - 1], max) + [MakeCell(t, login, folders[|folders| - 1], max)]
  }

  /** All cells, contributor by contributor, one per login and folder. */
  function Cells(t: FolderTally, logins: seq<string>, folders: seq<string>, max: nat): (cells: seq<KnowledgeCell>)
    ensures |cells| == Copies(|logins|, |folders|)
    decreases |logins|
  {
    if |logins| == 0 then []
    else Cells(t, logins[..|logins| - 1], folders, max) + RowCells(t, logins[|logins| - 1], folders, max)
  }

  /** Every cell is the cell of one of the logins and one of the folders. */
  lemma {:induction false} CellsInside(t: FolderTally, logins: seq<string>, folders: seq<string>, max: nat)
    ensures forall k :: 0 <= k < |Cells(t, logins, folders, max)| ==>
      && Cells(t, logins, folders, max)[k] == MakeCell(t, Cells(t, logins, folders, max)[k].login, Cells(t, logins, folders, max)[k].folder, max)
      && Cells(t, logins, folders, max)[k].login in logins && Cells(t, logins, folders, max)[k].folder in folders
    decreases |logins|
  {
    if |logins| > 0 {
      var n := |logins| - 1;
      var prev := Cells(t, logins[..n], folders, max);
      var row := RowCells(t, logins[n], folders, max);
      CellsInside(t, logins[..n], folders, max);
      var cells := Cells(t, logins, folders, max);
      assert cells == prev + row;
      forall k | 0 <= k < |cells|
        ensures cells[k] == MakeCell(t, cells[k].login, cells[k].folder, max)
        ensures cells[k].login in logins && cells[k].folder in folders
      {
        if k < |prev| {
          assert cells[k] == prev[k];
          assert prev[k].login in logins[..n];
        } else {
          assert cells[k] == row[k - |prev|];
        }
      }
    }
  }

  /** Row `i` of `n` rows of width `w` ends before row `n` starts. */
  lemma {:induction false} RowOffset(i: nat, n: nat, w: nat, j: nat)
    requires i < n && j < w
    ensures Copies(i, w) + j < Copies(n, w)
    decreases n
  {
    if i < n - 1 {
      RowOffset(i, n - 1, w, j);
    }
  }

  /** The layout is contributor-major: the cell of login `i` and folder `j`
      sits after `i` full rows, at position `i * |folders| + j`. */
  lemma {:induction false} CellPosition(t: FolderTally, logins: seq<string>, folders: seq<string>, max: nat, i: nat, j: nat)
    requires i < |logins| && j < |folders|
    ensures Copies(i, |folders|) + j < |Cells(t, logins, folders, max)|
    ensures Cells(t, logins, folders, max)[Copies(i, |folders|) + j] == MakeCell(t, logins[i], folders[j], max)
    decreases |logins|
  {
    var n := |logins| - 1;
    var prev := Cells(t, logins[..n], folders, max);
    var row := RowCells(t, logins[n], folders, max);
    assert Cells(t, logins, folders, max) == prev + row;
    if i < n {
      CellPosition(t, logins[..n], folders, max, i, j);
      RowOffset(i, n, |folders|, j);
      assert logins[..n][i] == logins[i];
      InLeft(prev, row, Copies(i, |folders|) + j);
    } else {
      InRight(prev, row, j);
    }
  }

  /** Indexing the left part of a concatenation. */
  lemma InLeft<T>(a: seq<T>, b: seq<T>, k: nat)
    requires k < |a|
    ensures k < |a + b| && (a + b)[k] == a[k]
  {
  }

  /** Indexing the right part of a concatenation. */
  lemma InRight<T>(a: seq<T>, b: seq<T>, k: nat)
    requires k < |b|
    ensures |a| + k < |a + b| && (a + b)[|a| + k] == b[k]
  {
  }

  /** Every login and folder pair has a cell in `cells`. */
  ghost predicate Covered(cells: seq<KnowledgeCell>, logins: seq<string>, folders: seq<string>) {
    forall i, j :: 0 <= i < |logins| && 0 <= j < |folders| ==> HasCellOf(cells, logins[i], folders[j])
  }

  /** Some cell belongs to `login` and `folder`. */
  ghost predicate HasCellOf(cells: seq<KnowledgeCell>, login: string, folder: string) {
    exists k :: HasCell(cells, k, login, folder)
  }

  lemma CellsCover(t: FolderTally, logins: seq<string>, folders: seq<string>, max: nat)
    ensures Covered(Cells(t, logins, folders, max), logins, folders)
  {
    var cells := Cells(t, logins, folders, max);
    forall i, j | 0 <= i < |logins| && 0 <= j < |folders|
      ensures HasCellOf(cells, logins[i], folders[j])
    {
      var k := CellFor(t, logins, folders, max, i, j);
      assert HasCell(cells, k, logins[i], folders[j]);
    }
  }

  /** The position of the cell of login `i` and folder `j`. */
  lemma CellFor(t: FolderTally, logins: seq<string>, folders: seq<string>, max: nat, i: nat, j: nat) returns (k: nat)
    requires i < |logins| && j < |folders|
    ensures HasCell(Cells(t, logins, folders, max), k, logins[i], folders[j])
  {
    CellPosition(t, logins, folders, max, i, j);
    k := Copies(i, |folders|) + j;
  }

  /** Position `k` holds the cell of `login` and `folder`. */
  predicate HasCell(cells: seq<KnowledgeCell>, k: int, login: string, folder: string) {
    0 <= k < |cells| && cells[k].login == login && cells[k].folder == folder
  }

  // ---------------------------------------------------------------------
  // Knowledge silos
  // ---------------------------------------------------------------------

  /** Touches of `folder` summed over the logins. */
  function FolderTotal(t: FolderTally, logins: seq<string>, folder: string): nat
    decreases |logins|
  {
    if |logins| == 0 then 0
    else FolderTotal(t, logins[..|logins| - 1], folder) + Get(t.touches, (logins[|logins| - 1], folder))
  }

  /** `ct / folder_total >= 0.8`, cross-multiplied. */
  predicate Dominates(ct: nat, total: nat) { 5 * ct >= 4 * total }

  /** The first position whose login dominates `folder`, if any. */
  function FirstDominant(t: FolderTally, logins: seq<string>, folder: string, total: nat, from: nat): (r: Option<nat>)
    requires from <= |logins|
    ensures r.Some? ==> from <= r.value < |logins| && Dominates(Get(t.touches, (logins[r.value], folder)), total)
    ensures r.Some? ==> forall i :: from <= i < r.value ==> !Dominates(Get(t.touches, (logins[i], folder)), total)
    ensures r.None? ==> forall i :: from <= i < |logins| ==> !Dominates(Get(t.touches, (logins[i], folder)), total)
    decreases |logins| - from
  {
    if from == |logins| then None
    else if Dominates(Get(t.touches, (logins[from], folder)), total) then Some(from)
    else FirstDominant(t, logins, folder, total, from + 1)
  }

  /** Position `i` is the first whose login holds 80% of `folder`'s touches. */
  predicate FirstDominantAt(t: FolderTally, logins: seq<string>, folder: string, i: int) {
    && 0 <= i < |logins|
    && Dominates(Get(t.touches, (logins[i], folder)), FolderTotal(t, logins, folder))
    && forall k :: 0 <= k < i ==> !Dominates(Get(t.touches, (logins[k], folder)), FolderTotal(t, logins, folder))
  }

  /** `f"{folder}/ (dominated by @{login}, {ct}/{folder_total} commits)"`. */
  function SiloLine(folder: string, login: string, ct: nat, total: nat): string {
    folder + "/ (dominated by @" + login + ", " + NatToString(ct) + "/" + NatToString(total) + " commits)"
  }

  /** The silo report of one folder: none when nobody touched it; otherwise
      the first contributor holding at least 80% of its touches, if any. */
  function SiloFor(t: FolderTally, logins: seq<string>, folder: string): (r: Option<string>)
    ensures r.Some? <==> (FolderTotal(t, logins, folder) > 0 &&
      exists i :: 0 <= i < |logins| && Dominates(Get(t.touches, (logins[i], folder)), FolderTotal(t, logins, folder)))
    ensures r.Some? ==> (
      exists i :: FirstDominantAt(t, logins, folder, i) &&
        r.value == SiloLine(folder, logins[i], Get(t.touches, (logins[i], folder)), FolderTotal(t, logins, folder)))
  {
    var total := FolderTotal(t, logins, folder);
    if total == 0 then None
    else
      match FirstDominant(t, logins, folder, total, 0)
      case None => None
      case Some(i) => Some(SiloLine(folder, logins[i], Get(t.touches, (logins[i], folder)), total))
  }

  /** The silo lines, in folder order. */
  function Silos(t: FolderTally, logins: seq<string>, folders: seq<string>): (silos: seq<string>)
    ensures |silos| <= |folders|
    ensures forall j :: 0 <= j < |folders| && SiloFor(t, logins, folders[j]).Some? ==>
      SiloFor(t, logins, folders[j]).value in silos
    ensures forall line :: line in silos ==>
      exists j :: 0 <= j < |folders| && SiloFor(t, logins, folders[j]) == Some(line)
    decreases |folders|
  {
    if |folders| == 0 then []
    else
      var n := |folders| - 1;
      var prev := Silos(t, logins, folders[..n]);
      assert forall j :: 0 <= j < n ==> folders[..n][j] == folders[j];
      match SiloFor(t, logins, folders[n])
      case None => prev
      case Some(line) => prev + [line]
  }

  /** The folder has a silo line. */
  function HasSilo(t: FolderTally, logins: seq<string>): string -> bool {
    (folder: string) => SiloFor(t, logins, folder).Some?
  }

  /** The silo line of a folder that has one. */
  function SiloLineOf(t: FolderTally, logins: seq<string>): string -> string {
    (folder: string) => SiloFor(t, logins, folder).GetOr("")
  }

  /** The silo lines follow the folder order, one per folder that has one. */
  lemma {:induction false} SilosInOrder(t: FolderTally, logins: seq<string>, folders: seq<string>)
    ensures Silos(t, logins, folders) == Map(Filter(folders, HasSilo(t, logins)), SiloLineOf(t, logins))
    decreases |folders|
  {
    if |folders| > 0 {
      var p := folders[..|folders| - 1];
      var f := folders[|folders| - 1];
      var step := if SiloFor(t, logins, f).Some? then [SiloFor(t, logins, f).value] else [];
      calc {
        Silos(t, logins, folders);
      == { assert Silos(t, logins, p) + [] == Silos(t, logins, p); }
        Silos(t, logins, p) + step;
      == { SilosInOrder(t, logins, p); }
        Map(Filter(p, HasSilo(t, logins)), SiloLineOf(t, logins)) + step;
      == { MapFilterSnoc(p, f, HasSilo(t, logins), SiloLineOf(t, logins)); }
        Map(Filter(p + [f], HasSilo(t, logins)), SiloLineOf(t, logins));
      == { assert folders == p + [f]; }
        Map(Filter(folders, HasSilo(t, logins)), SiloLineOf(t, logins));
      }
    }
  }

  /** A login's touches are part of the folder total, and two different
      positions' touches together are too. */
  lemma {:induction false} FolderTotalBounds(t: FolderTally, logins: seq<string>, folder: string, i: nat, j: nat)
    requires i < j < |logins|
    ensures Get(t.touches, (logins[i], folder)) + Get(t.touches, (logins[j], folder)) <= FolderTotal(t, logins, folder)
    decreases |logins|
  {
    var n := |logins| - 1;
    var p := logins[..n];
    if j < n {
      FolderTotalBounds(t, p, folder, i, j);
    } else {
      FolderTotalAtLeast(t, p, folder, i);
    }
  }

  lemma {:induction false} FolderTotalAtLeast(t: FolderTally, logins: seq<string>, folder: string, i: nat)
    requires i < |logins|
    ensures Get(t.touches, (logins[i], folder)) <= FolderTotal(t, logins, folder)
    decreases |logins|
  {
    var n := |logins| - 1;
    if i < n {
      FolderTotalAtLeast(t, logins[..n], folder, i);
    }
  }

  /** At most one contributor dominates a folder that has touches: two
      holders of 80% each would need 160% of the total. */
  lemma DominantUnique(t: FolderTally, logins: seq<string>, folder: string, i: nat, j: nat)
    requires i < j < |logins|
    requires FolderTotal(t, logins, folder) > 0
    ensures !Dominates(Get(t.touches, (logins[i], folder)), FolderTotal(t, logins, folder))
         || !Dominates(Get(t.touches, (logins[j], folder)), FolderTotal(t, logins, folder))
  {
    FolderTotalBounds(t, logins, folder, i, j);
  }

  /** The whole analysis: the first fifteen contributors, the given
      folders, the matrix with scores relative to the largest count, and
      the silo lines. Each cell holds its contributor's reference touches
      and lines in its folder; each score lies between 0 and 1. */
  function BuildKnowledgeMap(stats: seq<ContributorStats>, commits: seq<Commit>, topDirs: seq<string>): (r: KnowledgeMapReport)
    ensures r.contributors == ActiveLogins(stats) && r.folders == topDirs
    ensures |r.cells| == |r.contributors| * |topDirs|
    ensures Covered(r.cells, r.contributors, topDirs)
    ensures forall k :: 0 <= k < |r.cells| ==>
      && r.cells[k].login in r.contributors && r.cells[k].folder in topDirs
      && r.cells[k].commits == FileTouches(commits, r.cells[k].login, r.cells[k].folder)
      && r.cells[k].linesChanged == LinesTouched(commits, r.cells[k].login, r.cells[k].folder)
      && r.cells[k].scoreNum == r.cells[k].commits && 1 <= r.cells[k].scoreDen
      && r.cells[k].scoreNum <= r.cells[k].scoreDen
      && r.cells[k].scoreDen == MaxTouches(TallyCommits(commits, topDirs), r.contributors, topDirs)
    ensures r.knowledgeSilos == Silos(TallyCommits(commits, topDirs), r.contributors, topDirs)
    ensures r.cells == Cells(TallyCommits(commits, topDirs), r.contributors, topDirs,
                             MaxTouches(TallyCommits(commits, topDirs), r.contributors, topDirs))
  {
    var t := TallyCommits(commits, topDirs);
    var logins := ActiveLogins(stats);
    var max := MaxTouches(t, logins, topDirs);
    var cells := Cells(t, logins, topDirs, max);
    CellsFaithful(commits, topDirs, logins, max, cells);
    CopiesProduct(|logins|, |topDirs|);
    CellsCover(t, logins, topDirs, max);
    KnowledgeMapReport(logins, topDirs, cells, Silos(t, logins, topDirs))
  }

  lemma CellsFaithful(commits: seq<Commit>, topDirs: seq<string>, logins: seq<string>, max: nat, cells: seq<KnowledgeCell>)
    requires max == MaxTouches(TallyCommits(commits, topDirs), logins, topDirs)
    requires cells == Cells(TallyCommits(commits, topDirs), logins, topDirs, max)
    ensures forall k :: 0 <= k < |cells| ==>
      && cells[k].login in logins && cells[k].folder in topDirs
      && cells[k].commits == FileTouches(commits, cells[k].login, cells[k].folder)
      && cells[k].linesChanged == LinesTouched(commits, cells[k].login, cells[k].folder)
      && cells[k].scoreNum == cells[k].commits && 1 <= cells[k].scoreDen
      && cells[k].scoreNum <= cells[k].scoreDen && cells[k].scoreDen == max
  {
    var t := TallyCommits(commits, topDirs);
    CellsInside(t, logins, topDirs, max);
    forall k | 0 <= k < |cells|
      ensures cells[k].login in logins && cells[k].folder in topDirs
      ensures cells[k].commits == FileTouches(commits, cells[k].login, cells[k].folder)
      ensures cells[k].linesChanged == LinesTouched(commits, cells[k].login, cells[k].folder)
      ensures cells[k].scoreNum == cells[k].commits && 1 <= cells[k].scoreDen
      ensures cells[k].scoreNum <= cells[k].scoreDen && cells[k].scoreDen == max
    {
      var a :| 0 <= a < |logins| && logins[a] == cells[k].login;
      var b :| 0 <= b < |topDirs| && topDirs[b] == cells[k].folder;
      TallyCommitsSpec(commits, topDirs, logins[a], topDirs[b]);
    }
  }

  /** In a matrix scored against the largest count, a cell with touches
      means some cell scores exactly 1: the denominator is attained. */
  lemma MaxCellScoresOne(t: FolderTally, logins: seq<string>, folders: seq<string>, k: nat)
    ensures var cells := Cells(t, logins, folders, MaxTouches(t, logins, folders));
      k < |cells| && cells[k].commits > 0 ==> exists top :: ScoresOne(cells, top)
  {
    if MaxTouches(t, logins, folders) == 1 {
      UnitMaxScoresOne(t, logins, folders, k);
    } else {
      AttainedMaxScoresOne(t, logins, folders);
    }
  }

  /** With a denominator of 1, any cell with touches scores 1. */
  lemma UnitMaxScoresOne(t: FolderTally, logins: seq<string>, folders: seq<string>, k: nat)
    ensures var cells := Cells(t, logins, folders, 1);
      MaxTouches(t, logins, folders) == 1 && k < |cells| && cells[k].commits > 0 ==> ScoresOne(cells, k)
  {
    var cells := Cells(t, logins, folders, 1);
    if MaxTouches(t, logins, folders) == 1 && k < |cells| && cells[k].commits > 0 {
      CellsInside(t, logins, folders, 1);
      var a :| 0 <= a < |logins| && logins[a] == cells[k].login;
      var b :| 0 <= b < |folders| && folders[b] == cells[k].folder;
      assert cells[k] == MakeCell(t, logins[a], folders[b], 1);
    }
  }

  /** A denominator above 1 is some cell's count, and that cell scores 1. */
  lemma AttainedMaxScoresOne(t: FolderTally, logins: seq<string>, folders: seq<string>)
    ensures var max := MaxTouches(t, logins, folders);
      max != 1 ==> exists top :: ScoresOne(Cells(t, logins, folders, max), top)
  {
    var max := MaxTouches(t, logins, folders);
    if max != 1 {
      var i, j :| 0 <= i < |logins| && 0 <= j < |folders| && Get(t.touches, (logins[i], folders[j])) == max;
      var cells := Cells(t, logins, folders, max);
      CellPosition(t, logins, folders, max, i, j);
      var top := Copies(i, |folders|) + j;
      var cell := MakeCell(t, logins[i], folders[j], max);
      assert cells[top] == cell;
      assert cell.scoreNum == max == cell.scoreDen;
      assert ScoresOne(cells, top);
    }
  }

  /** Some contributor touched a folder, so the report's cell with the
      largest count scores exactly 1. */
  lemma TopCellScoresOne(stats: seq<ContributorStats>, commits: seq<Commit>, topDirs: seq<string>, k: nat)
    ensures var cells := BuildKnowledgeMap(stats, commits, topDirs).cells;
      k < |cells| && cells[k].commits > 0 ==> exists top :: ScoresOne(cells, top)
  {
    MaxCellScoresOne(TallyCommits(commits, topDirs), ActiveLogins(stats), topDirs, k);
  }

  /** Cell `top` scores exactly 1. */
  predicate ScoresOne(cells: seq<KnowledgeCell>, top: int) {
    0 <= top < |cells| && cells[top].scoreNum == cells[top].scoreDen
  }
}
