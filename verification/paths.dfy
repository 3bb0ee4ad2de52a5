/**
 * File paths as the analyses see them. Two conventions coexist: the people
 * analysis takes the first component of `PurePosixPath(fp).parts`, which
 * drops empty and "." components and keeps a leading root, while the
 * knowledge map takes the first piece of `fp.split("/")` verbatim.
 */
module Paths {

  import opened Strings

  /** The pieces that name a component: neither empty nor ".". */
  function Components(pieces: seq<string>): (r: seq<string>)
    ensures |r| <= |pieces|
    ensures forall k :: 0 <= k < |r| ==> r[k] != "" && r[k] != "." && r[k] in pieces
    ensures (forall k :: 0 <= k < |pieces| ==> pieces[k] != "" && pieces[k] != ".") ==> r == pieces
    decreases |pieces|
  {
    if |pieces| == 0 then []
    else
      var rest := Components(pieces[1..]);
      assert forall k :: 0 <= k < |rest| ==> rest[k] in pieces;
      if pieces[0] == "" || pieces[0] == "." then rest
      else
        assert pieces == [pieces[0]] + pieces[1..];
        [pieces[0]] + rest
  }

  /** The anchor of a POSIX path: exactly two leading slashes are kept as
      "//", one or three or more become "/", and a relative path has none. */
  function Root(fp: string): (root: string)
    ensures root in {"", "/", "//"}
    ensures root == "" <==> !StartsWith(fp, "/")
  {
    if StartsWith(fp, "//") && !StartsWith(fp, "///") then "//"
    else if StartsWith(fp, "/") then "/"
    else ""
  }

  /** `PurePosixPath(fp).parts`. */
  function Parts(fp: string): (parts: seq<string>)
    ensures Root(fp) == "" ==> parts == Components(Split(fp, '/'))
    ensures Root(fp) != "" ==> |parts| >= 1 && parts[0] == Root(fp) && parts[1..] == Components(Split(fp, '/'))
    ensures forall k :: 0 <= k < |parts| ==> parts[k] != "" && parts[k] != "."
  {
    var rel := Components(Split(fp, '/'));
    if Root(fp) == "" then rel else [Root(fp)] + rel
  }

  /** Folder of a file for the people analysis: the first path component
      when there is more than one, "." for a top-level file. */
  function FolderOf(fp: string): (folder: string)
    ensures folder != ""
    ensures |Parts(fp)| > 1 ==> folder == Parts(fp)[0]
    ensures |Parts(fp)| <= 1 ==> folder == "."
  {
    var parts := Parts(fp);
    if |parts| > 1 then parts[0] else "."
  }

  /** Folder of a file for the knowledge map: the text before the first "/",
      or "." when there is no "/". */
  function FirstSegment(fp: string): (folder: string)
    ensures '/' in fp ==> folder == fp[..IndexOf(fp, '/')]
    ensures '/' !in fp ==> folder == "."
  {
    SplitHead(fp, '/');
    var pieces := Split(fp, '/');
    if |pieces| > 1 then pieces[0] else "."
  }

  /** A relative path whose "/"-separated pieces are all proper names. */
  predicate Clean(fp: string) {
    && !StartsWith(fp, "/")
    && forall k :: 0 <= k < |Split(fp, '/')| ==> Split(fp, '/')[k] != "" && Split(fp, '/')[k] != "."
  }

  /** On clean paths the two conventions agree: the parts are the pieces of
      the split, and both folder functions give the same answer. */
  lemma CleanPathAgrees(fp: string)
    requires Clean(fp)
    ensures Parts(fp) == Split(fp, '/')
    ensures FolderOf(fp) == FirstSegment(fp)
  {
  }

  /** Joining the parts of a relative path yields a clean path with the same
      parts: normalisation is idempotent. */
  lemma NormalisedClean(fp: string)
    requires !StartsWith(fp, "/") && |Parts(fp)| >= 1
    ensures Clean(Join(Parts(fp), "/"))
    ensures Parts(Join(Parts(fp), "/")) == Parts(fp)
  {
    var parts := Parts(fp);
    assert forall k :: 0 <= k < |parts| ==> '/' !in parts[k] by {
      forall k | 0 <= k < |parts| ensures '/' !in parts[k] {
        assert parts[k] in Split(fp, '/');
      }
    }
    SplitJoin(parts, '/');
    var j := Join(parts, "/");
    assert Split(j, '/') == parts;
    assert parts[0] != "" && '/' !in parts[0];
    JoinStartsWith(parts, "/");
    assert j[0] == parts[0][0];
    assert !StartsWith(j, "/");
  }

  /** A join of several pieces starts with the first piece. */
  lemma JoinStartsWith(parts: seq<string>, sep: string)
    requires |parts| >= 1
    ensures StartsWith(Join(parts, sep), parts[0])
  {
  }

  /** Splits a path written as a join of slash-free pieces. */
  lemma SplitOf(fp: string, pieces: seq<string>)
    requires |pieces| >= 1 && forall k :: 0 <= k < |pieces| ==> '/' !in pieces[k]
    requires fp == Join(pieces, "/")
    ensures Split(fp, '/') == pieces
  {
    SplitJoin(pieces, '/');
  }

  /** The two conventions agree on a plain path. */
  lemma FolderExamplePlain()
    ensures FolderOf("src/app.py") == "src" && FirstSegment("src/app.py") == "src"
    ensures FolderOf("README.md") == "." && FirstSegment("README.md") == "."
  {
    NestedExample();
    TopLevelExample();
  }

  lemma NestedExample()
    ensures FolderOf("src/app.py") == "src" && FirstSegment("src/app.py") == "src"
  {
    SplitOf("src/app.py", ["src", "app.py"]);
    TwoPieces("src/app.py", "src", "app.py");
  }

  /** A relative path of two proper pieces has the first as its folder
      under both conventions. */
  lemma TwoPieces(fp: string, a: string, b: string)
    requires Split(fp, '/') == [a, b] && !StartsWith(fp, "/")
    requires a != "" && a != "." && b != "" && b != "."
    ensures FolderOf(fp) == a && FirstSegment(fp) == a
  {
  }

  lemma TopLevelExample()
    ensures FolderOf("README.md") == "." && FirstSegment("README.md") == "."
  {
    SplitOf("README.md", ["README.md"]);
  }

  lemma SplitDotExample()
    ensures Split("./src/app.py", '/') == [".", "src", "app.py"]
  {
    assert Join(["src", "app.py"], "/") == "src/app.py";
    assert Join([".", "src", "app.py"], "/") == "." + "/" + "src/app.py" == "./src/app.py";
    SplitOf("./src/app.py", [".", "src", "app.py"]);
  }

  lemma ComponentsDotExample()
    ensures Components([".", "src", "app.py"]) == ["src", "app.py"]
  {
    assert Components(["app.py"]) == ["app.py"];
    assert [".", "src", "app.py"][1..] == ["src", "app.py"];
    assert ["src", "app.py"][1..] == ["app.py"];
  }

  lemma RootDotExample()
    ensures Root("./src/app.py") == ""
  {
    assert "./src/app.py"[0] == '.';
  }

  lemma PartsDotExample()
    ensures Parts("./src/app.py") == ["src", "app.py"]
  {
    SplitDotExample();
    RootDotExample();
    ComponentsDotExample();
  }

  /** They part ways on a "./" prefix. */
  lemma FolderExampleDot()
    ensures FolderOf("./src/app.py") == "src" && FirstSegment("./src/app.py") == "."
  {
    SplitDotExample();
    PartsDotExample();
  }

  lemma SplitAbsoluteExample()
    ensures Split("/etc/hosts", '/') == ["", "etc", "hosts"]
  {
    assert Join(["etc", "hosts"], "/") == "etc/hosts";
    assert Join(["", "etc", "hosts"], "/") == "" + "/" + "etc/hosts" == "/etc/hosts";
    SplitOf("/etc/hosts", ["", "etc", "hosts"]);
  }

  lemma ComponentsAbsoluteExample()
    ensures Components(["", "etc", "hosts"]) == ["etc", "hosts"]
  {
    assert Components(["hosts"]) == ["hosts"];
    assert ["", "etc", "hosts"][1..] == ["etc", "hosts"];
    assert ["etc", "hosts"][1..] == ["hosts"];
  }

  lemma RootAbsoluteExample()
    ensures Root("/etc/hosts") == "/"
  {
    assert "/etc/hosts"[..1] == "/";
    assert "/etc/hosts"[1] == 'e';
  }

  lemma PartsAbsoluteExample()
    ensures Parts("/etc/hosts") == ["/", "etc", "hosts"]
  {
    SplitAbsoluteExample();
    RootAbsoluteExample();
    ComponentsAbsoluteExample();
  }

  /** And on an absolute path, where the root itself is the first part. */
  lemma FolderExampleAbsolute()
    ensures FolderOf("/etc/hosts") == "/" && FirstSegment("/etc/hosts") == ""
  {
    SplitAbsoluteExample();
    PartsAbsoluteExample();
  }
}
