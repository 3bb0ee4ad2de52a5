/**
 * The dependency report: already-parsed dependency records become
 * dependency entries in input order, a missing version or source file
 * becoming the empty string, and the report lists the distinct
 * ecosystems in sorted order.
 */
module Dependencies {

  import opened Wrappers
  import opened Seqs

  /** A parsed dependency record; `version` and `source_file` may be absent. */
  datatype RawDependency = RawDependency(
    name: string,
    version: Option<string>,
    sourceFile: Option<string>,
    ecosystem: string)

  datatype DependencyInfo = DependencyInfo(
    name: string,
    version: string,
    sourceFile: string,
    ecosystem: string,
    isOutdated: bool,
    riskNotes: string)

  datatype DependencyReport = DependencyReport(
    dependencies: seq<DependencyInfo>,
    totalDeps: nat,
    ecosystems: seq<string>,
    llmSummary: string)

  /** `d.get(key, "")`. */
  function OrEmpty(v: Option<string>): string {
    if v.Some? then v.value else ""
  }

  /** The entry of one record, with the defaults of the record type. */
  function Info(d: RawDependency): DependencyInfo {
    DependencyInfo(d.name, OrEmpty(d.version), OrEmpty(d.sourceFile), d.ecosystem, false, "")
  }

  function EcosystemOf(d: RawDependency): string { d.ecosystem }

  /** `build_dependency_report`, its input being the parsed records: one
      entry per record in order, the count, and the sorted distinct
      ecosystems. */
  method BuildDependencyReport(raw: seq<RawDependency>) returns (report: DependencyReport)
    ensures report.totalDeps == |report.dependencies| == |raw|
    ensures forall i :: 0 <= i < |raw| ==> report.dependencies[i] == Info(raw[i])
    ensures report.ecosystems == SortedSet(Map(raw, EcosystemOf))
    ensures StrictlySorted(report.ecosystems)
    ensures forall x :: x in report.ecosystems <==> exists d :: d in raw && d.ecosystem == x
    ensures report.llmSummary == ""
    ensures |raw| == 0 ==> report.dependencies == [] && report.ecosystems == []
  {
    var seen: seq<string> := [];
    var deps: seq<DependencyInfo> := [];
    var i := 0;
    while i < |raw|
      invariant 0 <= i <= |raw|
      invariant |deps| == i
      invariant forall k :: 0 <= k < i ==> deps[k] == Info(raw[k])
      invariant seen == Map(raw[..i], EcosystemOf)
    {
      MapAppend(raw[..i], raw[i], EcosystemOf);
      assert raw[..i + 1] == raw[..i] + [raw[i]];
      seen := seen + [raw[i].ecosystem];
      deps := deps + [Info(raw[i])];
      i := i + 1;
    }
    assert raw[..i] == raw;
    var ecosystems := SortedSet(seen);
    forall x | x in ecosystems ensures exists d :: d in raw && d.ecosystem == x {
      var k :| 0 <= k < |seen| && seen[k] == x;
      assert raw[k] in raw;
    }
    forall x | exists d :: d in raw && d.ecosystem == x ensures x in ecosystems {
      var d :| d in raw && d.ecosystem == x;
      var k :| 0 <= k < |raw| && raw[k] == d;
      assert seen[k] == x;
    }
    report := DependencyReport(deps, |deps|, ecosystems, "");
  }

  /** The entry keeps everything of its record: reading absent fields
      back from the empty string restores the record, as long as no
      field was present and empty. */
  function Raw(info: DependencyInfo): (d: RawDependency)
    ensures d.name == info.name && d.ecosystem == info.ecosystem
  {
    RawDependency(
      info.name,
      if info.version == "" then None else Some(info.version),
      if info.sourceFile == "" then None else Some(info.sourceFile),
      info.ecosystem)
  }

  lemma InfoRoundTrip(d: RawDependency)
    requires d.version != Some("") && d.sourceFile != Some("")
    ensures Raw(Info(d)) == d
    ensures Info(Raw(Info(d))) == Info(d)
  {
  }

  /** An absent field and a present empty one give the same entry. */
  lemma MissingIsEmpty(name: string, eco: string)
    ensures Info(RawDependency(name, None, None, eco)) == Info(RawDependency(name, Some(""), Some(""), eco))
    ensures Info(RawDependency(name, None, None, eco)).version == ""
  {
  }

  /** The ecosystems depend only on which ecosystems occur, not on the
      order or the repetition of the records. */
  lemma EcosystemsOrderFree(a: seq<RawDependency>, b: seq<RawDependency>)
    requires forall x :: x in Map(a, EcosystemOf) <==> x in Map(b, EcosystemOf)
    ensures SortedSet(Map(a, EcosystemOf)) == SortedSet(Map(b, EcosystemOf))
  {
    SortedListingUnique(SortedSet(Map(a, EcosystemOf)), SortedSet(Map(b, EcosystemOf)));
  }
}
