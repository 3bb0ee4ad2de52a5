/**
 * The time machine: two analysis periods side by side. It lists who joined
 * and who left, and seven metric deltas, each with a rendered change
 * string ("+15%", "-3", "N/A").
 */
module TimeMachine {

  import opened Wrappers
  import opened Strings
  import opened Seqs
  import opened Models
  import Sorting

  /** One metric in both periods and the rendered change. */
  datatype TimeComparisonDelta = TimeComparisonDelta(metric: string, oldValue: int, newValue: int, change: string)

  /** The comparison; the free-text summary is not modelled. */
  datatype TimeMachineReport = TimeMachineReport(
    oldTimeframe: Timeframe,
    newTimeframe: Timeframe,
    contributorChurn: seq<string>,
    contributorDeparted: seq<string>,
    busFactorOld: int,
    busFactorNew: int,
    commitCountOld: int,
    commitCountNew: int,
    findingsOld: int,
    findingsNew: int,
    deltas: seq<TimeComparisonDelta>)

  // ---------------------------------------------------------------------
  // Who joined, who left
  // ---------------------------------------------------------------------

  /** `sorted(new_logins - old_logins)`. */
  function Joined(oldStats: seq<ContributorStats>, newStats: seq<ContributorStats>): (joined: seq<string>)
    ensures StrictlySorted(joined)
    ensures forall x :: x in joined <==> x in Map(newStats, LoginOf) && x !in Map(oldStats, LoginOf)
  {
    SortedSet(Minus(Map(newStats, LoginOf), Map(oldStats, LoginOf)))
  }

  /** `sorted(old_logins - new_logins)`. */
  function Departed(oldStats: seq<ContributorStats>, newStats: seq<ContributorStats>): (departed: seq<string>)
    ensures StrictlySorted(departed)
    ensures forall x :: x in departed <==> x in Map(oldStats, LoginOf) && x !in Map(newStats, LoginOf)
  {
    SortedSet(Minus(Map(oldStats, LoginOf), Map(newStats, LoginOf)))
  }

  /** Leaving is joining with time run backwards. */
  lemma DepartedIsJoinedReversed(oldStats: seq<ContributorStats>, newStats: seq<ContributorStats>)
    ensures Departed(oldStats, newStats) == Joined(newStats, oldStats)
  {
    SortedListingUnique(Departed(oldStats, newStats), Joined(newStats, oldStats));
  }

  /** Nobody both joins and leaves. */
  lemma ChurnDisjoint(oldStats: seq<ContributorStats>, newStats: seq<ContributorStats>, x: string)
    ensures !(x in Joined(oldStats, newStats) && x in Departed(oldStats, newStats))
  {
  }

  lemma NoMembersEmpty(s: seq<string>)
    ensures (forall x :: x !in s) ==> s == []
  {
    if |s| > 0 {
      assert s[0] in s;
    }
  }

  /** With the same set of logins in both periods there is no churn. */
  lemma NoChurn(oldStats: seq<ContributorStats>, newStats: seq<ContributorStats>)
    requires forall x :: x in Map(oldStats, LoginOf) <==> x in Map(newStats, LoginOf)
    ensures Joined(oldStats, newStats) == [] && Departed(oldStats, newStats) == []
  {
    NoMembersEmpty(Joined(oldStats, newStats));
    NoMembersEmpty(Departed(oldStats, newStats));
  }

  // ---------------------------------------------------------------------
  // Rendering a change
  // ---------------------------------------------------------------------

  /** `num / den` rounded to the nearest integer, ties to the even one:
      the rule of Python's `.0f` formatting, applied here to the exact
      quotient rather than to a floating-point approximation of it. */
  function RoundHalfEven(num: nat, den: nat): (q: nat)
    requires den > 0
  {
    var lo := num / den;
    var twice := 2 * (num % den);
    if twice < den then lo
    else if twice > den then lo + 1
    else if lo % 2 == 0 then lo
    else lo + 1
  }

  /** The rounded quotient is within half a unit of the true one, and on a
      tie it is even. */
  lemma RoundNearest(num: nat, den: nat)
    requires den > 0
    ensures var q := RoundHalfEven(num, den);
      && 2 * num <= 2 * q * den + den
      && 2 * q * den <= 2 * num + den
      && (2 * num == 2 * q * den + den || 2 * q * den == 2 * num + den ==> q % 2 == 0)
  {
    var lo := num / den;
    var r := num % den;
    assert num == lo * den + r;
    assert 2 * (lo + 1) * den == 2 * lo * den + 2 * den;
    assert 2 * lo * den == 2 * (lo * den);
  }

  /** `f"{pct:+.0f}%"` of the relative change from `before` to `after`, or "N/A"
      when the old value is not positive. The sign is that of the exact
      change, so a small drop renders as "-0%", as Python prints a
      negative zero. The percentage is rounded from the exact ratio. */
  function PercentChange(before: int, after: int): (s: string)
    ensures s == "N/A" <==> before <= 0
    ensures before > 0 ==> |s| >= 3 && s[|s| - 1] == '%'
    ensures before > 0 && after >= before ==>
      ParseSigned(s[..|s| - 1]) == Some(RoundHalfEven(100 * (after - before), before) as int)
    ensures before > 0 && after < before ==>
      ParseSigned(s[..|s| - 1]) == Some(-(RoundHalfEven(100 * (before - after), before) as int))
  {
    if before <= 0 then "N/A"
    else
      var mag := RoundHalfEven(100 * Magnitude(after - before), before);
      var body := (if after >= before then "+" else "-") + NatToString(mag);
      ParseNatToString(mag);
      assert body[1..] == NatToString(mag);
      assert (body + "%")[..|body|] == body;
      body + "%"
  }

  /** The one way `f"{pct:+.0f}%"` writes the percentage: the sign of the
      change, the digits of the rounded magnitude without leading zeros,
      and "%". */
  lemma PercentChangeText(before: int, after: int)
    requires before > 0
    ensures var s := PercentChange(before, after);
      && s[0] == (if after >= before then '+' else '-')
      && s[1..|s| - 1] == NatToString(RoundHalfEven(100 * Magnitude(after - before), before))
  {
    var mag := RoundHalfEven(100 * Magnitude(after - before), before);
    var body := (if after >= before then "+" else "-") + NatToString(mag);
    assert (body + "%")[1..|body|] == NatToString(mag);
  }

  lemma PercentExamples()
    ensures PercentChange(100, 150) == "+50%"
    ensures PercentChange(8, 9) == "+12%"
  {
  }

  /** An exact tie rounds to even: 40 to 63 is a rise of exactly 57.5%. */
  lemma PercentTieExample()
    ensures PercentChange(40, 63) == "+58%"
  {
  }

  /** A small drop keeps its minus sign; no old commits gives "N/A". */
  lemma PercentSignExamples()
    ensures PercentChange(1000, 999) == "-0%"
    ensures PercentChange(0, 7) == "N/A"
  {
  }

  /** `f"{d:+d}"` of the difference `after - before`: a sign ("+" for
      zero) and the decimal digits of its magnitude. */
  function IntChange(before: int, after: int): (s: string)
    ensures ParseSigned(s) == Some(after - before)
  {
    ParseSignedRoundTrip(after - before);
    Signed(after - before)
  }

  /** The one way `f"{d:+d}"` writes a difference: its sign ("+" for zero)
      and the digits of its magnitude, without leading zeros. */
  lemma IntChangeText(before: int, after: int)
    ensures var s := IntChange(before, after);
      && |s| >= 2 && s[0] == (if after >= before then '+' else '-')
      && s[1..] == NatToString(Magnitude(after - before))
  {
    var s := IntChange(before, after);
    assert s[1..] == NatToString(Magnitude(after - before));
  }

  // ---------------------------------------------------------------------
  // Report
  // ---------------------------------------------------------------------

  /** `f"+{n}"` or `f"-{n}"`: a head count with a fixed sign, so that no
      departures read "-0". */
  function CountChange(sign: char, n: nat): (s: string)
    requires sign == '+' || sign == '-'
    ensures |s| >= 2 && s[0] == sign
    ensures ParseSigned(s) == Some(if sign == '+' then n as int else -(n as int))
  {
    var s := [sign] + NatToString(n);
    ParseNatToString(n);
    assert s[1..] == NatToString(n);
    s
  }

  function LinesOf(s: ContributorStats): int { s.linesAdded + s.linesRemoved }

  /** The metric names in the order the report lists them. */
  const Metrics: seq<string> := ["Commit Volume", "Contributors", "Bus Factor", "Lines Changed",
                                 "Code Findings", "Contributors Joined", "Contributors Departed"]

  /** A metric that moved from `before` to `after`, its change read back as
      the signed difference. */
  function IntDelta(metric: string, before: int, after: int): (d: TimeComparisonDelta)
    ensures d.metric == metric && d.oldValue == before && d.newValue == after
    ensures ParseSigned(d.change) == Some(after - before)
  {
    TimeComparisonDelta(metric, before, after, IntChange(before, after))
  }

  /** The seven deltas, in the report's order, from the two periods'
      totals and head counts. */
  function Deltas(oldCommits: int, newCommits: int, oldCount: nat, newCount: nat,
                  oldBusFactor: int, newBusFactor: int, oldLines: int, newLines: int,
                  oldFindings: int, newFindings: int, joined: nat, departed: nat): (d: seq<TimeComparisonDelta>)
    ensures |d| == |Metrics|
    ensures d[0].oldValue == oldCommits && d[0].newValue == newCommits
    ensures d[0].change == PercentChange(oldCommits, newCommits)
    ensures d[1].oldValue == oldCount && d[1].newValue == newCount
    ensures d[2].oldValue == oldBusFactor && d[2].newValue == newBusFactor
    ensures d[3].oldValue == oldLines && d[3].newValue == newLines
    ensures d[4].oldValue == oldFindings && d[4].newValue == newFindings
    ensures forall i :: 1 <= i < 5 ==> d[i].change == IntChange(d[i].oldValue, d[i].newValue)
    ensures d[5].oldValue == 0 && d[5].newValue == joined && d[5].change == CountChange('+', joined)
    ensures d[6].oldValue == 0 && d[6].newValue == departed && d[6].change == CountChange('-', departed)
  {
    var volume := TimeComparisonDelta(Metrics[0], oldCommits, newCommits, PercentChange(oldCommits, newCommits));
    var count := IntDelta(Metrics[1], oldCount, newCount);
    var bus := IntDelta(Metrics[2], oldBusFactor, newBusFactor);
    var lines := IntDelta(Metrics[3], oldLines, newLines);
    var findings := IntDelta(Metrics[4], oldFindings, newFindings);
    var join := TimeComparisonDelta(Metrics[5], 0, joined, CountChange('+', joined));
    var leave := TimeComparisonDelta(Metrics[6], 0, departed, CountChange('-', departed));
    [volume, count, bus, lines, findings, join, leave]
  }

  /** The deltas carry the metric names in the report's order. */
  lemma DeltasNamed(oldCommits: int, newCommits: int, oldCount: nat, newCount: nat,
                    oldBusFactor: int, newBusFactor: int, oldLines: int, newLines: int,
                    oldFindings: int, newFindings: int, joined: nat, departed: nat)
    ensures var d := Deltas(oldCommits, newCommits, oldCount, newCount, oldBusFactor, newBusFactor,
                            oldLines, newLines, oldFindings, newFindings, joined, departed);
      forall i :: 0 <= i < |Metrics| ==> d[i].metric == Metrics[i]
  {
  }

  /** Every count change reads back as the difference of its values, and
      the churn changes as the signed counts. */
  lemma DeltasReadBack(oldCommits: int, newCommits: int, oldCount: nat, newCount: nat,
                       oldBusFactor: int, newBusFactor: int, oldLines: int, newLines: int,
                       oldFindings: int, newFindings: int, joined: nat, departed: nat)
    ensures var d := Deltas(oldCommits, newCommits, oldCount, newCount, oldBusFactor, newBusFactor,
                            oldLines, newLines, oldFindings, newFindings, joined, departed);
      && (forall i :: 1 <= i < 5 ==> ParseSigned(d[i].change) == Some(d[i].newValue - d[i].oldValue))
      && ParseSigned(d[5].change) == Some(joined)
      && ParseSigned(d[6].change) == Some(-(departed as int))
  {
  }

  /** Each count change is written the one way Python writes it: the sign
      ("+" for no change) and then the digits of the magnitude, without
      leading zeros. */
  lemma DeltasText(oldCommits: int, newCommits: int, oldCount: nat, newCount: nat,
                   oldBusFactor: int, newBusFactor: int, oldLines: int, newLines: int,
                   oldFindings: int, newFindings: int, joined: nat, departed: nat)
    ensures var d := Deltas(oldCommits, newCommits, oldCount, newCount, oldBusFactor, newBusFactor,
                            oldLines, newLines, oldFindings, newFindings, joined, departed);
      forall i :: 1 <= i < 5 ==>
        && |d[i].change| >= 2 && d[i].change[0] == (if d[i].newValue >= d[i].oldValue then '+' else '-')
        && d[i].change[1..] == NatToString(Magnitude(d[i].newValue - d[i].oldValue))
  {
    var d := Deltas(oldCommits, newCommits, oldCount, newCount, oldBusFactor, newBusFactor,
                    oldLines, newLines, oldFindings, newFindings, joined, departed);
    forall i | 1 <= i < 5
      ensures |d[i].change| >= 2 && d[i].change[0] == (if d[i].newValue >= d[i].oldValue then '+' else '-')
      ensures d[i].change[1..] == NatToString(Magnitude(d[i].newValue - d[i].oldValue))
    {
      IntChangeText(d[i].oldValue, d[i].newValue);
    }
  }

  /** The churn counts are written with their fixed signs and the digits
      of the count. */
  lemma ChurnText(oldCommits: int, newCommits: int, oldCount: nat, newCount: nat,
                  oldBusFactor: int, newBusFactor: int, oldLines: int, newLines: int,
                  oldFindings: int, newFindings: int, joined: nat, departed: nat)
    ensures var d := Deltas(oldCommits, newCommits, oldCount, newCount, oldBusFactor, newBusFactor,
                            oldLines, newLines, oldFindings, newFindings, joined, departed);
      d[5].change == "+" + NatToString(joined) && d[6].change == "-" + NatToString(departed)
  {
  }

  /** Compares two periods: joined and departed logins, the commit totals,
      and seven deltas in a fixed order whose change strings read back as
      the differences of their values. */
  function BuildTimeComparison(oldStats: seq<ContributorStats>, newStats: seq<ContributorStats>,
                               oldTimeframe: Timeframe, newTimeframe: Timeframe,
                               oldBusFactor: int, newBusFactor: int,
                               oldFindings: int, newFindings: int): (r: TimeMachineReport)
    ensures r.oldTimeframe == oldTimeframe && r.newTimeframe == newTimeframe
    ensures forall x :: x in r.contributorChurn <==> x in Map(newStats, LoginOf) && x !in Map(oldStats, LoginOf)
    ensures forall x :: x in r.contributorDeparted <==> x in Map(oldStats, LoginOf) && x !in Map(newStats, LoginOf)
    ensures StrictlySorted(r.contributorChurn) && StrictlySorted(r.contributorDeparted)
    ensures r.busFactorOld == oldBusFactor && r.busFactorNew == newBusFactor
    ensures r.findingsOld == oldFindings && r.findingsNew == newFindings
    ensures r.commitCountOld == Sorting.Total(oldStats, CommitCountOf)
    ensures r.commitCountNew == Sorting.Total(newStats, CommitCountOf)
    ensures r.deltas == Deltas(r.commitCountOld, r.commitCountNew, |oldStats|, |newStats|, oldBusFactor, newBusFactor,
                               Sorting.Total(oldStats, LinesOf), Sorting.Total(newStats, LinesOf),
                               oldFindings, newFindings, |r.contributorChurn|, |r.contributorDeparted|)
  {
    var joined := Joined(oldStats, newStats);
    var departed := Departed(oldStats, newStats);
    var oldCommits := Sorting.Total(oldStats, CommitCountOf);
    var newCommits := Sorting.Total(newStats, CommitCountOf);
    var deltas := Deltas(oldCommits, newCommits, |oldStats|, |newStats|, oldBusFactor, newBusFactor,
                         Sorting.Total(oldStats, LinesOf), Sorting.Total(newStats, LinesOf),
                         oldFindings, newFindings, |joined|, |departed|);
    TimeMachineReport(oldTimeframe, newTimeframe, joined, departed, oldBusFactor, newBusFactor,
                      oldCommits, newCommits, oldFindings, newFindings, deltas)
  }

  /** The examples the repository's tests check: a bus factor going from
      1 to 3 reads "+2", findings from 5 to 12 read "+7", and commits from
      100 to 150 read "+50%". */
  lemma ComparisonExamples(tf: Timeframe)
    ensures var r := BuildTimeComparison([], [], tf, tf, 1, 3, 5, 12);
      r.deltas[2].change == "+2" && r.deltas[4].change == "+7"
    ensures PercentChange(100, 150) == "+50%"
  {
    var r := BuildTimeComparison([], [], tf, tf, 1, 3, 5, 12);
    assert r.deltas[2].change == Signed(2);
  }
}
