# repo_inspector analytics core in Dafny

This project models the deterministic analytics of `repo_inspector`, a tool
that inspects a GitHub repository. Each analysis reads records that were
already fetched (commits, pull requests, issues, reviews, branches and
parsed dependency records) and builds a report:

- **people**: per-contributor statistics keyed by the identity rule
  (login, else email, else name). Contributors are sorted by commit count,
  each with their top five directories. The bus factor is the smallest
  prefix of contributors that covers 80% of the commits.
- **knowledge map**: a contributor-by-folder matrix of touches and changed
  lines, with a score per cell, plus the "knowledge silo" folders that one
  person dominates with 80% or more of the touches.
- **bus mitigation**: a risk level, the files each contributor owns alone
  (sorted, at most 20), and the knowledge monopolists.
- **what-if**: removing a contributor (statistics recomputed, orphaned files,
  affected areas) and deprecating a module (files and authors under a path
  prefix).
- **time machine**: two periods compared. It lists who joined and who left,
  and seven metric deltas with their rendered change strings.
- **stale branches**: branch age in whole days, the staleness filter, the
  name-based category, and the ahead/behind text.
- **review culture**: reviews per reviewer, approvals and rejections, the
  first-review delay credited to every reviewer of a pull request,
  bottleneck reviewers and review pairs.
- **changelog**: merged pull requests, then notable commits, given a
  category by keyword rules. Entries are de-duplicated by a lower-cased,
  stripped, 60-character key and rendered as grouped Markdown.
- **dependencies**: the report built from already-parsed dependency records.

One Dafny module stands for each source file. These are `Models`, `People`,
`KnowledgeMap`, `BusMitigation`, `WhatIf`, `TimeMachine`, `StaleBranches`,
`ReviewCulture`, `Changelog` and `Dependencies`.

Small library modules hold the Python behaviours the analyses rely on:

- `Strings`: ASCII `lower`/`upper`, `strip`, `split`/`join`, `startswith`,
  `in`, decimal rendering and parsing, and code-point order.
- `Seqs`: first-seen de-duplication, slicing `[:n]` and `sorted(set(...))`.
- `Sorting`: Python's stable sort by a negated integer key.
- `Tally`: a counting dictionary in insertion order.
- `Paths`: `PurePosixPath(...).parts` and the `split("/")` folder rule.
- `Wrappers`: `Option`.

Python dictionaries are modelled as sequences in insertion order, and sets
as duplicate-free sequences. Timestamps are integer seconds. Loops are
modelled as folds on the last element, so the fold follows the loop's
order. Most analyses are paired with an independent reference definition
(for example "the statistics of one login, computed from that login's
records alone"), and a lemma proves the fold equals it.

## Model

| member | source | states |
|---|---|---|
| Models.NewCommit | src/repo_inspector/models.py:26-43 | An empty short hash becomes the first seven characters of the full hash (all of it when shorter). A given short hash is kept. Every other field is stored as given. |
| Models.NewCommitIdempotent | src/repo_inspector/models.py:41-43 | Re-running the post-construction hook on a commit that already has a short hash returns the same commit. |
| Models.ShortShaExamples | src/repo_inspector/models.py:41-43 | "abc123def456" gets "abc123d", and "1234567890abcdef" gets "1234567". |
| Models.Identity | src/repo_inspector/analysis/people.py:25 | The identity is one of login, email and name. It is empty exactly when all three are empty. |
| Models.IdentityConsistent | src/repo_inspector/analysis/people.py:25 | Two commits with the same non-empty login have that login as identity, whatever their emails and names. |
| Models.IdentityFallback | src/repo_inspector/analysis/people.py:25 | Without a login the email decides. Without an email as well, the name decides. |
| Models.NewStats | src/repo_inspector/models.py:80-97 | A new statistics record has the given login, name and email, zero counters, empty lists and no dates. |
| Models.DisplaySeverity | src/repo_inspector/models.py:166-175 | The label is the severity icon, a space and the upper-cased severity value. |
| Models.DisplaySeverityInjective | src/repo_inspector/models.py:166-175 | Two findings with the same label have the same severity. |
| Models.DisplaySeverityCritical | src/repo_inspector/models.py:166-175 | A critical finding is labelled with the red circle and "CRITICAL". |
| Models.FindingCountBySeverity | src/repo_inspector/models.py:188-193 | The keys are exactly the severities that occur. Each count is that severity's number of occurrences, and the counts add up to the number of findings. |
| Tally.CountSpec | src/repo_inspector/models.py:188-193 | The counting dictionary has the input's distinct values as keys in first-seen order. Each count is that value's number of occurrences, and the counts total the input length. |
| Tally.Occurrences | src/repo_inspector/analysis/people.py:68-74 | A value's count is at most the input length. It is positive exactly when the value occurs. |
| Strings.Lower | src/repo_inspector/analysis/stale_branches.py:62 | Lower-casing keeps the length and maps each character on its own. |
| Strings.LowerIdempotent | src/repo_inspector/analysis/stale_branches.py:62 | A lower-cased text has no upper-case letter, and lower-casing it again changes nothing. |
| Strings.UpperIdempotent | src/repo_inspector/analysis/review_culture.py:51 | An upper-cased text has no lower-case letter, and upper-casing it again changes nothing. |
| Strings.ContainsAt | src/repo_inspector/analysis/stale_branches.py:63-67 | The substring test holds exactly when the substring occurs at some position. |
| Strings.Strip | src/repo_inspector/analysis/changelog.py:34 | Stripping removes exactly the leading and the trailing whitespace. The result starts and ends with a non-space. |
| Strings.StripIdempotent | src/repo_inspector/analysis/changelog.py:85 | Stripping a stripped text changes nothing. |
| Strings.Split | src/repo_inspector/analysis/knowledge_map.py:26 | Splitting gives at least one piece, and no piece holds the separator. |
| Strings.JoinSplit | src/repo_inspector/analysis/knowledge_map.py:26 | Joining the pieces of a split with the separator gives back the text. |
| Strings.SplitJoin | src/repo_inspector/analysis/knowledge_map.py:26 | Splitting a join of separator-free pieces gives back the pieces. |
| Strings.SplitHead | src/repo_inspector/analysis/knowledge_map.py:26-27 | There is more than one piece exactly when the separator occurs. The first piece is the text before the first separator. |
| Strings.NatToString | src/repo_inspector/analysis/stale_branches.py:53 | A rendered number is a non-empty string of digits with no leading zero. |
| Strings.ParseIntRoundTrip | src/repo_inspector/analysis/stale_branches.py:53 | Parsing the decimal rendering of any integer gives the integer back. |
| Strings.ParseSignedRoundTrip | src/repo_inspector/analysis/time_machine.py:54 | Parsing the explicitly signed rendering (`{:+d}`) of any integer gives the integer back. |
| Strings.NatToStringInjective | src/repo_inspector/analysis/stale_branches.py:53 | Different numbers render differently. |
| Strings.LessTotal | src/repo_inspector/analysis/time_machine.py:25 | String order (by code point) is total on different strings. Irreflexivity, asymmetry and transitivity are proved by the neighbouring lemmas. |
| Seqs.Dedup | src/repo_inspector/analysis/people.py:37-39 | First-seen de-duplication is duplicate-free, keeps exactly the input's members, and is no longer than the input. |
| Seqs.DedupFirstSeen | src/repo_inspector/analysis/people.py:37-39 | De-duplicated values appear in the order of their first occurrence in the input. |
| Seqs.DedupDistinct | src/repo_inspector/analysis/people.py:37-39 | De-duplicating a duplicate-free input changes nothing. |
| Seqs.AppendNewDedup | src/repo_inspector/analysis/people.py:37-39 | Appending the unseen values of a second list to a de-duplicated first list de-duplicates the concatenation. |
| Seqs.Take | src/repo_inspector/analysis/bus_mitigation.py:47 | The slice `[:n]` is the prefix of length min(n, len). |
| Seqs.TakeLeftOut | src/repo_inspector/analysis/bus_mitigation.py:47 | If a sorted list's slice leaves a member out, the slice is full and every kept member sorts before the left-out one. |
| Seqs.SortedSet | src/repo_inspector/analysis/dependencies.py:27 | `sorted(set(xs))` is strictly increasing and has exactly the members of xs. |
| Seqs.SortedListingUnique | src/repo_inspector/analysis/dependencies.py:27 | Two strictly increasing lists with the same members are equal, so `sorted(set(...))` depends only on the members. |
| Seqs.Minus | src/repo_inspector/analysis/time_machine.py:25-26 | The set difference holds exactly the members of the first collection that are not in the second. |
| Seqs.InFilter | src/repo_inspector/analysis/what_if.py:23-28 | A value survives the filter exactly when it was in the input and passes the condition. |
| Seqs.FilterAppend | src/repo_inspector/analysis/changelog.py:92-131 | Filtering a concatenation filters each part and concatenates the results. |
| Seqs.DedupFilter | src/repo_inspector/analysis/people.py:37-39 | De-duplicating in first-seen order and filtering commute. |
| Seqs.MapFilter | src/repo_inspector/analysis/what_if.py:23-31 | Mapping then filtering by an image condition equals filtering by the matching condition then mapping. |
| Seqs.MapFilterDistinct | src/repo_inspector/analysis/bus_mitigation.py:50-53 | Filtering a sequence whose images are pairwise distinct, then mapping it, gives a sequence without repeats. |
| Seqs.DistinctCons | src/repo_inspector/analysis/bus_mitigation.py:59-60 | Putting a new value in front of a sequence without repeats keeps it without repeats. |
| Sorting.SortDesc | src/repo_inspector/analysis/people.py:80 | Sorting by a negated key gives a non-increasing permutation of the input. |
| Sorting.SortStable | src/repo_inspector/analysis/people.py:80 | The sort is stable: the items sharing any one key keep their input order. |
| Sorting.TotalSort | src/repo_inspector/analysis/people.py:85 | Sorting does not change a sum over the items. |
| Sorting.SortFilter | src/repo_inspector/analysis/people.py:80 | The stable sort commutes with a filter: sorting the kept items gives the kept items of the sorted list, in the same order. |
| Paths.Parts | src/repo_inspector/analysis/people.py:70 | `PurePosixPath(fp).parts` is the root (if any), then the components without empty and "." pieces. |
| Paths.Root | src/repo_inspector/analysis/people.py:70 | A path has a root exactly when it starts with "/". The root is "/" or "//". |
| Paths.FolderOf | src/repo_inspector/analysis/people.py:70-74 | The directory of a file is its first part when it has more than one part, otherwise ".". |
| Paths.FirstSegment | src/repo_inspector/analysis/knowledge_map.py:26-27 | The folder of a file is the text before its first "/", or "." when there is none. |
| Paths.CleanPathAgrees | src/repo_inspector/analysis/people.py:70-74 | For a path without empty or "." pieces the two folder rules agree, and its parts are its "/"-pieces. |
| Paths.NormalisedClean | src/repo_inspector/analysis/people.py:70 | Joining the parts of a relative path gives a clean path with the same parts. |
| Paths.FolderExampleDot | src/repo_inspector/analysis/people.py:70-74 | "./src/app.py" is in "src" for the people analysis but in "." for the knowledge map. |
| Paths.FolderExampleAbsolute | src/repo_inspector/analysis/people.py:70-74 | "/etc/hosts" is in "/" for the people analysis but in "" for the knowledge map. |
| Paths.FolderExamplePlain | src/repo_inspector/analysis/people.py:70-74 | "src/app.py" is in "src" and "README.md" in "." under both rules. |
| People.CommitsBy | src/repo_inspector/analysis/people.py:24-25 | The commits attributed to a key all have that identity. There are none exactly when the key is no commit's identity. |
| People.FirstDate | src/repo_inspector/analysis/people.py:41-42 | The first-commit date is absent only without commits. Otherwise it is the earliest commit date. |
| People.LastDate | src/repo_inspector/analysis/people.py:43-44 | The last-commit date is absent only without commits. Otherwise it is the latest commit date. |
| People.PrsOpenedBy | src/repo_inspector/analysis/people.py:47-52 | A login's opened count is zero exactly when no pull request is theirs. |
| People.PrsMergedBy | src/repo_inspector/analysis/people.py:53-54 | A login never has more merged pull requests than opened ones. |
| People.IssuesOpenedBy | src/repo_inspector/analysis/people.py:57-62 | A login's opened-issue count is zero exactly when no issue is theirs. |
| People.IssuesClosedBy | src/repo_inspector/analysis/people.py:63-64 | A login never has more closed issues than opened ones. |
| People.CommitStepKnown | src/repo_inspector/analysis/people.py:32-44 | Another commit by a known contributor updates their record exactly as the reference recomputed with that commit. |
| People.CommitStepNew | src/repo_inspector/analysis/people.py:26-44 | The first commit of a contributor creates the record with that commit's name and email, then counts it. |
| People.CommitStepOther | src/repo_inspector/analysis/people.py:24-44 | A commit by someone else leaves a contributor's reference statistics unchanged. |
| People.FoldCommitsMatches | src/repo_inspector/analysis/people.py:24-44 | After the commit loop there is one record per identity, in first-seen order, and each equals that identity's reference statistics. |
| People.FoldPrsMatches | src/repo_inspector/analysis/people.py:47-54 | After the pull-request loop, the records still equal their references. Authors first seen on a pull request are appended in order. |
| People.FoldIssuesMatches | src/repo_inspector/analysis/people.py:57-64 | After the issue loop, the records still equal their references. Authors first seen on an issue are appended in order. |
| People.PassesMatch | src/repo_inspector/analysis/people.py:21-64 | The three loops together give exactly the reference record of every contributor key, in first-seen order. |
| People.FreshReference | src/repo_inspector/analysis/people.py:48-50 | A login with no commits, pull requests or issues has a fresh record. |
| People.PassesTotal | src/repo_inspector/analysis/people.py:33 | The commit counts of all records add up to the number of commits. |
| People.TopDirectories | src/repo_inspector/analysis/people.py:66-77 | There are at most five distinct directories, all from the touched files, ranked by count. A directory left out means the list is full and counts no more than every one listed. |
| People.RankedPrefix | src/repo_inspector/analysis/people.py:75-77 | The first five names of a ranked, duplicate-free count list are the best-counted directories. |
| People.ComputeContributorStats | src/repo_inspector/analysis/people.py:14-80 | The result is sorted by commit count, holds every contributor key exactly once with its reference statistics, and its commit counts total the number of commits. |
| People.ContributorOrderStable | src/repo_inspector/analysis/people.py:80 | Contributors with equal commit counts keep first-seen order. |
| People.BusFactor | src/repo_inspector/analysis/people.py:83-93 | The bus factor is 0 exactly when there are no commits. Otherwise its prefix covers 80% of the commits and no shorter prefix does. |
| People.BusFactorWith | src/repo_inspector/analysis/people.py:83-93 | The same for any rational threshold num/den. |
| People.ScanSpec | src/repo_inspector/analysis/people.py:88-93 | The scan from any position stops at the first prefix that covers the threshold, or at the end. |
| People.WholeListCovers | src/repo_inspector/analysis/people.py:93 | The whole list covers every threshold up to 1, so the final fallback is consistent. |
| People.CoversWeaker | src/repo_inspector/analysis/people.py:91 | A prefix that covers a threshold covers every lower one. |
| People.BusFactorMonotone | src/repo_inspector/analysis/people.py:83-93 | A lower threshold never gives a larger bus factor. |
| People.BusFactorExample | src/repo_inspector/analysis/people.py:83-93 | For commit counts 5, 3, 1, 1 the bus factor is 2. |
| WhatIf.CommitsWithout | src/repo_inspector/analysis/what_if.py:23-26 | The kept commits are exactly those whose identity is not the removed login. |
| WhatIf.PrsWithout | src/repo_inspector/analysis/what_if.py:27 | The kept pull requests are exactly those not by the removed login. |
| WhatIf.IssuesWithout | src/repo_inspector/analysis/what_if.py:28 | The kept issues are exactly those not by the removed login. |
| WhatIf.CommitsWithoutKeys | src/repo_inspector/analysis/what_if.py:23-26 | The identities of the kept commits are the original identities with the removed login filtered out, in order. |
| WhatIf.PrsWithoutKeys | src/repo_inspector/analysis/what_if.py:27 | The authors of the kept pull requests are the original authors with the removed login filtered out, in order. |
| WhatIf.IssuesWithoutKeys | src/repo_inspector/analysis/what_if.py:28 | The authors of the kept issues are the original authors with the removed login filtered out, in order. |
| WhatIf.ContributorKeysWithout | src/repo_inspector/analysis/what_if.py:23-31 | After the removal, the first-seen contributor keys are the old keys without the removed login, in the same order. |
| WhatIf.ReferencesWithout | src/repo_inspector/analysis/what_if.py:23-31 | Before sorting, the recomputed statistics are the old ones with the removed contributor filtered out, in the same order. |
| WhatIf.RemovalDropsOne | src/repo_inspector/analysis/what_if.py:23-31 | The recomputed, sorted statistics are exactly the old sorted statistics with the removed contributor's entry dropped, everything else unchanged and in the same order. |
| WhatIf.ReferenceWithout | src/repo_inspector/analysis/what_if.py:23-31 | Removing a contributor leaves every other contributor's statistics unchanged. |
| WhatIf.KeysWithout | src/repo_inspector/analysis/what_if.py:23-31 | After the removal, the contributor keys are the old ones minus the removed login. |
| WhatIf.RemovalStats | src/repo_inspector/analysis/what_if.py:30-31 | The recomputed statistics list every remaining contributor with unchanged figures, never the removed one, and only keys of the original records. |
| WhatIf.NoneLeft | src/repo_inspector/analysis/what_if.py:23-32 | No commits are left exactly when the removed login wrote them all. |
| WhatIf.BusFactorAfter | src/repo_inspector/analysis/what_if.py:31-32 | The bus factor after the removal is 0 exactly when the removed login wrote every commit. |
| WhatIf.RemovalBusFactor | src/repo_inspector/analysis/what_if.py:31-32 | The scenario's new bus factor is the bus factor of the recomputed statistics, which equals the bus factor of the old statistics with the removed contributor dropped. |
| WhatIf.FilesBy | src/repo_inspector/analysis/what_if.py:35-43 | The contributor's files and the others' files are exactly the changed files of their respective commits. |
| WhatIf.Orphaned | src/repo_inspector/analysis/what_if.py:45 | The orphaned files are sorted and are exactly the files only the removed login touched. |
| WhatIf.OrphansAreExclusive | src/repo_inspector/analysis/what_if.py:45 | The first 20 orphaned files of a login are the exclusive files the bus-mitigation report lists for that login. |
| WhatIf.TopLevelDirs | src/repo_inspector/analysis/what_if.py:47-52 | The affected areas are exactly the first "/"-pieces of orphaned paths that contain a "/". |
| WhatIf.AffectedAreas | src/repo_inspector/analysis/what_if.py:47-52 | The affected areas are sorted without repeats and are exactly the top-level folders of the sole-owned files that contain a "/". |
| WhatIf.ShownOrphans | src/repo_inspector/analysis/what_if.py:45-59 | The first 30 orphaned files are sorted and sole-owned; a sole-owned file left out means the list is full and every listed file sorts before it. |
| WhatIf.SimulateRemoveContributor | src/repo_inspector/analysis/what_if.py:14-61 | The scenario names the removal and keeps the current bus factor. The new bus factor is 0 exactly when the login wrote every commit. The orphaned files are the first 30 sole-owned files in sorted order. The areas are exactly the top-level folders of all sole-owned files containing '/', including files beyond the 30 shown. |
| WhatIf.InModuleIsPrefix | src/repo_inspector/analysis/what_if.py:76 | The double prefix test reduces to the bare prefix test. |
| WhatIf.InModuleSibling | src/repo_inspector/analysis/what_if.py:76 | A sibling directory sharing the prefix ("srcgen" for "src") counts as part of the module. |
| WhatIf.ModuleFiles | src/repo_inspector/analysis/what_if.py:73-80 | The module's files are exactly the changed paths that start with the module name. |
| WhatIf.ModuleAuthors | src/repo_inspector/analysis/what_if.py:70-77 | The affected contributors are exactly the identities of commits changing a path under the prefix. |
| WhatIf.SimulateDeprecateModule | src/repo_inspector/analysis/what_if.py:64-89 | The scenario lists, sorted, the first 30 module files and every affected contributor. Both bus factors are 0. |
| WhatIf.BuildWhatIfReport | src/repo_inspector/analysis/what_if.py:92-115 | The report holds removal scenarios for the first three contributors, then deprecation scenarios for the first three folders, in that order. |
| TimeMachine.Joined | src/repo_inspector/analysis/time_machine.py:22-25 | Joined logins are sorted and are exactly those in the new period but not the old. |
| TimeMachine.Departed | src/repo_inspector/analysis/time_machine.py:22-26 | Departed logins are sorted and are exactly those in the old period but not the new. |
| TimeMachine.DepartedIsJoinedReversed | src/repo_inspector/analysis/time_machine.py:25-26 | Departures are the joins with the periods swapped. |
| TimeMachine.ChurnDisjoint | src/repo_inspector/analysis/time_machine.py:25-26 | No login both joins and departs. |
| TimeMachine.NoChurn | src/repo_inspector/analysis/time_machine.py:25-26 | With the same logins in both periods, nobody joins or departs. |
| TimeMachine.RoundNearest | src/repo_inspector/analysis/time_machine.py:35 | The `.0f` rounding gives the nearest integer, and an even one on a tie. |
| TimeMachine.PercentChange | src/repo_inspector/analysis/time_machine.py:34-38 | The text is "N/A" exactly when the old value is not positive. Otherwise it is a signed whole percentage ending in "%" that reads back as the relative change rounded half-to-even from the exact ratio. |
| TimeMachine.PercentExamples | src/repo_inspector/analysis/time_machine.py:34-38 | 100 to 150 gives "+50%", and 8 to 9 gives "+12%". |
| TimeMachine.PercentSignExamples | src/repo_inspector/analysis/time_machine.py:34-38 | 1000 to 999 gives "-0%" (the sign survives a zero magnitude), and 0 to 7 gives "N/A". |
| TimeMachine.PercentTieExample | src/repo_inspector/analysis/time_machine.py:34-38 | 40 to 63 gives "+58%": the exact ratio 57.5 rounds to the even neighbour. |
| TimeMachine.PercentChangeText | src/repo_inspector/analysis/time_machine.py:34-38 | For a positive old value the text is the sign ("+" when the value did not fall), the decimal digits of the rounded percentage magnitude, then "%". |
| TimeMachine.IntChange | src/repo_inspector/analysis/time_machine.py:54 | The change text reads back as the signed difference. |
| TimeMachine.IntChangeText | src/repo_inspector/analysis/time_machine.py:54 | The `:+d` text is "+" for a non-negative difference and "-" otherwise, followed by the canonical decimal digits of the difference's magnitude. |
| TimeMachine.CountChange | src/repo_inspector/analysis/time_machine.py:96-104 | A churn count is rendered with the forced sign and reads back as that signed count. |
| TimeMachine.Deltas | src/repo_inspector/analysis/time_machine.py:39-106 | There are seven deltas, each holding its old and new values. The first change is the percentage text, the four count changes are the `:+d` texts of their differences, and the joined and departed changes are the forced-sign counts with old value 0. |
| TimeMachine.DeltasNamed | src/repo_inspector/analysis/time_machine.py:39-106 | The deltas carry the seven metric names in the fixed order. |
| TimeMachine.DeltasReadBack | src/repo_inspector/analysis/time_machine.py:49-106 | Every count change reads back as its difference, and the joined and departed changes read back as the signed counts. |
| TimeMachine.DeltasText | src/repo_inspector/analysis/time_machine.py:49-94 | Each count change is its sign followed by the canonical digits of the difference's magnitude. |
| TimeMachine.ChurnText | src/repo_inspector/analysis/time_machine.py:96-104 | The joined change is "+" then the count's digits, and the departed change is "-" then the count's digits. |
| TimeMachine.BuildTimeComparison | src/repo_inspector/analysis/time_machine.py:11-120 | The report's churn lists are the sorted set differences of the logins. Its commit counts are the totals, and its deltas are built from those figures. |
| TimeMachine.ComparisonExamples | src/repo_inspector/analysis/time_machine.py:59-88 | A bus factor going from 1 to 3 renders "+2", and findings going from 5 to 12 render "+7". |
| StaleBranches.DaysOld | src/repo_inspector/analysis/stale_branches.py:44 | The age is the whole number of days elapsed (rounded down), or 999 without a date. |
| StaleBranches.DaysOldMonotone | src/repo_inspector/analysis/stale_branches.py:44 | An older last commit never gives a smaller age. |
| StaleBranches.AheadBehindRoundTrip | src/repo_inspector/analysis/stale_branches.py:50-53 | The ahead/behind text reads back as the two counts. |
| StaleBranches.Categorize | src/repo_inspector/analysis/stale_branches.py:62-72 | The first keyword group matching the lower-cased name decides. A name matching none is an orphan when nothing is ahead, and abandoned otherwise. |
| StaleBranches.CategorizeCaseInsensitive | src/repo_inspector/analysis/stale_branches.py:62 | The category does not depend on letter case. |
| StaleBranches.RedundantKeywords | src/repo_inspector/analysis/stale_branches.py:65-67 | "hotfix" implies "fix" and "feature" implies "feat", so those two keywords never change the outcome. |
| StaleBranches.WipExample | src/repo_inspector/analysis/stale_branches.py:63-64 | "wip-experiment" is a work-in-progress branch. |
| StaleBranches.FeatureExample | src/repo_inspector/analysis/stale_branches.py:65-66 | "feature/login" is a stale feature branch. |
| StaleBranches.OrphanExample | src/repo_inspector/analysis/stale_branches.py:69-72 | "some-branch" is an orphan with nothing ahead, and abandoned with commits ahead. |
| StaleBranches.Entry | src/repo_inspector/analysis/stale_branches.py:49-83 | An entry keeps the name, date and author, the age in days, and the category its name and ahead count give. Its text reads back as the compared counts, and a branch with no comparison is "0 ahead, 0 behind" and never abandoned. |
| StaleBranches.Candidates | src/repo_inspector/analysis/stale_branches.py:25-83 | The entries are exactly those of the non-default branches at least `threshold` days old. |
| StaleBranches.CleanupCount | src/repo_inspector/analysis/stale_branches.py:91 | The cleanup count is the number of orphan and work-in-progress entries. |
| StaleBranches.BuildStaleBranchReport | src/repo_inspector/analysis/stale_branches.py:8-92 | The report counts every branch. It lists the reported branches oldest first, with equal ages kept in input order, and counts the cleanup candidates among them. |
| StaleBranches.DefaultNeverReported | src/repo_inspector/analysis/stale_branches.py:27-28 | The default branch is never listed. |
| StaleBranches.UndatedReported | src/repo_inspector/analysis/stale_branches.py:44-47 | An undated non-default branch is listed exactly when the threshold is at most 999. |
| StaleBranches.ThresholdExample | src/repo_inspector/analysis/stale_branches.py:44-47 | With the default 60-day threshold, a 90-day-old feature branch is listed, while a 10-day-old one and the default branch are not. |
| KnowledgeMap.TallyCommitsSpec | src/repo_inspector/analysis/knowledge_map.py:23-30 | For a tracked folder, a contributor's touch count is the number of their changed files in it. Their line count adds the commit's additions plus deletions once per such file. Untracked folders count nothing. |
| KnowledgeMap.ActiveLogins | src/repo_inspector/analysis/knowledge_map.py:33 | The active contributors are the logins of the first 15 statistics, in order. |
| KnowledgeMap.MaxTouches | src/repo_inspector/analysis/knowledge_map.py:37-42 | The denominator is at least 1, bounds every cell's count, and is 1 or attained by some cell. |
| KnowledgeMap.Cells | src/repo_inspector/analysis/knowledge_map.py:44-57 | There is one cell per (contributor, folder) pair. |
| KnowledgeMap.CellPosition | src/repo_inspector/analysis/knowledge_map.py:44-57 | The cell for contributor i and folder j sits at row-major position i·|folders| + j and holds their figures. |
| KnowledgeMap.CellsCover | src/repo_inspector/analysis/knowledge_map.py:44-57 | Every pair of an active contributor and a folder has a cell, zero-valued ones included. |
| KnowledgeMap.CellsFaithful | src/repo_inspector/analysis/knowledge_map.py:44-57 | Every cell holds its pair's touch and line counts, and a score count/max whose denominator is the largest touch count, between 0 and 1. |
| KnowledgeMap.MaxCellScoresOne | src/repo_inspector/analysis/knowledge_map.py:37-57 | In a cell matrix scored against the largest touch count, a cell with touches means some cell scores exactly 1. |
| KnowledgeMap.UnitMaxScoresOne | src/repo_inspector/analysis/knowledge_map.py:37-57 | With a largest touch count of 1, any cell with touches scores exactly 1. |
| KnowledgeMap.AttainedMaxScoresOne | src/repo_inspector/analysis/knowledge_map.py:37-57 | When the largest touch count is above 1, the cell that attains it scores exactly 1. |
| KnowledgeMap.TopCellScoresOne | src/repo_inspector/analysis/knowledge_map.py:37-57 | When any cell has touches, some cell scores exactly 1. |
| KnowledgeMap.FirstDominant | src/repo_inspector/analysis/knowledge_map.py:67-71 | The search returns the first contributor holding 80% or more of the folder's touches, or none when no one does. |
| KnowledgeMap.SiloFor | src/repo_inspector/analysis/knowledge_map.py:61-71 | A folder is a silo exactly when it has touches and some active contributor holds 80% of them. The line names the first such contributor. |
| KnowledgeMap.Silos | src/repo_inspector/analysis/knowledge_map.py:59-71 | The silo list holds exactly the silo lines of the tracked folders. |
| KnowledgeMap.SilosInOrder | src/repo_inspector/analysis/knowledge_map.py:59-71 | The silos are, in folder order, the silo lines of exactly the folders that have a dominating contributor. |
| KnowledgeMap.DominantUnique | src/repo_inspector/analysis/knowledge_map.py:67-71 | Two different contributors never both dominate one folder, so the `break` only saves work. |
| KnowledgeMap.FolderTotalAtLeast | src/repo_inspector/analysis/knowledge_map.py:62-64 | A folder's total is at least each contributor's share. |
| KnowledgeMap.BuildKnowledgeMap | src/repo_inspector/analysis/knowledge_map.py:13-78 | The report has the active contributors and the folders. Its cells are exactly the contributor-major cross-product of faithful cells, scored against the largest touch count. It has the silo lines. |
| BusMitigation.RiskLevel | src/repo_inspector/analysis/bus_mitigation.py:22-29 | The risk is critical up to 1, high at 2, medium at 3 and low above. |
| BusMitigation.RiskMonotone | src/repo_inspector/analysis/bus_mitigation.py:22-29 | A larger bus factor never gives a higher risk. |
| BusMitigation.Touches | src/repo_inspector/analysis/bus_mitigation.py:32-36 | The (identity, file) touches are exactly the pairs of a commit's identity with one of its files. |
| BusMitigation.FileOwnersMatch | src/repo_inspector/analysis/bus_mitigation.py:32-36 | The owner table lists each touched file once, in first-touch order. Its owners are exactly the identities that touched it, each once. |
| BusMitigation.SoleOwnedSpec | src/repo_inspector/analysis/bus_mitigation.py:39-43 | A file is listed under a login exactly when that login is the only one who touched it. |
| BusMitigation.SoleOwnedSound | src/repo_inspector/analysis/bus_mitigation.py:39-43 | Every file listed under a login was touched by that login and by no one else. |
| BusMitigation.SoleOwnedComplete | src/repo_inspector/analysis/bus_mitigation.py:39-43 | Every file touched by one login alone is listed under that login. |
| BusMitigation.ExclusiveFiles | src/repo_inspector/analysis/bus_mitigation.py:46-47 | A login's exclusive files are sorted, at most 20, and all sole-owned. One left out means the list is full and sorts before it. |
| BusMitigation.ExclusiveMap | src/repo_inspector/analysis/bus_mitigation.py:39-47 | There is one entry per owner, each with a non-empty list of exclusive files. Every sole owner has an entry. |
| BusMitigation.SoleOwnersInOrder | src/repo_inspector/analysis/bus_mitigation.py:39-43 | The sole owners come in file order, one for each file with exactly one owner. |
| BusMitigation.ExclusiveKeysInOrder | src/repo_inspector/analysis/bus_mitigation.py:39-47 | The dictionary is keyed by the sole owners of the single-owner files, de-duplicated in first-seen order over the files in first-touch order. |
| BusMitigation.Flagged | src/repo_inspector/analysis/bus_mitigation.py:50-53 | The flagged logins are exactly the scanned logins with more than five exclusive files. When the first entry qualifies, it comes first. |
| BusMitigation.LoginsWhereInOrder | src/repo_inspector/analysis/bus_mitigation.py:50-53 | The loop yields, in statistics order, the login of each entry that passes the test, and nothing else. |
| BusMitigation.FlaggedInOrder | src/repo_inspector/analysis/bus_mitigation.py:50-53 | The flagged logins are, in statistics order, the logins of exactly the entries with more than five exclusive files. |
| BusMitigation.FlaggedScanned | src/repo_inspector/analysis/bus_mitigation.py:50-53 | A login is flagged among the first ten entries exactly when one of the first ten carries it and has more than five exclusive files. |
| BusMitigation.Monopolists | src/repo_inspector/analysis/bus_mitigation.py:50-60 | The monopolists are exactly the flagged logins among the first ten, plus the top contributor when they hold over 60% of the commits. That contributor then comes first. |
| BusMitigation.MonopolistsOrder | src/repo_inspector/analysis/bus_mitigation.py:49-60 | The monopolists are the flagged logins in order. The top contributor is put in front only when they hold over 60% of the commits and were not flagged. |
| BusMitigation.MonopolistsDistinct | src/repo_inspector/analysis/bus_mitigation.py:56-60 | When the contributors have distinct logins, no monopolist is listed twice. |
| BusMitigation.MonopolistExample | src/repo_inspector/analysis/bus_mitigation.py:56-60 | With 90 of 100 commits, the top contributor leads the list even with no exclusive files. |
| BusMitigation.BuildBusMitigation | src/repo_inspector/analysis/bus_mitigation.py:12-67 | The report keeps the bus factor and carries the risk level of the four-way rule. It is critical exactly at 1 or below, and its monopolists and exclusive-file lists are exactly those the rules define. |
| ReviewCulture.Times | src/repo_inspector/analysis/review_culture.py:40-48 | The review times are exactly the timestamps present on the reviews. |
| ReviewCulture.Earliest | src/repo_inspector/analysis/review_culture.py:62 | The earliest time is one of the times and no later than any of them. |
| ReviewCulture.FirstReviewDelay | src/repo_inspector/analysis/review_culture.py:61-64 | A delay exists exactly when the earliest timed review is not before the pull request's creation. It is then the non-negative gap to that review. |
| ReviewCulture.VerdictOf | src/repo_inspector/analysis/review_culture.py:56-59 | A state counts as an approval exactly when it is "APPROVED", and as a rejection exactly for the two change-request spellings. |
| ReviewCulture.RejectionSpellings | src/repo_inspector/analysis/review_culture.py:51-59 | States are upper-cased first, so "changes_requested" is a rejection and "approved" an approval. |
| ReviewCulture.PrEvents | src/repo_inspector/analysis/review_culture.py:41-68 | Each review of a pull request gives one event. It has the reviewer (or "unknown"), the pull request's author, the verdict, and the pull request's first-review delay as credit. |
| ReviewCulture.EventsOrigin | src/repo_inspector/analysis/review_culture.py:33-59 | There is one event per review of a listed pull request, naming that review's reviewer and the pull request's author. |
| ReviewCulture.ReviewedCount | src/repo_inspector/analysis/review_culture.py:33-37 | At most every pull request is counted as reviewed, and none is exactly when no pull request has reviews. |
| ReviewCulture.FirstReviewDelays | src/repo_inspector/analysis/review_culture.py:61-65 | At most one delay is kept per reviewed pull request, and every kept delay is non-negative. |
| ReviewCulture.FirstReviewDelaysInOrder | src/repo_inspector/analysis/review_culture.py:61-65 | The delays are, in pull-request order, the first-review delays of exactly the pull requests that have reviews and a non-negative delay. |
| ReviewCulture.VerdictsBounded | src/repo_inspector/analysis/review_culture.py:56-59 | Approvals plus rejections never exceed the reviews given. |
| ReviewCulture.FoldEventsMatches | src/repo_inspector/analysis/review_culture.py:53-68 | After the event loop there is one tally per reviewer, in first-seen order. Each equals that reviewer's reference tally. |
| ReviewCulture.FoldEventsTotal | src/repo_inspector/analysis/review_culture.py:90 | The reviews given add up to the number of reviews. |
| ReviewCulture.ReviewerTable | src/repo_inspector/analysis/review_culture.py:70-87 | The reviewer table is sorted by reviews given, ties in first-seen order. It lists each reviewer once with their reference figures and sorted distinct authors, and its counts total the number of reviews. |
| ReviewCulture.ReviewerFacts | src/repo_inspector/analysis/review_culture.py:78-86 | In the report, each reviewer's verdicts fit within their reviews, and their authors are strictly sorted. |
| ReviewCulture.Bottlenecks | src/repo_inspector/analysis/review_culture.py:89-95 | The bottlenecks are exactly the reviewers with more than 40% of all reviews. |
| ReviewCulture.BottleneckEntriesInOrder | src/repo_inspector/analysis/review_culture.py:89-95 | The kept reviewer entries are, in reviewer order, exactly those passing the over-40% test. |
| ReviewCulture.BottlenecksInOrder | src/repo_inspector/analysis/review_culture.py:89-95 | The bottlenecks are, in reviewer order, the logins of exactly the reviewers with more than 40% of all reviews. |
| ReviewCulture.BottleneckShare | src/repo_inspector/analysis/review_culture.py:94 | Each bottleneck holds more than 40% of all reviews, so the bottlenecks together hold more than 40% per member. They never hold more than the total. |
| ReviewCulture.AtMostTwoBottlenecks | src/repo_inspector/analysis/review_culture.py:89-95 | At most two reviewers can be bottlenecks. |
| ReviewCulture.ReviewerPairs | src/repo_inspector/analysis/review_culture.py:100-102 | A reviewer's pairs are exactly the "@reviewer → @author" lines for authors other than the reviewer. |
| ReviewCulture.ReviewerPairsInOrder | src/repo_inspector/analysis/review_culture.py:100-102 | A reviewer's pairs are, in author order, the "@reviewer → @author" lines of exactly the authors other than the reviewer. |
| ReviewCulture.Pairs | src/repo_inspector/analysis/review_culture.py:98-102 | The pairs are exactly those of each listed reviewer with their first three authors, self-reviews excepted. |
| ReviewCulture.PairsAppend | src/repo_inspector/analysis/review_culture.py:98-102 | The pairs of two reviewer lists joined are the first list's pairs followed by the second's, so the outer loop keeps reviewer order. |
| ReviewCulture.PairsOne | src/repo_inspector/analysis/review_culture.py:99-102 | One reviewer contributes exactly their pairs with their first three authors. |
| ReviewCulture.ReviewPairs | src/repo_inspector/analysis/review_culture.py:97-115 | The kept pairs are the first ten of the pairs of the first five reviewers, in reviewer order. Each comes from one of those reviewers. |
| ReviewCulture.BuildReviewCulture | src/repo_inspector/analysis/review_culture.py:9-116 | The report has the reviewed count, the kept delays, the reviewer table, exactly the bottlenecks (at most two) and the capped pairs. |
| ReviewCulture.NoReviewsNoReviewers | src/repo_inspector/analysis/review_culture.py:33-37 | Without reviews the report is empty. |
| ReviewCulture.EarlyReviewAddsNothing | src/repo_inspector/analysis/review_culture.py:61-68 | A pull request reviewed before it was created adds no delay and credits no reviewer. |
| ReviewCulture.ExampleReport | src/repo_inspector/analysis/review_culture.py:33-95 | Bob approves Alice's pull request, and Alice rejects then approves Bob's. The table then holds both reviewers' exact figures, and Alice alone is a bottleneck. |
| Changelog.InferCategory | src/repo_inspector/analysis/changelog.py:56-77 | The category is that of the first rule that fires on the lower-cased text. |
| Changelog.FirstMatchIsFirst | src/repo_inspector/analysis/changelog.py:56-77 | Whatever rule fires first decides the category. |
| Changelog.RulesUnfold | src/repo_inspector/analysis/changelog.py:58-77 | The rules are tried in the order feat, fix, docs, refactor, test, chore, perf, ci, style. Anything else is a chore. |
| Changelog.FixPrefixWins | src/repo_inspector/analysis/changelog.py:59-62 | A lower-case text starting with "fix" without the letters a and w is a fix. |
| Changelog.ExampleFeature | src/repo_inspector/analysis/changelog.py:59-60 | "feat: add login" is a feature. |
| Changelog.ExampleFix | src/repo_inspector/analysis/changelog.py:61-62 | "fix: null deref" is a fix. |
| Changelog.PrEntries | src/repo_inspector/analysis/changelog.py:18-30 | Every merged pull request number appears exactly once. Each entry comes from a merged pull request. |
| Changelog.PrEntriesInOrder | src/repo_inspector/analysis/changelog.py:18-30 | The entries are those of the merged pull requests, in order, with only the first entry for each number kept. |
| Changelog.PrEntriesLast | src/repo_inspector/analysis/changelog.py:19-21 | One step of the loop: the last pull request adds its entry exactly when it is merged and its number has not been seen. |
| Changelog.CommitEntries | src/repo_inspector/analysis/changelog.py:33-48 | The commit entries are exactly those of the notable commits. |
| Changelog.CommitEntriesInOrder | src/repo_inspector/analysis/changelog.py:32-48 | The commit entries are, in commit order, the entries of exactly the notable commits. |
| Changelog.KeepMapInOrder | src/repo_inspector/analysis/changelog.py:33-48 | A loop that skips some items and appends an entry for each other one yields the entries of the kept items, in order. |
| Changelog.MergePrefixRedundant | src/repo_inspector/analysis/changelog.py:35 | The "Merge pull request" test is implied by the "Merge " test. |
| Changelog.ExampleSkipped | src/repo_inspector/analysis/changelog.py:34-39 | "bump deps" is too short, and a merge headline is skipped. "fix: null deref" is notable. |
| Changelog.FirstPositions | src/repo_inspector/analysis/changelog.py:82-89 | The positions kept are increasing, and are exactly those whose key did not occur earlier. |
| Changelog.DedupBy | src/repo_inspector/analysis/changelog.py:80-89 | The de-duplication keeps exactly the entries at first-occurrence positions of their key, in order. |
| Changelog.DedupBySnoc | src/repo_inspector/analysis/changelog.py:80-89 | Appending an item keeps it exactly when its key was not already among the kept keys. |
| Changelog.Deduplicate | src/repo_inspector/analysis/changelog.py:80-89 | Kept entries have distinct keys, every input key is kept, and each kept entry is the first with its key. |
| Changelog.DedupByDistinct | src/repo_inspector/analysis/changelog.py:80-89 | Entries whose keys already differ are all kept. |
| Changelog.DeduplicateIdempotent | src/repo_inspector/analysis/changelog.py:80-89 | De-duplicating twice is de-duplicating once. |
| Changelog.BuildChangelog | src/repo_inspector/analysis/changelog.py:6-53 | The entries are the description de-duplication of the pull-request entries followed by the commit entries. They have distinct keys, each comes from a merged pull request or a notable commit, and every candidate key is represented. |
| Changelog.BuildChangelogEntries | src/repo_inspector/analysis/changelog.py:15-51 | The entries are, exactly, the de-duplication of: the merged pull requests' entries, first per number, in order; then the notable commits' entries in order. |
| Changelog.BuildOrder | src/repo_inspector/analysis/changelog.py:51 | De-duplication keeps pull-request entries before commit entries. |
| Changelog.ItemsOf | src/repo_inspector/analysis/changelog.py:106-114 | A category's items are exactly the entries of that category, with their multiplicities and in order. |
| Changelog.GroupedPermutation | src/repo_inspector/analysis/changelog.py:113 | Every category occurs in the rendering order, so grouping by it loses and repeats no entry. |
| Changelog.PresentExactly | src/repo_inspector/analysis/changelog.py:113-116 | A section appears exactly for the categories that have entries. |
| Changelog.SectionLines | src/repo_inspector/analysis/changelog.py:114-127 | A category's section has one heading when it has items, then one entry line per item. |
| Changelog.MarkdownContents | src/repo_inspector/analysis/changelog.py:106-129 | The Markdown's entry lines are all entries grouped by category, each once. Its headings are those of the present categories, in the fixed order. |
| Changelog.RenderChangelog | src/repo_inspector/analysis/changelog.py:92-131 | The Markdown is the rendered lines joined by newlines and starts with the "# Changelog" header; the returned report holds it. |
| Changelog.ExampleZeroNumber | src/repo_inspector/analysis/changelog.py:120-124 | Pull request number 0 is falsy, so the short hash is shown instead. |
| Dependencies.BuildDependencyReport | src/repo_inspector/analysis/dependencies.py:7-27 | There is one entry per record, in order, with the record's fields. The count is the number of records, and the ecosystems are exactly the records' ecosystems, sorted. |
| Dependencies.InfoRoundTrip | src/repo_inspector/analysis/dependencies.py:16-21 | An entry gives its record back when the record had no present-but-empty field. |
| Dependencies.MissingIsEmpty | src/repo_inspector/analysis/dependencies.py:18-19 | An absent version or source file reads as the empty string. |
| Dependencies.EcosystemsOrderFree | src/repo_inspector/analysis/dependencies.py:27 | The ecosystem list depends only on which ecosystems occur. |

## Left out

- Fetching, cloning, the LLM narrative calls and all I/O are not part of this model. The records they produce are the inputs.
- `parse_dependencies` is not part of this model. `Dependencies.BuildDependencyReport` takes its output records as input.
- Date parsing (`datetime.fromisoformat`) is not modelled. Timestamps are integer seconds, and an unparseable branch or review date arrives as an absent value.
- A branch or review date without a timezone parses in the source, but subtracting it from the timezone-aware clock or creation time raises `TypeError` (stale_branches.py:44, review_culture.py:63). The model's timestamps carry no timezone, so this failure is not modelled. The hosting API always sends timezone-marked dates.
- StaleBranches.AheadOf: a compare entry whose `ahead_by` or `behind_by` is null reads as 0 here, giving "0 ahead" and, for an unmatched name, "orphan". The source keeps `None`, rendering "None ahead" and filing the branch as "abandoned" because `None != 0` (stale_branches.py:51-52, 69). The hosting API never sends null counts.
- The clock (`datetime.now`) is not modelled. "now" is a parameter of the stale-branch report.
- Floating point is not modelled; every threshold is exact rational arithmetic. The 80% bus-factor threshold, the 80% silo test, the 40% bottleneck test and the 60% top-share test are compared exactly. A float quotient that rounds across a threshold is not modelled.
- The knowledge score is kept as the exact ratio count/max. The `round(score, 3)` is left out.
- Review hours are kept as totals of seconds. The per-reviewer average, the overall average and their `round(..., 1)` are left out.
- `llm_summary`, `impact_summary` and `comments_per_review` are left out: no analysis fills them.
- `Timeframe.label` is left out: it only formats dates.
- Case mapping and whitespace are ASCII-only. Python's Unicode `lower`, `upper` and `strip` agree on ASCII text only.
- A review whose `user` is null makes the source fail (`None.get`). The model reads a missing login as "unknown", as for a missing `user` key.
- The `cat.title()` fallback label in the Markdown renderer cannot be reached, because every rendered category has a label. It is not modelled.
- `ChangelogEntry.scope` is never set by the analysis and is not modelled.
- The category labels are kept exactly as the source file spells them (emoji stored as mis-decoded text).
- `Changelog.RenderChangelog` returns the updated report together with the Markdown, instead of mutating its argument.
- People.TopDirectories: the contract does not state that ties keep first-seen folder order. The body sorts stably over first-seen keys, and `Sorting.SortStable` proves stability in general.
- TimeMachine.PercentChange: rounds the exact ratio 100·(new−old)/old half-to-even. The source formats a floating-point quotient, so on a near-tie the two can differ (40 to 63 is "+57%" in the source and "+58%" here).
