# KubeVirt community tooling, modelled in Dafny

The kubevirt/community repository holds the project's governance data: `sigs.yaml` (special
interest groups, working groups, user groups and committees, with their leads, chairs,
subprojects and OWNERS file links), OWNERS and OWNERS_ALIASES files, and the org's member
lists. It also holds Go tools that check and use this data. This project models the logic
of five of those tools and proves properties about it:

- **OWNERS alias resolution** (`Owners`): `OwnersAliases.Resolve` expands reviewer and
  approver names through the alias map, one level deep, in input order.
- **Activity reports** (`Contributions`): the repository-scoped and organization-scoped
  user-activity reports. This covers their activity predicate `HasActivity`, the organization
  commit total `totalCommitCount`, and the temp-file pattern `GenerateLogFileName`.
- **Reporters** (`Report`): the report result shared by the reporters sorts users into
  active, inactive and skipped-by-reason. `DefaultReporter` and `InactiveOnlyReporter` fill
  that result in and append to the report log.
- **The SIG validator** (`SigsValidator`, over the data model in `Sigs` and `Orgs`): one pass
  over every group. It clears a directory that does not exist and a label the default label
  set lacks, and drops leads and chairs who are not org members. It also drops subproject
  OWNERS links that do not answer an HTTP HEAD with a 2xx status.
- **Devstats repository groups** (`Devstats`, with `StringOrder` for Go's `sort.Strings`):
  for each SIG, the `owner/repo` names its subprojects' OWNERS links point into, each once,
  in ascending order. SIGs with no repository are dropped. The first link that does not
  match the pattern aborts the run.

Everything that touches the environment is a parameter:

- `os.Stat` is a function from path to `StatResult`;
- `http.Head` is a function from URL to `HeadResult`;
- a contribution report is represented by its three answers: whether it has
  contributions, its summary, and what writing its activity log returned;
- org membership is `Orgs.HasMember`.

State the Go code changes in place is modelled by classes: `Sigs.Group`,
`Report.ReportResult`, `Report.Report` and the two reporters. Pure code is modelled by
functions and lemmas. Every method is proved against a specification function, and the
source's promises are proved about those functions.

Shared helpers:

- `Seqs.Filter` is the order-preserving filter behind every "keep the entries that pass"
  loop.
- `Wrappers` holds `Option` (nil pointers, missing map entries) and `Result` (error
  returns, and `log.Fatalf` in `extractRepoGroups`).

## Model

| member | source | states |
|---|---|---|
| Owners.Resolve | pkg/owners/types.go:33-44 | The loop's result is the concatenation, in input order, of each name's expansion: the alias's target list for an alias key, the name itself otherwise. Its length is the sum of those expansion lengths, computed independently. |
| Owners.ResolvedSingle | pkg/owners/types.go:36-41 | One alias key resolves to its stored target list in stored order; any other name resolves to itself. |
| Owners.ResolvedConcat | pkg/owners/types.go:35-42 | Resolving `x + y` gives the resolution of `x` followed by that of `y`, so output order follows input order and nothing is merged or removed. |
| Owners.InPlace | pkg/owners/types.go:35-42 | The name at each position is replaced in place by its expansion, between the resolutions of what precedes and what follows it. |
| Owners.ResolvedLength | pkg/owners/types.go:35-42 | The output has one entry per non-alias name and one entry per target of each alias key. |
| Owners.ResolvedMembership | pkg/owners/types.go:35-42 | A handle is in the output iff it is an input name that is not an alias key, or a target of an input alias key. |
| Owners.NoAliasIsIdentity | pkg/owners/types.go:36-40 | Without alias keys among the names, resolution returns the names unchanged: no sorting, de-duplication or dropping. |
| Owners.OneLevelOnly | pkg/owners/types.go:35-42 | For every input position holding an alias key, the output holds that key's target list verbatim, starting right after the resolution of the names before it. So a target that is itself an alias key reaches the output as it is, unexpanded. |
| Owners.OneLevelExample | pkg/owners/types.go:41 | Example: with "team" naming "subteam", itself an alias, the output holds "subteam" and not its target. |
| Contributions.RepositoryLogFigures | pkg/contributions/types.go:63-69 | The activity log prints six figures. |
| Contributions.RepositoryHasActivity | pkg/contributions/types.go:77-84 | HasActivity of a repository report: some issue or pull-request counter, or the default-branch commit total, is positive. RepositoryActivityIffPrintedFigure states its contract. |
| Contributions.RepositoryActivityIffPrintedFigure | pkg/contributions/types.go:77-84 | The repository report shows activity iff one of the six printed figures is positive. The printed commit figure is the same default-branch total that `HasActivity` tests. |
| Contributions.RepositoryActivityIgnoresSamples | pkg/contributions/types.go:77-84 | Two reports with the same counters agree on activity, whatever items they sampled. |
| Contributions.RepositoryLogFileName | pkg/contributions/types.go:73-75 | The pattern starts with "user-activity-" and the user name, ends with "-*.yaml", and has the length of its parts. |
| Contributions.RepositoryNameSingleWildcard | pkg/contributions/types.go:73-75 | When user, org and repo hold no `*`, the pattern's only `*` is the one just before ".yaml". |
| Contributions.RepositoryNameExtendsOrgName | pkg/contributions/types.go:74 | The repository pattern is the organization pattern with `org_repo` in place of the org. |
| Contributions.TotalCommitCount | pkg/contributions/types.go:132-138 | The loop returns the sum of the repositories' commit totals, 0 for no repositories. With non-negative totals, the sum is positive iff some repository has a commit. |
| Contributions.CommitSum | pkg/contributions/types.go:132-138 | The value totalCommitCount computes, summed over the repository nodes. TotalCommitCount, CommitSumConcat and CommitSumPositive state its properties. |
| Contributions.CommitSumConcat | pkg/contributions/types.go:132-138 | The commit total over a concatenation is the sum of the totals of the parts. |
| Contributions.CommitSumPositive | pkg/contributions/types.go:132-138 | With non-negative totals, the sum is non-negative, and positive iff some repository's total is. |
| Contributions.OrgLogFigures | pkg/contributions/types.go:122-128 | The organization log prints six figures; the last is `totalCommitCount`. |
| Contributions.OrgHasActivity | pkg/contributions/types.go:144-151 | HasActivity of an organization report: some issue or pull-request counter, or totalCommitCount, is positive. OrgActivityIffPrintedFigure states its contract. |
| Contributions.OrgActivityIffPrintedFigure | pkg/contributions/types.go:144-151 | The organization report shows activity iff one of the printed figures is positive. With non-negative totals, that is iff some issue/PR counter or some repository's commit total is positive. |
| Contributions.OrgActivityIgnoresSamples | pkg/contributions/types.go:144-151 | Two organization reports that print the same figures agree on activity, whatever items they sampled. |
| Contributions.OrgLogFileName | pkg/contributions/types.go:140-142 | The pattern starts with "user-activity-" and the user name, ends with "-*.yaml", and has the length of its parts. |
| Contributions.OrgNameSingleWildcard | pkg/contributions/types.go:140-142 | When user and org hold no `*`, the pattern's only `*` is the one just before ".yaml". |
| Report.AfterSkip | generators/cmd/contributions/report.go:35-40 | After SkipUser, the map has the old keys plus the reason, and the reason's list is the old list (empty if missing) with the user appended. Every other reason keeps its list. |
| Report.SkipPlacesUser | generators/cmd/contributions/report.go:35-40 | Skipping adds the user once to the reason's list and nowhere else. Active users, inactive users, the log and all other reasons' lists are unchanged. |
| Report.InactiveOnlyPlacesUser | generators/cmd/contributions/report.go:109-124 | A report with no error puts the user into exactly one of active and inactive, once. An error is returned iff the user is inactive and the write fails, and then both lists are unchanged. An active user goes to the active list only. Skipped users are never touched. |
| Report.InactiveOnlyLog | generators/cmd/contributions/report.go:115-123 | The log gains nothing for an active user. On a failed write it gains the summary only, and the error is "failed to write file: " plus the write error. On a successful write it gains the summary, then the "activity log written to" line, and the user is appended to inactive users. |
| Report.ReportResult.constructor | generators/cmd/contributions/report.go:53 | A new result has no active, inactive or skipped users, and its skipped map is nil. |
| Report.ReportResult.SkipUser | generators/cmd/contributions/report.go:35-40 | Creates the map when nil and appends the user to the reason's list (AfterSkip). Nothing else is modified. |
| Report.Report.constructor | generators/cmd/contributions/report.go:49-55 | NewReportWithConfiguration: a fresh result with empty lists and a nil skipped map, and an empty log. |
| Report.DefaultReporter.constructor | generators/cmd/contributions/report.go:68-72 | A new default reporter holds a fresh, empty report. |
| Report.DefaultReporter.Skip | generators/cmd/contributions/report.go:74-76 | The report's state becomes exactly SkipUser(reason, user) of the old state. |
| Report.DefaultReporter.Report | generators/cmd/contributions/report.go:78-85 | Returns an error iff the write fails, with the text "failed to write file: " plus the write error. Changes no state. |
| Report.DefaultReporter.Summary | generators/cmd/contributions/report.go:87-89 | Always the empty string. |
| Report.InactiveOnlyReporter.constructor | generators/cmd/contributions/report.go:103-107 | A new inactive-only reporter holds a fresh, empty report. |
| Report.InactiveOnlyReporter.Skip | generators/cmd/contributions/report.go:99-101 | The report's state becomes exactly SkipUser(reason, user) of the old state. |
| Report.InactiveOnlyReporter.Report | generators/cmd/contributions/report.go:109-124 | The new state and the returned error are those of InactiveOnlyStep on the old state. InactiveOnlyPlacesUser and InactiveOnlyLog state what that step does. |
| Orgs.HasMember | pkg/orgs/types_test.go:24-164 | True iff the handle equals some admin or member, ignoring ASCII case. |
| Orgs.HasMemberIgnoresCase | pkg/orgs/types_test.go:77-151 | Two handles that differ only in case have the same membership. |
| Orgs.HasMemberExamples | pkg/orgs/types_test.go:39-151 | The test cases: exact, lower-case and upper-case member and admin handles are found. |
| SigsValidator.ValidatedGroupKeeps | validators/cmd/sigs/sigs-validator.go:116-188 | A pass changes nothing but directory, label, leads, chairs and subproject owners/leads. Name, description, mission, meetings, contact, leadership presence, subproject count and names are kept. |
| SigsValidator.ValidatedDir | validators/cmd/sigs/sigs-validator.go:119-129 | The directory is kept or cleared. It survives iff it is non-empty and stat reports a directory. |
| SigsValidator.ValidatedLabel | validators/cmd/sigs/sigs-validator.go:131-144 | The label is kept or cleared. It survives iff it is non-empty and some default label has that name. Repository-specific label sets have no influence. |
| SigsValidator.ValidatedMembers | validators/cmd/sigs/sigs-validator.go:146-168 | A lead is kept iff the org has the handle, each kept lead as often as before. When a leadership record exists, a chair is kept iff the org has the handle. |
| SigsValidator.ValidatedSubProjectMembers | validators/cmd/sigs/sigs-validator.go:170-187 | A subproject keeps its name and description. It keeps exactly the leads the org has and the OWNERS links whose HEAD gave no error and a status in [200, 300). |
| SigsValidator.ValidatedSubProjectIdempotent | validators/cmd/sigs/sigs-validator.go:170-206 | A second pass over a validated subproject changes nothing. |
| SigsValidator.ValidatedGroupIdempotent | validators/cmd/sigs/sigs-validator.go:116-188 | A second pass over a validated group changes nothing, given the same file system, HTTP answers and org. |
| SigsValidator.ValidatorScenarios | validators/cmd/sigs/sigs-validator_test.go:44-367 | The test cases: a missing directory and a file in place of a directory are cleared, and a label only a repository set has is cleared. A chair the org lacks is dropped, leaving an empty leadership record, and a link answering 404 is dropped. |
| SigsValidator.LabelExists | validators/cmd/sigs/sigs-validator.go:133-139 | The loop finds the label iff some default label has that name. |
| SigsValidator.CheckedMembers | validators/cmd/sigs/sigs-validator.go:147-155 | The loop returns the order-preserving subsequence of entries whose handle the org has. |
| SigsValidator.ValidateOwnersReferences | validators/cmd/sigs/sigs-validator.go:190-206 | Returns the order-preserving subsequence of links that answered HEAD with a 2xx status. A link is in it iff it was in the input and answered so. |
| SigsValidator.ValidateSubProjects | validators/cmd/sigs/sigs-validator.go:170-187 | Each subproject's owners and leads become the validated ones. The list keeps its length and order. |
| SigsValidator.CheckDir | validators/cmd/sigs/sigs-validator.go:119-129 | The directory becomes the checked directory; only that field changes. |
| SigsValidator.CheckLabel | validators/cmd/sigs/sigs-validator.go:131-144 | The label becomes the checked label; only that field changes. |
| SigsValidator.CheckChairs | validators/cmd/sigs/sigs-validator.go:157-168 | A nil leadership stays nil; otherwise the chairs are filtered by org membership. |
| SigsValidator.ValidateGroup | validators/cmd/sigs/sigs-validator.go:116-188 | The group's new value is ValidatedGroup of its old value. The lemmas above state what that is. |
| SigsValidator.ValidateGroups | validators/cmd/sigs/sigs-validator.go:78-80 | Every group of a collection of distinct groups ends up validated exactly once. |
| SigsValidator.AllGroupsApart | validators/cmd/sigs/sigs-validator.go:78-92 | Distinct groups over sigs.yaml make each collection distinct and the four collections disjoint. |
| SigsValidator.ValidateSigs | validators/cmd/sigs/sigs-validator.go:76-92 | Every group of the four collections ends up validated once against the "kubevirt" org, or against an org with no admins or members when that entry is missing. |
| StringOrder.LessIrreflexive | generators/cmd/devstats/main.go:122 | No string sorts before itself. |
| StringOrder.LessTransitive | generators/cmd/devstats/main.go:122 | The order is transitive. |
| StringOrder.LessTotal | generators/cmd/devstats/main.go:122 | Two different strings are ordered one way or the other. |
| StringOrder.SortStrings | generators/cmd/devstats/main.go:122 | sort.Strings returns an ascending permutation of its input. |
| StringOrder.StrictlySortedUnique | generators/cmd/devstats/main.go:118-123 | Two strictly ascending lists with the same elements are equal, so the sorted repository list is determined by the repository set. |
| Devstats.MatchRepoName | generators/cmd/devstats/main.go:62 | The first submatch of the pattern, as `FindStringSubmatch` yields it at lines 105-109, or none when the link does not match. MatchRawUrl and MatchIsRawUrl state together which links match and what they capture. |
| Devstats.MatchRawUrl | generators/cmd/devstats/main.go:62 | Every `https://raw?githubusercontent?com/owner/repo/tail` matches and captures `owner/repo`. Here `?` is any character but a newline, owner and repo are non-empty and slash-free, and the tail has no newline. |
| Devstats.MatchIsRawUrl | generators/cmd/devstats/main.go:62 | Conversely, every matching link has that form and captures its `owner/repo`. |
| Devstats.RawUrlExamples | generators/cmd/devstats/main.go:62 | A usual raw-GitHub OWNERS link captures "kubevirt/kubevirt". Because the dots are unescaped, so does the same link with other characters in place of the two dots. |
| Devstats.GithubLinkRejected | generators/cmd/devstats/main.go:62 | A github.com link does not match. |
| Devstats.EmptyRepoRejected | generators/cmd/devstats/main.go:62 | A path with an empty repository segment does not match. |
| Devstats.RepoNamesFailure | generators/cmd/devstats/main.go:104-108 | The extraction aborts iff some link does not match, and reports the first such link. |
| Devstats.RepoNamesCaptures | generators/cmd/devstats/main.go:104-112 | On success, the repository set is exactly the set of names captured from the links. |
| Devstats.RepoNamesFailureSticks | generators/cmd/devstats/main.go:105-108 | Once a link fails, later links change nothing. |
| Devstats.NoRefsNoGroup | generators/cmd/devstats/main.go:115-117 | A SIG without OWNERS links contributes no group. |
| Devstats.ExpectedGroupsConcat | generators/cmd/devstats/main.go:97-125 | The groups of two runs of SIGs are the first run's groups followed by the second's: output order follows SIG order. |
| Devstats.ExpectedGroupsNonEmpty | generators/cmd/devstats/main.go:115-117 | Every group has at least one repository, and there are no more groups than SIGs. |
| Devstats.ExpectedGroupsAllRefs | generators/cmd/devstats/main.go:97-127 | Running the SIGs one after another fails exactly as one run over all their links, in SIG order, and with the same link. |
| Devstats.ExpectedGroupsFailure | generators/cmd/devstats/main.go:97-127 | The extraction over all SIGs fails iff some link of some SIG does not match. It then reports the first such link in SIG order, and within a SIG in subproject and link order. |
| Devstats.ExpectedGroupsFailureSticks | generators/cmd/devstats/main.go:105-108 | Once a SIG fails, later SIGs change nothing. |
| Devstats.AddRepoNames | generators/cmd/devstats/main.go:104-113 | The inner loop adds the captured names of one subproject's links to the set, or aborts at the first link that does not match. |
| Devstats.CollectRepoNames | generators/cmd/devstats/main.go:102-114 | The subproject loop returns the repository set of all the SIG's links, or the first failing link. |
| Devstats.SortedRepos | generators/cmd/devstats/main.go:118-123 | The collected and sorted list is strictly ascending and holds exactly the set's names. |
| Devstats.SigRepoGroup | generators/cmd/devstats/main.go:98-124 | One SIG fails iff its links fail, with the same link. Otherwise it gives no group iff it has no repository, and else a group with its name, its directory as alias and its repositories listed once each, ascending. |
| Devstats.ExtractRepoGroups | generators/cmd/devstats/main.go:95-127 | Fails iff the specification of the groups fails, with the same link. By ExpectedGroupsFailure, that is iff some link of some SIG does not match, reporting the first. Otherwise it returns, per SIG with a repository and in SIG order, the name, the directory as alias and the repositories once each, ascending. Working groups, user groups and committees are ignored. |

## Left out

- All I/O:
  - the GraphQL queries and their data types;
  - the retry wrapper;
  - reading and writing YAML files;
  - `os.CreateTemp` and the activity-log writer;
  - printing summaries to standard output;
  - logging (`logrus` and `log`);
  - the dry-run branch and file write-back of the validator (validators/cmd/sigs/sigs-validator.go:94-112).
- Flag parsing and the binaries' `main` functions, except the validator's four collection loops (validators/cmd/sigs/sigs-validator.go:76-92). The validator test calls these loops as `validateGroups`, and `SigsValidator.ValidateSigs` models them.
- The wall clock, `StartFrom` and date formatting.
- `GenerateActivityLog`'s text: only its six figures are modelled, in `RepositoryLogFigures` and `OrgLogFigures`.
- Real `os.Stat` and `http.Head`: they are oracle parameters. The 2xx check on the status stays in the model.
- `contributions.ContributionReport`, which report.go uses, is not part of this model. Its `HasContributions`, `Summary` and `WriteToFile` answers are the fields of `Report.ContributionReport`.
- `InactiveOnlyReporter.Summary`, because it serializes the inactive users with `yaml.Marshal`.
- Both reporters' `Full()` accessors, because they only return the held report.
- The report options and configuration that `Report` carries, because nothing in the modelled code reads them.
- `generateRepoGroupsSQL`, because it renders an embedded template that is not part of this model. The devstats template test therefore has no counterpart.
- pkg/orgs/types.go is not part of this model. `Orgs.HasMember` follows its tests. Case is folded for ASCII letters only; Go's `strings.EqualFold` also folds other Unicode letters.
- Contributions.TotalCommitCount: does not model Go's 64-bit `int` overflow; the sum is unbounded.
- Report.WrittenLine: puts the file name between plain double quotes, without `%q` escaping.
- Nil versus empty slices are not distinguished: a Go nil slice and an empty one are both `[]`. A nil map and a nil leadership pointer are distinguished with `Option`.
- Pointer aliasing inside groups. Subprojects and the leadership record are held by value in `Sigs.Group`. Groups are objects, and the validator methods require the groups to be distinct, as a YAML decoder builds them.
- SigsValidator.CheckedLabel, SigsValidator.CheckLabel, SigsValidator.ValidateGroup, SigsValidator.ValidateGroups, SigsValidator.ValidateSigs: require a default label set whenever a group has a non-empty label. The source dereferences it unconditionally there and would panic on a nil one.
- Devstats.ExtractRepoGroups: `log.Fatalf` on a link that does not match is modelled as a `Failure` carrying that link, not as process exit.
- StringOrder.Less: orders strings by code point. Go's byte-wise order on UTF-8 agrees with that for strings of Unicode scalar values; invalid UTF-8 is not modelled.
- The devstats pattern is modelled as written: its two dots are unescaped and match any character but a newline.
