/** The two activity-report variants of pkg/contributions/types.go, reduced to what
    the activity predicate, the commit total and the log file name look at. */
module Contributions {

  /** One sampled issue, pull request or commit of a query result. The sample is
      bounded by the query's `first` limit; the counters give the true totals. */
  datatype SampledItem = SampledItem(number: int, title: string, url: string)

  /** A search result: the total match count and a bounded sample of the matches. */
  datatype Search = Search(issueCount: int, nodes: seq<SampledItem>)

  /** A default-branch commit history: the total commit count and a sample of commits. */
  datatype History = History(totalCount: int, nodes: seq<SampledItem>)

  /** One repository of the organization with the user's history on its default branch. */
  datatype RepositoryNode = RepositoryNode(name: string, history: History)

  /** UserActivityReportInRepository; `commitsByUser` stands for
      CommitsByUser.DefaultBranchRef.Target.Fragment.History. */
  datatype UserActivityReportInRepository = UserActivityReportInRepository(
    issuesCreated: Search,
    issuesCommented: Search,
    pullRequestsCreated: Search,
    pullRequestsReviewed: Search,
    pullRequestsCommented: Search,
    commitsByUser: History,
    org: string,
    repo: string,
    userName: string,
    userId: string)

  /** UserActivityReportInOrg2; `repositories` stands for
      CommitsByUserInOrg.Repositories.Nodes. */
  datatype UserActivityReportInOrg2 = UserActivityReportInOrg2(
    issuesCreated: Search,
    issuesCommented: Search,
    pullRequestsCreated: Search,
    pullRequestsReviewed: Search,
    pullRequestsCommented: Search,
    repositories: seq<RepositoryNode>,
    org: string,
    userName: string,
    userId: string)

  // ---------------------------------------------------------------------------
  // Repository-scoped report

  /** The six figures GenerateActivityLog prints, in its order: issues created and
      commented, pull requests reviewed, created and commented, then commits. */
  function RepositoryLogFigures(u: UserActivityReportInRepository): (f: seq<int>)
    ensures |f| == 6
  {
    [u.issuesCreated.issueCount, u.issuesCommented.issueCount,
     u.pullRequestsReviewed.issueCount, u.pullRequestsCreated.issueCount,
     u.pullRequestsCommented.issueCount, u.commitsByUser.totalCount]
  }

  predicate RepositoryHasActivity(u: UserActivityReportInRepository)
  {
    || u.issuesCreated.issueCount > 0
    || u.issuesCommented.issueCount > 0
    || u.pullRequestsReviewed.issueCount > 0
    || u.pullRequestsCreated.issueCount > 0
    || u.pullRequestsCommented.issueCount > 0
    || u.commitsByUser.totalCount > 0
  }

  /** A repository report shows activity exactly when one of the figures its activity
      log prints is positive; the commit figure is the default-branch total. */
  lemma RepositoryActivityIffPrintedFigure(u: UserActivityReportInRepository)
    ensures RepositoryHasActivity(u) <==>
            exists i :: 0 <= i < 6 && RepositoryLogFigures(u)[i] > 0
    ensures RepositoryLogFigures(u)[5] == u.commitsByUser.totalCount
  {
    if RepositoryHasActivity(u) {
      var f := RepositoryLogFigures(u);
      if u.issuesCreated.issueCount > 0 { assert f[0] > 0; }
      else if u.issuesCommented.issueCount > 0 { assert f[1] > 0; }
      else if u.pullRequestsReviewed.issueCount > 0 { assert f[2] > 0; }
      else if u.pullRequestsCreated.issueCount > 0 { assert f[3] > 0; }
      else if u.pullRequestsCommented.issueCount > 0 { assert f[4] > 0; }
      else { assert f[5] > 0; }
    }
  }

  /** The activity predicate reads the counters only: two reports with the same
      counters agree, whatever issues, pull requests or commits they sampled. */
  lemma RepositoryActivityIgnoresSamples(u: UserActivityReportInRepository, v: UserActivityReportInRepository)
    requires RepositoryLogFigures(u) == RepositoryLogFigures(v)
    ensures RepositoryHasActivity(u) == RepositoryHasActivity(v)
  {
    RepositoryActivityIffPrintedFigure(u);
    RepositoryActivityIffPrintedFigure(v);
  }

  const LogFilePrefix := "user-activity-"
  const LogFileSuffix := "-*.yaml"

  /** The temp-file pattern for a repository report: user, org and repo after the
      prefix, with a single `*` that os.CreateTemp replaces. */
  function RepositoryLogFileName(u: UserActivityReportInRepository, userName: string): (r: string)
    ensures |r| == |LogFilePrefix| + |userName| + 1 + |u.org| + 1 + |u.repo| + |LogFileSuffix|
    ensures r[..|LogFilePrefix|] == LogFilePrefix
    ensures r[|LogFilePrefix|..|LogFilePrefix| + |userName|] == userName
    ensures r[|r| - |LogFileSuffix|..] == LogFileSuffix
  {
    LogFilePrefix + userName + "-" + u.org + "_" + u.repo + LogFileSuffix
  }

  // ---------------------------------------------------------------------------
  // Organization-scoped report

  /** The sum of the default-branch commit totals over the repository nodes. */
  function CommitSum(nodes: seq<RepositoryNode>): int
    decreases |nodes|
  {
    if nodes == [] then 0
    else CommitSum(nodes[..|nodes| - 1]) + nodes[|nodes| - 1].history.totalCount
  }

  /** totalCommitCount: accumulates the commit totals of the repository nodes. */
  method TotalCommitCount(u: UserActivityReportInOrg2) returns (total: int)
    ensures total == CommitSum(u.repositories)
    ensures u.repositories == [] ==> total == 0
    ensures (forall i :: 0 <= i < |u.repositories| ==> u.repositories[i].history.totalCount >= 0) ==>
            (total > 0 <==> exists i :: 0 <= i < |u.repositories| && u.repositories[i].history.totalCount > 0)
  {
    total := 0;
    var nodes := u.repositories;
    for i := 0 to |nodes|
      invariant total == CommitSum(nodes[..i])
    {
      assert nodes[..i + 1][..i] == nodes[..i];
      total := total + nodes[i].history.totalCount;
    }
    assert nodes[..|nodes|] == nodes;
    if forall i :: 0 <= i < |nodes| ==> nodes[i].history.totalCount >= 0 {
      CommitSumPositive(nodes);
    }
  }

  /** The commit total splits over a concatenation of repository lists. */
  lemma {:induction false} CommitSumConcat(a: seq<RepositoryNode>, b: seq<RepositoryNode>)
    ensures CommitSum(a + b) == CommitSum(a) + CommitSum(b)
    decreases |b|
  {
    if b == [] {
      assert a + b == a;
    } else {
      var init := b[..|b| - 1];
      assert (a + b)[..|a + b| - 1] == a + init;
      CommitSumConcat(a, init);
    }
  }

  /** With non-negative per-repository totals, the sum is positive exactly when some
      repository has a positive total. */
  lemma {:induction false} CommitSumPositive(nodes: seq<RepositoryNode>)
    requires forall i :: 0 <= i < |nodes| ==> nodes[i].history.totalCount >= 0
    ensures CommitSum(nodes) >= 0
    ensures CommitSum(nodes) > 0 <==> exists i :: 0 <= i < |nodes| && nodes[i].history.totalCount > 0
    decreases |nodes|
  {
    if nodes != [] {
      var init := nodes[..|nodes| - 1];
      CommitSumPositive(init);
      if CommitSum(init) > 0 {
        var j :| 0 <= j < |init| && init[j].history.totalCount > 0;
        assert nodes[j] == init[j];
      }
      assert forall i :: 0 <= i < |init| ==> init[i] == nodes[i];
    }
  }

  /** The six figures the organization activity log prints; commits is totalCommitCount. */
  function OrgLogFigures(u: UserActivityReportInOrg2): (f: seq<int>)
    ensures |f| == 6
  {
    [u.issuesCreated.issueCount, u.issuesCommented.issueCount,
     u.pullRequestsReviewed.issueCount, u.pullRequestsCreated.issueCount,
     u.pullRequestsCommented.issueCount, CommitSum(u.repositories)]
  }

  predicate OrgHasActivity(u: UserActivityReportInOrg2)
  {
    || u.issuesCreated.issueCount > 0
    || u.issuesCommented.issueCount > 0
    || u.pullRequestsReviewed.issueCount > 0
    || u.pullRequestsCreated.issueCount > 0
    || u.pullRequestsCommented.issueCount > 0
    || CommitSum(u.repositories) > 0
  }

  /** The organization activity predicate reads the counters and the commit total
      only: two reports that print the same figures agree, whatever they sampled. */
  lemma OrgActivityIgnoresSamples(u: UserActivityReportInOrg2, v: UserActivityReportInOrg2)
    requires OrgLogFigures(u) == OrgLogFigures(v)
    ensures OrgHasActivity(u) == OrgHasActivity(v)
  {
    OrgActivityIffPrintedFigure(u);
    OrgActivityIffPrintedFigure(v);
  }

  /** An organization report shows activity exactly when one of the printed figures is
      positive; with non-negative per-repository totals, the commit part holds exactly
      when some repository has a commit. */
  lemma OrgActivityIffPrintedFigure(u: UserActivityReportInOrg2)
    ensures OrgHasActivity(u) <==> exists i :: 0 <= i < 6 && OrgLogFigures(u)[i] > 0
    ensures (forall i :: 0 <= i < |u.repositories| ==> u.repositories[i].history.totalCount >= 0) ==>
            (OrgHasActivity(u) <==>
               || u.issuesCreated.issueCount > 0
               || u.issuesCommented.issueCount > 0
               || u.pullRequestsReviewed.issueCount > 0
               || u.pullRequestsCreated.issueCount > 0
               || u.pullRequestsCommented.issueCount > 0
               || exists i :: 0 <= i < |u.repositories| && u.repositories[i].history.totalCount > 0)
  {
    var f := OrgLogFigures(u);
    if OrgHasActivity(u) {
      if u.issuesCreated.issueCount > 0 { assert f[0] > 0; }
      else if u.issuesCommented.issueCount > 0 { assert f[1] > 0; }
      else if u.pullRequestsReviewed.issueCount > 0 { assert f[2] > 0; }
      else if u.pullRequestsCreated.issueCount > 0 { assert f[3] > 0; }
      else if u.pullRequestsCommented.issueCount > 0 { assert f[4] > 0; }
      else { assert f[5] > 0; }
    }
    if forall i :: 0 <= i < |u.repositories| ==> u.repositories[i].history.totalCount >= 0 {
      CommitSumPositive(u.repositories);
    }
  }

  /** The temp-file pattern for an organization report. */
  function OrgLogFileName(u: UserActivityReportInOrg2, userName: string): (r: string)
    ensures |r| == |LogFilePrefix| + |userName| + 1 + |u.org| + |LogFileSuffix|
    ensures r[..|LogFilePrefix|] == LogFilePrefix
    ensures r[|LogFilePrefix|..|LogFilePrefix| + |userName|] == userName
    ensures r[|r| - |LogFileSuffix|..] == LogFileSuffix
  {
    LogFilePrefix + userName + "-" + u.org + LogFileSuffix
  }

  /** The repository pattern is the organization pattern with `org_repo` in the place
      of the org. */
  lemma RepositoryNameExtendsOrgName(u: UserActivityReportInRepository, v: UserActivityReportInOrg2, userName: string)
    requires v.org == u.org + "_" + u.repo
    ensures RepositoryLogFileName(u, userName) == OrgLogFileName(v, userName)
  {
    assert RepositoryLogFileName(u, userName)
        == LogFilePrefix + userName + "-" + (u.org + "_" + u.repo) + LogFileSuffix;
  }

  /** When user, org and repo hold no `*`, the pattern's only `*` is the one right
      before ".yaml", which is where os.CreateTemp puts its random part. */
  lemma RepositoryNameSingleWildcard(u: UserActivityReportInRepository, userName: string)
    requires '*' !in userName && '*' !in u.org && '*' !in u.repo
    ensures var r := RepositoryLogFileName(u, userName);
            '*' !in r[..|r| - 6] && r[|r| - 6..] == "*.yaml"
  {
    var r := RepositoryLogFileName(u, userName);
    var head := LogFilePrefix + userName + "-" + u.org + "_" + u.repo + "-";
    assert r == head + "*.yaml";
    assert r[..|r| - 6] == head;
  }

  /** The same for the organization pattern. */
  lemma OrgNameSingleWildcard(u: UserActivityReportInOrg2, userName: string)
    requires '*' !in userName && '*' !in u.org
    ensures var r := OrgLogFileName(u, userName);
            '*' !in r[..|r| - 6] && r[|r| - 6..] == "*.yaml"
  {
    var r := OrgLogFileName(u, userName);
    var head := LogFilePrefix + userName + "-" + u.org + "-";
    assert r == head + "*.yaml";
    assert r[..|r| - 6] == head;
  }
}
