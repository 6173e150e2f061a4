/** The devstats repository groups (generators/cmd/devstats/main.go): for every SIG,
    the GitHub repositories its subprojects' OWNERS references point into, found with
    the pattern `^https://raw.githubusercontent.com/([^/]+/[^/]+)/.*$`, de-duplicated
    and sorted. */
module Devstats {
  import opened Wrappers
  import opened StringOrder
  import opened Sigs

  datatype RepoGroup = RepoGroup(name: string, alias: string, repos: seq<string>)

  datatype RepoGroupsTemplateData = RepoGroupsTemplateData(repoGroups: seq<RepoGroup>)

  // ---------------------------------------------------------------------------
  // The repository name pattern, as written: its two dots are not escaped, so each
  // matches any character but a newline; `[^/]` matches a newline; `.*` does not.

  /** The position of the first `c` in `s`, or |s| when there is none. */
  function FirstIndexOf(s: string, c: char): (r: nat)
    ensures r <= |s|
    decreases |s|
  {
    if |s| == 0 then 0 else if s[0] == c then 0 else 1 + FirstIndexOf(s[1..], c)
  }

  lemma {:induction false} FirstIndexOfMeaning(s: string, c: char)
    ensures c !in s[..FirstIndexOf(s, c)]
    ensures FirstIndexOf(s, c) < |s| ==> s[FirstIndexOf(s, c)] == c
    decreases |s|
  {
    if |s| > 0 && s[0] != c {
      FirstIndexOfMeaning(s[1..], c);
      assert s[..FirstIndexOf(s, c)] == [s[0]] + s[1..][..FirstIndexOf(s[1..], c)];
    }
  }

  /** The 34 characters before the capture group: "https://raw", any character but a
      newline, "githubusercontent", any character but a newline, "com/". */
  const RawHead := "https://raw"
  const RawMiddle := "githubusercontent"
  const RawTail := "com/"
  const PrefixLength := 34

  predicate HasRawPrefix(ref: string)
  {
    && |ref| >= PrefixLength
    && ref[..11] == RawHead && ref[11] != '\n'
    && ref[12..29] == RawMiddle && ref[29] != '\n'
    && ref[30..34] == RawTail
  }

  /** The first submatch of the pattern, or None where the reference does not match. */
  function MatchRepoName(ref: string): Option<string>
  {
    if !HasRawPrefix(ref) then None else MatchPath(ref[PrefixLength..])
  }

  /** `([^/]+/[^/]+)/.*$` on what follows the prefix. */
  function MatchPath(rest: string): Option<string>
  {
    var a := FirstIndexOf(rest, '/');
    if a == 0 || a == |rest| then None
    else
      var after := rest[a + 1..];
      var b := FirstIndexOf(after, '/');
      if b == 0 || b == |after| || '\n' in after[b + 1..] then None
      else Some(rest[..a + 1 + b])
  }

  /** A reference the pattern accepts, from its parts. */
  function RawUrl(c1: char, c2: char, owner: string, repo: string, tail: string): string
  {
    RawHead + [c1] + RawMiddle + [c2] + RawTail + (owner + "/" + repo + "/" + tail)
  }

  predicate Segment(s: string)
  {
    |s| > 0 && '/' !in s
  }

  lemma PrefixSplit(h: string, c1: char, m: string, c2: char, t: string, rest: string)
    requires |h| == 11 && |m| == 17 && |t| == 4
    ensures var s := h + [c1] + m + [c2] + t + rest;
      && s[..11] == h && s[11] == c1 && s[12..29] == m && s[29] == c2 && s[30..34] == t
      && s[34..] == rest
  {
    var s := h + [c1] + m + [c2] + t + rest;
    assert s[..11] == h;
    assert s[12..29] == m;
    assert s[30..34] == t;
    assert s[34..] == rest;
  }

  lemma SplitAround(s: string, k: nat)
    requires k < |s|
    ensures s == s[..k] + [s[k]] + s[k + 1..]
  {
  }

  lemma SplitAt(x: string, c: char, y: string)
    ensures (x + [c] + y)[..|x|] == x && (x + [c] + y)[|x| + 1..] == y
  {
  }

  lemma {:induction false} FirstIndexOfAfter(x: string, c: char, y: string)
    requires c !in x
    ensures FirstIndexOf(x + [c] + y, c) == |x|
    decreases |x|
  {
    if |x| > 0 {
      assert (x + [c] + y)[1..] == x[1..] + [c] + y;
      FirstIndexOfAfter(x[1..], c, y);
    }
  }

  /** The pattern accepts every reference built by RawUrl from two characters other
      than a newline, two non-empty segments without '/' and a tail without a newline,
      and captures "owner/repo". */
  lemma MatchRawUrl(c1: char, c2: char, owner: string, repo: string, tail: string)
    requires c1 != '\n' && c2 != '\n'
    requires Segment(owner) && Segment(repo) && '\n' !in tail
    ensures MatchRepoName(RawUrl(c1, c2, owner, repo, tail)) == Some(owner + "/" + repo)
  {
    var rest := owner + "/" + repo + "/" + tail;
    PrefixSplit(RawHead, c1, RawMiddle, c2, RawTail, rest);
    MatchPathOf(owner, repo, tail);
  }

  lemma MatchPathOf(owner: string, repo: string, tail: string)
    requires Segment(owner) && Segment(repo) && '\n' !in tail
    ensures MatchPath(owner + "/" + repo + "/" + tail) == Some(owner + "/" + repo)
  {
    var after := repo + "/" + tail;
    var rest := owner + "/" + after;
    assert rest == owner + "/" + repo + "/" + tail;
    FirstIndexOfAfter(owner, '/', after);
    SplitAt(owner, '/', after);
    FirstIndexOfAfter(repo, '/', tail);
    SplitAt(repo, '/', tail);
    assert rest[..|owner| + 1 + |repo|] == owner + "/" + repo;
  }

  /** ... and nothing else: every reference the pattern accepts is such a RawUrl. */
  lemma MatchIsRawUrl(ref: string)
    requires MatchRepoName(ref).Some?
    ensures exists c1, c2, owner, repo, tail ::
              && c1 != '\n' && c2 != '\n' && Segment(owner) && Segment(repo) && '\n' !in tail
              && ref == RawUrl(c1, c2, owner, repo, tail)
              && MatchRepoName(ref) == Some(owner + "/" + repo)
  {
    var rest := ref[PrefixLength..];
    var owner, repo, tail := PathParts(rest);
    assert ref == ref[..11] + [ref[11]] + ref[12..29] + [ref[29]] + ref[30..34] + rest;
    assert ref == RawUrl(ref[11], ref[29], owner, repo, tail);
  }

  /** The parts MatchPath found in what follows the prefix. */
  lemma PathParts(rest: string) returns (owner: string, repo: string, tail: string)
    requires MatchPath(rest).Some?
    ensures Segment(owner) && Segment(repo) && '\n' !in tail
    ensures rest == owner + "/" + repo + "/" + tail
    ensures MatchPath(rest) == Some(owner + "/" + repo)
  {
    var a := FirstIndexOf(rest, '/');
    var after := rest[a + 1..];
    var b := FirstIndexOf(after, '/');
    owner, repo, tail := rest[..a], after[..b], after[b + 1..];
    FirstIndexOfMeaning(rest, '/');
    FirstIndexOfMeaning(after, '/');
    SplitAround(after, b);
    SplitAround(rest, a);
    assert rest[..a + 1 + b] == owner + "/" + repo;
  }

  /** Instances: the usual OWNERS link, and the same link with the two dots replaced,
      which the unescaped dots accept too. */
  lemma RawUrlExamples()
    ensures MatchRepoName(RawUrl('.', '.', "kubevirt", "kubevirt", "main/OWNERS")) == Some("kubevirt/kubevirt")
    ensures MatchRepoName(RawUrl('X', 'Y', "kubevirt", "kubevirt", "main/OWNERS")) == Some("kubevirt/kubevirt")
  {
    var kubevirt := "kubevirt";
    assert '/' !in kubevirt;
    assert kubevirt + "/" + kubevirt == "kubevirt/kubevirt";
    MatchRawUrl('.', '.', kubevirt, kubevirt, "main/OWNERS");
    MatchRawUrl('X', 'Y', kubevirt, kubevirt, "main/OWNERS");
  }

  /** The pattern rejects a link to github.com... */
  lemma GithubLinkRejected()
    ensures MatchRepoName("https://github.com/kubevirt/kubevirt/OWNERS") == None
  {
    var github := "https://github.com/kubevirt/kubevirt/OWNERS";
    assert RawHead[8] == 'r';
    assert github[8] == 'g';
    assert github[..11][8] == 'g';
  }

  /** ... and a path whose repository segment is empty. */
  lemma EmptyRepoRejected(owner: string, tail: string)
    requires Segment(owner)
    ensures MatchPath(owner + "/" + "/" + tail) == None
  {
    var after := "/" + tail;
    assert owner + "/" + "/" + tail == owner + ['/'] + after;
    FirstIndexOfAfter(owner, '/', after);
    SplitAt(owner, '/', after);
  }

  // ---------------------------------------------------------------------------
  // What extractRepoGroups computes

  /** The OWNERS references of some subprojects, in the order the loops visit them. */
  function OwnerRefs(sps: seq<SubProject>): (refs: seq<string>)
    decreases |sps|
  {
    if sps == [] then [] else OwnerRefs(sps[..|sps| - 1]) + sps[|sps| - 1].owners
  }

  /** The repository names of some references, or the first reference that does not
      match, which aborts the extraction. */
  function RepoNames(refs: seq<string>): Result<set<string>, string>
    decreases |refs|
  {
    if refs == [] then Success({})
    else
      match RepoNames(refs[..|refs| - 1])
      case Failure(e) => Failure(e)
      case Success(names) =>
        var ref := refs[|refs| - 1];
        match MatchRepoName(ref)
        case None => Failure(ref)
        case Some(name) => Success(names + {name})
  }

  /** What one SIG contributes: its name, its directory as alias, and its repositories. */
  datatype RepoSet = RepoSet(name: string, alias: string, repos: set<string>)

  /** The groups for some SIGs, in order, leaving out SIGs with no repository; or the
      first reference, over all SIGs, that does not match. */
  function ExpectedGroups(sigs: seq<GroupValue>): Result<seq<RepoSet>, string>
    decreases |sigs|
  {
    if sigs == [] then Success([])
    else
      var sig := sigs[|sigs| - 1];
      match ExpectedGroups(sigs[..|sigs| - 1])
      case Failure(e) => Failure(e)
      case Success(groups) =>
        match RepoNames(OwnerRefs(sig.subProjects))
        case Failure(e) => Failure(e)
        case Success(names) =>
          if names == {} then Success(groups) else Success(groups + [RepoSet(sig.name, sig.dir, names)])
  }

  /** A template group lists a SIG's repositories once each, ascending. */
  ghost predicate Lists(g: RepoGroup, e: RepoSet)
  {
    && g.name == e.name && g.alias == e.alias
    && StrictlySorted(g.repos)
    && (forall r :: r in g.repos <==> r in e.repos)
  }

  ghost predicate ListsAll(gs: seq<RepoGroup>, es: seq<RepoSet>)
  {
    |gs| == |es| && forall i :: 0 <= i < |gs| ==> Lists(gs[i], es[i])
  }

  // ---------------------------------------------------------------------------
  // Properties of the specification

  lemma OwnerRefsSnoc(sps: seq<SubProject>, sp: SubProject)
    ensures OwnerRefs(sps + [sp]) == OwnerRefs(sps) + sp.owners
  {
    assert (sps + [sp])[..|sps|] == sps;
  }

  lemma RepoNamesSnoc(refs: seq<string>, ref: string)
    ensures RepoNames(refs + [ref]) ==
            match RepoNames(refs)
            case Failure(e) => Failure(e)
            case Success(names) =>
              match MatchRepoName(ref)
              case None => Failure(ref)
              case Some(name) => Success(names + {name})
  {
    assert (refs + [ref])[..|refs|] == refs;
  }

  /** Once a reference fails, later references change nothing. */
  lemma {:induction false} RepoNamesFailureSticks(refs: seq<string>, more: seq<string>)
    requires RepoNames(refs).Failure?
    ensures RepoNames(refs + more) == RepoNames(refs)
    decreases |more|
  {
    if more != [] {
      var init, last := more[..|more| - 1], more[|more| - 1];
      assert more == init + [last];
      assert refs + more == (refs + init) + [last];
      RepoNamesFailureSticks(refs, init);
      RepoNamesSnoc(refs + init, last);
      assert RepoNames((refs + init) + [last]) == RepoNames(refs + init);
    } else {
      assert refs + more == refs;
    }
  }

  /** The extraction fails exactly when some reference does not match, and then names
      the first such reference. */
  lemma {:induction false} RepoNamesFailure(refs: seq<string>)
    ensures RepoNames(refs).Failure? <==> exists i :: 0 <= i < |refs| && MatchRepoName(refs[i]).None?
    ensures RepoNames(refs).Failure? ==>
              exists k :: && 0 <= k < |refs| && RepoNames(refs).error == refs[k]
                          && MatchRepoName(refs[k]).None?
                          && forall i :: 0 <= i < k ==> MatchRepoName(refs[i]).Some?
    decreases |refs|
  {
    if refs != [] {
      var init, last := refs[..|refs| - 1], refs[|refs| - 1];
      RepoNamesFailure(init);
      assert forall i :: 0 <= i < |init| ==> refs[i] == init[i];
    }
  }

  /** On success, the names are exactly what the pattern captures from the references. */
  lemma {:induction false} RepoNamesCaptures(refs: seq<string>)
    requires RepoNames(refs).Success?
    ensures forall name :: name in RepoNames(refs).value <==>
                           exists i :: 0 <= i < |refs| && MatchRepoName(refs[i]) == Some(name)
    decreases |refs|
  {
    if refs != [] {
      var init, last := refs[..|refs| - 1], refs[|refs| - 1];
      RepoNamesCaptures(init);
      assert forall i :: 0 <= i < |init| ==> refs[i] == init[i];
    }
  }

  /** One more SIG on top of the groups, or the failure, so far. */
  function GroupStep(groups: Result<seq<RepoSet>, string>, sig: GroupValue): Result<seq<RepoSet>, string>
  {
    match groups
    case Failure(e) => Failure(e)
    case Success(groups) =>
      match RepoNames(OwnerRefs(sig.subProjects))
      case Failure(e) => Failure(e)
      case Success(names) =>
        if names == {} then Success(groups) else Success(groups + [RepoSet(sig.name, sig.dir, names)])
  }

  lemma ExpectedGroupsSnoc(sigs: seq<GroupValue>, sig: GroupValue)
    ensures ExpectedGroups(sigs + [sig]) == GroupStep(ExpectedGroups(sigs), sig)
  {
    assert (sigs + [sig])[..|sigs|] == sigs;
  }

  /** A step that succeeds on some groups succeeds the same way below any earlier ones. */
  lemma StepAppend(ga: seq<RepoSet>, gi: seq<RepoSet>, sig: GroupValue)
    requires GroupStep(Success(gi), sig).Success?
    ensures GroupStep(Success(ga + gi), sig) == Success(ga + GroupStep(Success(gi), sig).value)
  {
    var names := RepoNames(OwnerRefs(sig.subProjects)).value;
    if names != {} {
      var g := RepoSet(sig.name, sig.dir, names);
      assert (ga + gi) + [g] == ga + (gi + [g]);
    }
  }

  /** A SIG without OWNERS references contributes no group. */
  lemma NoRefsNoGroup(sigs: seq<GroupValue>, sig: GroupValue)
    requires OwnerRefs(sig.subProjects) == []
    ensures ExpectedGroups(sigs + [sig]) == ExpectedGroups(sigs)
  {
    ExpectedGroupsSnoc(sigs, sig);
  }

  /** The groups of two runs of SIGs are the groups of the first followed by those of
      the second: output order follows input order. */
  lemma {:induction false} ExpectedGroupsConcat(a: seq<GroupValue>, b: seq<GroupValue>)
    requires ExpectedGroups(a).Success? && ExpectedGroups(b).Success?
    ensures ExpectedGroups(a + b) == Success(ExpectedGroups(a).value + ExpectedGroups(b).value)
    decreases |b|
  {
    if b == [] {
      assert a + b == a;
      assert ExpectedGroups(a).value + [] == ExpectedGroups(a).value;
    } else {
      var init, last := b[..|b| - 1], b[|b| - 1];
      SnocSplit(a, b);
      ExpectedGroupsSnoc(init, last);
      ExpectedGroupsSnoc(a + init, last);
      ExpectedGroupsConcat(a, init);
      StepAppend(ExpectedGroups(a).value, ExpectedGroups(init).value, last);
    }
  }

  lemma SnocSplit<T>(a: seq<T>, b: seq<T>)
    requires b != []
    ensures b == b[..|b| - 1] + [b[|b| - 1]]
    ensures a + b == (a + b[..|b| - 1]) + [b[|b| - 1]]
  {
    assert b == b[..|b| - 1] + [b[|b| - 1]];
  }

  /** Every group has at least one repository, and there are no more groups than SIGs. */
  lemma {:induction false} ExpectedGroupsNonEmpty(sigs: seq<GroupValue>)
    requires ExpectedGroups(sigs).Success?
    ensures |ExpectedGroups(sigs).value| <= |sigs|
    ensures forall i :: 0 <= i < |ExpectedGroups(sigs).value| ==> ExpectedGroups(sigs).value[i].repos != {}
    decreases |sigs|
  {
    if sigs != [] {
      var init, last := sigs[..|sigs| - 1], sigs[|sigs| - 1];
      assert sigs == init + [last];
      ExpectedGroupsSnoc(init, last);
      ExpectedGroupsNonEmpty(init);
    }
  }

  /** The OWNERS references of some SIGs, in SIG order, each SIG's in subproject order. */
  function AllRefs(sigs: seq<GroupValue>): seq<string>
    decreases |sigs|
  {
    if sigs == [] then [] else AllRefs(sigs[..|sigs| - 1]) + OwnerRefs(sigs[|sigs| - 1].subProjects)
  }

  /** After references that all match, more references fail exactly as they would alone. */
  lemma {:induction false} RepoNamesAfterSuccess(done: seq<string>, refs: seq<string>)
    requires RepoNames(done).Success?
    ensures RepoNames(done + refs).Failure? <==> RepoNames(refs).Failure?
    ensures RepoNames(refs).Failure? ==> RepoNames(done + refs).error == RepoNames(refs).error
    decreases |refs|
  {
    if refs == [] {
      assert done + refs == done;
    } else {
      var init, last := refs[..|refs| - 1], refs[|refs| - 1];
      SnocSplit(done, refs);
      RepoNamesAfterSuccess(done, init);
      RepoNamesSnoc(done + init, last);
      RepoNamesSnoc(init, last);
    }
  }

  /** Running the SIGs one after another fails as one run over all their references. */
  lemma {:induction false} ExpectedGroupsAllRefs(sigs: seq<GroupValue>)
    ensures ExpectedGroups(sigs).Failure? <==> RepoNames(AllRefs(sigs)).Failure?
    ensures ExpectedGroups(sigs).Failure? ==> ExpectedGroups(sigs).error == RepoNames(AllRefs(sigs)).error
    decreases |sigs|
  {
    if sigs != [] {
      var init, last := sigs[..|sigs| - 1], sigs[|sigs| - 1];
      SnocSplit([], sigs);
      ExpectedGroupsSnoc(init, last);
      ExpectedGroupsAllRefs(init);
      var refs := OwnerRefs(last.subProjects);
      if RepoNames(AllRefs(init)).Failure? {
        RepoNamesFailureSticks(AllRefs(init), refs);
      } else {
        RepoNamesAfterSuccess(AllRefs(init), refs);
      }
    }
  }

  lemma {:induction false} AllRefsMembership(sigs: seq<GroupValue>, x: string)
    ensures x in AllRefs(sigs) <==> exists i :: 0 <= i < |sigs| && x in OwnerRefs(sigs[i].subProjects)
    decreases |sigs|
  {
    if sigs != [] {
      var init := sigs[..|sigs| - 1];
      AllRefsMembership(init, x);
      assert forall i :: 0 <= i < |init| ==> sigs[i] == init[i];
    }
  }

  /** The extraction over all SIGs fails exactly when some OWNERS reference of some SIG
      does not match, and then names the first such reference in SIG order, and within
      a SIG in subproject and link order. */
  lemma ExpectedGroupsFailure(sigs: seq<GroupValue>)
    ensures ExpectedGroups(sigs).Failure? <==>
            exists i, ref :: 0 <= i < |sigs| && ref in OwnerRefs(sigs[i].subProjects) && MatchRepoName(ref).None?
    ensures ExpectedGroups(sigs).Failure? ==>
            exists p :: && 0 <= p < |AllRefs(sigs)| && ExpectedGroups(sigs).error == AllRefs(sigs)[p]
                        && MatchRepoName(AllRefs(sigs)[p]).None?
                        && forall q :: 0 <= q < p ==> MatchRepoName(AllRefs(sigs)[q]).Some?
  {
    var all := AllRefs(sigs);
    ExpectedGroupsAllRefs(sigs);
    RepoNamesFailure(all);
    if ExpectedGroups(sigs).Failure? {
      var p :| 0 <= p < |all| && MatchRepoName(all[p]).None?;
      AllRefsMembership(sigs, all[p]);
    }
    forall i, ref | 0 <= i < |sigs| && ref in OwnerRefs(sigs[i].subProjects) && MatchRepoName(ref).None?
      ensures ExpectedGroups(sigs).Failure?
    {
      AllRefsMembership(sigs, ref);
      var p :| 0 <= p < |all| && all[p] == ref;
    }
  }

  /** Once a SIG fails, later SIGs change nothing. */
  lemma {:induction false} ExpectedGroupsFailureSticks(sigs: seq<GroupValue>, n: nat)
    requires n <= |sigs|
    requires ExpectedGroups(sigs[..n]).Failure?
    ensures ExpectedGroups(sigs) == ExpectedGroups(sigs[..n])
    decreases |sigs| - n
  {
    if n < |sigs| {
      assert sigs[..n + 1] == sigs[..n] + [sigs[n]];
      ExpectedGroupsSnoc(sigs[..n], sigs[n]);
      ExpectedGroupsFailureSticks(sigs, n + 1);
    } else {
      assert sigs[..n] == sigs;
    }
  }

  // ---------------------------------------------------------------------------
  // extractRepoGroups

  /** The inner loop: the names of one subproject's OWNERS references added to the
      repository map; the first reference that does not match ends the extraction. */
  method AddRepoNames(ghost done: seq<string>, repoMap: set<string>, owners: seq<string>)
    returns (result: Result<set<string>, string>)
    requires RepoNames(done) == Success(repoMap)
    ensures result == RepoNames(done + owners)
  {
    var names := repoMap;
    assert done + owners[..0] == done;
    for k := 0 to |owners|
      invariant RepoNames(done + owners[..k]) == Success(names)
    {
      var ownerRef := owners[k];
      NextRef(done, owners, k);
      var stringSubmatch := MatchRepoName(ownerRef);
      if stringSubmatch.None? {
        FailAt(done, owners, k);
        return Failure(ownerRef);
      }
      var repoName := stringSubmatch.value;
      if repoName !in names {
        names := names + {repoName};
      } else {
        assert names + {repoName} == names;
      }
    }
    assert owners[..|owners|] == owners;
    return Success(names);
  }

  lemma NextRef(done: seq<string>, owners: seq<string>, k: nat)
    requires k < |owners|
    ensures RepoNames(done + owners[..k + 1]) ==
            match RepoNames(done + owners[..k])
            case Failure(e) => Failure(e)
            case Success(names) =>
              match MatchRepoName(owners[k])
              case None => Failure(owners[k])
              case Some(name) => Success(names + {name})
  {
    assert done + owners[..k + 1] == (done + owners[..k]) + [owners[k]];
    RepoNamesSnoc(done + owners[..k], owners[k]);
  }

  lemma FailAt(done: seq<string>, owners: seq<string>, k: nat)
    requires k < |owners|
    requires RepoNames(done + owners[..k + 1]).Failure?
    ensures RepoNames(done + owners) == RepoNames(done + owners[..k + 1])
  {
    ConcatSplit(done, owners, k + 1);
    RepoNamesFailureSticks(done + owners[..k + 1], owners[k + 1..]);
  }

  lemma ConcatSplit(done: seq<string>, owners: seq<string>, n: nat)
    requires n <= |owners|
    ensures (done + owners[..n]) + owners[n..] == done + owners
  {
    assert owners == owners[..n] + owners[n..];
  }

  /** The outer loop over one SIG's subprojects. */
  method CollectRepoNames(subProjects: seq<SubProject>) returns (result: Result<set<string>, string>)
    ensures result == RepoNames(OwnerRefs(subProjects))
  {
    var repoMap: set<string> := {};
    for j := 0 to |subProjects|
      invariant RepoNames(OwnerRefs(subProjects[..j])) == Success(repoMap)
    {
      var subProject := subProjects[j];
      assert subProjects[..j + 1] == subProjects[..j] + [subProject];
      OwnerRefsSnoc(subProjects[..j], subProject);
      var added := AddRepoNames(OwnerRefs(subProjects[..j]), repoMap, subProject.owners);
      if added.Failure? {
        AbortAfter(subProjects, j + 1);
        return added;
      }
      repoMap := added.value;
    }
    assert subProjects[..|subProjects|] == subProjects;
    return Success(repoMap);
  }

  /** A failure among the first n subprojects decides the whole result. */
  lemma {:induction false} AbortAfter(sps: seq<SubProject>, n: nat)
    requires n <= |sps|
    requires RepoNames(OwnerRefs(sps[..n])).Failure?
    ensures RepoNames(OwnerRefs(sps)) == RepoNames(OwnerRefs(sps[..n]))
    decreases |sps| - n
  {
    if n < |sps| {
      assert sps[..n + 1] == sps[..n] + [sps[n]];
      OwnerRefsSnoc(sps[..n], sps[n]);
      RepoNamesFailureSticks(OwnerRefs(sps[..n]), sps[n].owners);
      AbortAfter(sps, n + 1);
    } else {
      assert sps[..n] == sps;
    }
  }

  /** No element occurs twice in a sequence whose multiset counts are at most one. */
  lemma {:induction false} SingleCountsDistinct(s: seq<string>)
    requires forall x :: multiset(s)[x] <= 1
    ensures forall i, j :: 0 <= i < j < |s| ==> s[i] != s[j]
    decreases |s|
  {
    if s != [] {
      var init, last := s[..|s| - 1], s[|s| - 1];
      assert s == init + [last];
      assert multiset(s) == multiset(init) + multiset{last};
      forall x
        ensures multiset(init)[x] <= 1
      {
        assert multiset(init)[x] <= multiset(s)[x];
      }
      SingleCountsDistinct(init);
      assert multiset(s)[last] == multiset(init)[last] + 1;
      assert multiset(init)[last] == 0;
      assert forall i :: 0 <= i < |init| ==> init[i] in multiset(init);
    }
  }

  /** The keys of the repository map, in whatever order ranging over it yields, then
      sorted: each name once, ascending. */
  method SortedRepos(repoMap: set<string>) returns (repos: seq<string>)
    ensures StrictlySorted(repos)
    ensures forall r :: r in repos <==> r in repoMap
  {
    var collected: seq<string> := [];
    var remaining := repoMap;
    while remaining != {}
      invariant remaining <= repoMap
      invariant forall x :: multiset(collected)[x] == if x in repoMap && x !in remaining then 1 else 0
      decreases |remaining|
    {
      var repo :| repo in remaining;
      collected := collected + [repo];
      remaining := remaining - {repo};
    }
    repos := SortStrings(collected);
    SingleCountsDistinct(repos);
    SortedDistinctIsStrict(repos);
  }

  lemma ListsAllSnoc(gs: seq<RepoGroup>, es: seq<RepoSet>, g: RepoGroup, e: RepoSet)
    requires ListsAll(gs, es) && Lists(g, e)
    ensures ListsAll(gs + [g], es + [e])
  {
  }

  /** The body of extractRepoGroups' loop for one SIG: its repository group, nothing
      when its subprojects name no repository, or the first reference that does not
      match. */
  method SigRepoGroup(name: string, dir: string, subProjects: seq<SubProject>)
    returns (result: Result<Option<RepoGroup>, string>)
    ensures var names := RepoNames(OwnerRefs(subProjects));
      && (result.Failure? <==> names.Failure?)
      && (result.Failure? ==> result.error == names.error)
      && (result.Success? ==> (result.value.None? <==> names.value == {}))
      && (result.Success? && result.value.Some? ==> Lists(result.value.value, RepoSet(name, dir, names.value)))
  {
    var repoMap := CollectRepoNames(subProjects);
    if repoMap.Failure? {
      return Failure(repoMap.error);
    }
    if |repoMap.value| == 0 {
      return Success(None);
    }
    var repos := SortedRepos(repoMap.value);
    return Success(Some(RepoGroup(name, dir, repos)));
  }

  /** What the i-th SIG does to the expected groups of the SIGs before it. */
  lemma ExpectedGroupsStep(sigs: seq<GroupValue>, i: nat, es: seq<RepoSet>)
    requires i < |sigs|
    requires ExpectedGroups(sigs[..i]) == Success(es)
    ensures var names := RepoNames(OwnerRefs(sigs[i].subProjects));
      && (names.Failure? ==> ExpectedGroups(sigs[..i + 1]) == Failure(names.error))
      && (names.Success? && names.value == {} ==> ExpectedGroups(sigs[..i + 1]) == Success(es))
      && (names.Success? && names.value != {} ==>
            ExpectedGroups(sigs[..i + 1]) == Success(es + [RepoSet(sigs[i].name, sigs[i].dir, names.value)]))
  {
    assert sigs[..i + 1] == sigs[..i] + [sigs[i]];
    ExpectedGroupsSnoc(sigs[..i], sigs[i]);
  }

  /** extractRepoGroups: one group per SIG with at least one repository, in the SIGs'
      order, or the first OWNERS reference that does not match. Working groups, user
      groups and committees are not looked at. */
  method ExtractRepoGroups(sigsYAML: Sigs) returns (result: Result<RepoGroupsTemplateData, string>)
    ensures var expected := ExpectedGroups(Values(sigsYAML.sigs));
      && (result.Failure? <==> expected.Failure?)
      && (result.Failure? ==> result.error == expected.error)
      && (result.Success? ==> ListsAll(result.value.repoGroups, expected.value))
  {
    ghost var sigs := Values(sigsYAML.sigs);
    ghost var es: seq<RepoSet> := [];
    var repoGroups: seq<RepoGroup> := [];
    for i := 0 to |sigsYAML.sigs|
      invariant ExpectedGroups(sigs[..i]) == Success(es)
      invariant ListsAll(repoGroups, es)
      invariant forall k :: 0 <= k < |sigs| ==>
        && sigs[k].name == sigsYAML.sigs[k].name
        && sigs[k].dir == sigsYAML.sigs[k].dir
        && sigs[k].subProjects == sigsYAML.sigs[k].subProjects
    {
      var sig := sigsYAML.sigs[i];
      ExpectedGroupsStep(sigs, i, es);
      var group := SigRepoGroup(sig.name, sig.dir, sig.subProjects);
      if group.Failure? {
        ExpectedGroupsFailureSticks(sigs, i + 1);
        ValuesUnchanged(sigsYAML.sigs);
        return Failure(group.error);
      }
      if group.value.Some? {
        ghost var expected := RepoSet(sig.name, sig.dir, RepoNames(OwnerRefs(sig.subProjects)).value);
        ListsAllSnoc(repoGroups, es, group.value.value, expected);
        repoGroups := repoGroups + [group.value.value];
        es := es + [expected];
      }
    }
    assert sigs[..|sigsYAML.sigs|] == sigs;
    ValuesUnchanged(sigsYAML.sigs);
    return Success(RepoGroupsTemplateData(repoGroups));
  }
}
