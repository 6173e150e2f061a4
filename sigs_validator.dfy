/** The SIG validator (validators/cmd/sigs/sigs-validator.go): one pass over every group
    of sigs.yaml that clears a missing directory or unknown label, drops leads and chairs
    who are not org members, and drops subproject OWNERS references that do not answer
    with a 2xx status. The file system and the HTTP client are oracle parameters. */
module SigsValidator {
  import opened Wrappers
  import opened Seqs
  import opened Orgs
  import opened Sigs

  /** The label catalog: the default label set and the repository-specific sets. */
  datatype Label = Label(name: string)
  datatype LabelRepo = LabelRepo(labels: seq<Label>)
  datatype LabelsYAML = LabelsYAML(default: Option<LabelRepo>, repos: map<string, LabelRepo>)

  /** What os.Stat answers for a path: an error, or the file's kind. */
  datatype StatResult = StatFailed | StatOk(isDir: bool)

  /** What an HTTP HEAD request answers: a transport error, or a status code. */
  datatype HeadResult = HeadFailed | HeadResponse(statusCode: int)

  const StatusOK := 200
  const StatusMultipleChoices := 300

  // ---------------------------------------------------------------------------
  // What one pass does to a group's values

  /** The directory after the check: a non-empty path that cannot be stat'ed or is not
      a directory is cleared. */
  function CheckedDir(dir: string, stat: string -> StatResult): string
  {
    if dir != "" && (stat(dir).StatFailed? || !stat(dir).isDir) then "" else dir
  }

  predicate InDefaultLabels(catalog: LabelRepo, labelName: string)
  {
    exists i :: 0 <= i < |catalog.labels| && catalog.labels[i].name == labelName
  }

  /** The label after the check: a non-empty label that no default label carries is
      cleared. The source dereferences the default set only for a non-empty label. */
  function CheckedLabel(labelName: string, labels: LabelsYAML): string
    requires labelName != "" ==> labels.default.Some?
  {
    if labelName != "" && !InDefaultLabels(labels.default.value, labelName) then "" else labelName
  }

  /** The test applied to every lead and chair. */
  function IsOrgMember(org: Org): OrgMember -> bool
  {
    (m: OrgMember) => HasMember(org, m.github)
  }

  /** An OWNERS reference is kept when HEAD returned no error and a status in [200, 300). */
  function OwnersFileFound(head: string -> HeadResult): string -> bool
  {
    (url: string) => head(url).HeadResponse? && StatusOK <= head(url).statusCode < StatusMultipleChoices
  }

  function ValidatedSubProject(sp: SubProject, org: Org, head: string -> HeadResult): (r: SubProject)
  {
    sp.(owners := Filter(sp.owners, OwnersFileFound(head)), leads := Filter(sp.leads, IsOrgMember(org)))
  }

  function ValidatedSubProjects(sps: seq<SubProject>, org: Org, head: string -> HeadResult): (r: seq<SubProject>)
    ensures |r| == |sps|
    ensures forall i :: 0 <= i < |sps| ==> r[i] == ValidatedSubProject(sps[i], org, head)
  {
    seq(|sps|, i requires 0 <= i < |sps| => ValidatedSubProject(sps[i], org, head))
  }

  /** The group after one pass of validateGroup. */
  function ValidatedGroup(g: GroupValue, labels: LabelsYAML, org: Org,
                          stat: string -> StatResult, head: string -> HeadResult): (r: GroupValue)
    requires g.labelName != "" ==> labels.default.Some?
  {
    g.(dir := CheckedDir(g.dir, stat),
       labelName := CheckedLabel(g.labelName, labels),
       leads := Filter(g.leads, IsOrgMember(org)),
       leadership := if g.leadership.None? then None else Some(Filter(g.leadership.value, IsOrgMember(org))),
       subProjects := ValidatedSubProjects(g.subProjects, org, head))
  }

  /** validateGroup removes nothing and changes no other field: name, description,
      mission statement, meetings, contact, the presence of a leadership record, the
      number of subprojects and every subproject's name and description stay as they are. */
  lemma ValidatedGroupKeeps(g: GroupValue, labels: LabelsYAML, org: Org,
                            stat: string -> StatResult, head: string -> HeadResult)
    requires g.labelName != "" ==> labels.default.Some?
    ensures var r := ValidatedGroup(g, labels, org, stat, head);
      && r.name == g.name && r.description == g.description
      && r.missionStatement == g.missionStatement
      && r.meetings == g.meetings && r.contact == g.contact
      && (r.leadership.Some? <==> g.leadership.Some?)
      && |r.subProjects| == |g.subProjects|
      && forall i :: 0 <= i < |g.subProjects| ==>
           r.subProjects[i].name == g.subProjects[i].name &&
           r.subProjects[i].description == g.subProjects[i].description
  {
  }

  /** The directory is kept or cleared, and it survives exactly when it names
      something that stat reports as a directory. */
  lemma ValidatedDir(g: GroupValue, labels: LabelsYAML, org: Org,
                     stat: string -> StatResult, head: string -> HeadResult)
    requires g.labelName != "" ==> labels.default.Some?
    ensures var r := ValidatedGroup(g, labels, org, stat, head);
      && (r.dir == g.dir || r.dir == "")
      && (r.dir != "" <==> g.dir != "" && stat(g.dir) == StatOk(true))
  {
  }

  /** The label is kept or cleared, and it survives exactly when some default label
      carries it; the repository-specific label sets play no part. */
  lemma ValidatedLabel(g: GroupValue, labels: LabelsYAML, repos: map<string, LabelRepo>, org: Org,
                       stat: string -> StatResult, head: string -> HeadResult)
    requires g.labelName != "" ==> labels.default.Some?
    ensures var r := ValidatedGroup(g, labels, org, stat, head);
      && (r.labelName == g.labelName || r.labelName == "")
      && (r.labelName != "" <==>
            g.labelName != "" &&
            exists i :: 0 <= i < |labels.default.value.labels| && labels.default.value.labels[i].name == g.labelName)
    ensures ValidatedGroup(g, labels.(repos := repos), org, stat, head) == ValidatedGroup(g, labels, org, stat, head)
  {
  }

  /** Leads and chairs keep exactly the entries whose handle the org knows, each lead
      as often as before. */
  lemma ValidatedMembers(g: GroupValue, labels: LabelsYAML, org: Org,
                         stat: string -> StatResult, head: string -> HeadResult)
    requires g.labelName != "" ==> labels.default.Some?
    ensures var r := ValidatedGroup(g, labels, org, stat, head);
      && (forall m :: m in r.leads <==> m in g.leads && HasMember(org, m.github))
      && (forall m :: multiset(r.leads)[m] == if HasMember(org, m.github) then multiset(g.leads)[m] else 0)
      && (r.leadership.Some? ==>
            forall m :: m in r.leadership.value <==> m in g.leadership.value && HasMember(org, m.github))
  {
    FilterMembers(g.leads, IsOrgMember(org));
    FilterCounts(g.leads, IsOrgMember(org));
    if g.leadership.Some? {
      FilterMembers(g.leadership.value, IsOrgMember(org));
    }
  }

  /** A subproject keeps exactly the leads the org knows and the OWNERS references
      that answer with a 2xx status. */
  lemma ValidatedSubProjectMembers(sp: SubProject, org: Org, head: string -> HeadResult)
    ensures var r := ValidatedSubProject(sp, org, head);
      && r.name == sp.name && r.description == sp.description
      && (forall m :: m in r.leads <==> m in sp.leads && HasMember(org, m.github))
      && (forall u :: u in r.owners <==>
            u in sp.owners && head(u).HeadResponse? && 200 <= head(u).statusCode < 300)
  {
    FilterMembers(sp.leads, IsOrgMember(org));
    FilterMembers(sp.owners, OwnersFileFound(head));
  }

  /** A second pass over a validated subproject changes nothing. */
  lemma ValidatedSubProjectIdempotent(sp: SubProject, org: Org, head: string -> HeadResult)
    ensures var r := ValidatedSubProject(sp, org, head);
      ValidatedSubProject(r, org, head) == r
  {
    FilterIdempotent(sp.leads, IsOrgMember(org));
    FilterIdempotent(sp.owners, OwnersFileFound(head));
  }

  /** A second pass over a validated group changes nothing, as long as the file
      system, the HTTP answers and the org stay the same. */
  lemma {:induction false} ValidatedGroupIdempotent(g: GroupValue, labels: LabelsYAML, org: Org,
                                                    stat: string -> StatResult, head: string -> HeadResult)
    requires g.labelName != "" ==> labels.default.Some?
    ensures var r := ValidatedGroup(g, labels, org, stat, head);
      && (r.labelName != "" ==> labels.default.Some?)
      && ValidatedGroup(r, labels, org, stat, head) == r
  {
    var r := ValidatedGroup(g, labels, org, stat, head);
    FilterIdempotent(g.leads, IsOrgMember(org));
    if g.leadership.Some? {
      FilterIdempotent(g.leadership.value, IsOrgMember(org));
    }
    forall i | 0 <= i < |g.subProjects|
      ensures ValidatedSubProject(r.subProjects[i], org, head) == r.subProjects[i]
    {
      ValidatedSubProjectIdempotent(g.subProjects[i], org, head);
    }
  }

  /** Cases the validator is expected to handle: a missing directory and a file in
      place of a directory are cleared, a label only a repository-specific set carries is
      cleared, a chair the org does not know is dropped while the (now empty) leadership
      record stays, and an OWNERS reference answering 404 is dropped. */
  lemma ValidatorScenarios()
    ensures var g := GroupValue("sig-test", "non-existing-dir", "", "", "", [], None, [], None, []);
      ValidatedGroup(g, LabelsYAML(None, map[]), Org([], []), _ => StatFailed, _ => HeadFailed).dir == ""
    ensures var g := GroupValue("sig-test", "testdata/existing-file", "", "", "", [], None, [], None, []);
      ValidatedGroup(g, LabelsYAML(None, map[]), Org([], []), _ => StatOk(false), _ => HeadFailed).dir == ""
    ensures var g := GroupValue("sig-test", "", "", "", "existing-label", [], None, [], None, []);
      var labels := LabelsYAML(Some(LabelRepo([Label("")])),
                               map["somerepo" := LabelRepo([Label("existing-label")])]);
      ValidatedGroup(g, labels, Org([], []), _ => StatFailed, _ => HeadFailed).labelName == ""
    ensures var g := GroupValue("sig-test", "", "", "", "", [], Some([OrgMember("nonexisting-gh", "", "")]), [], None, []);
      ValidatedGroup(g, LabelsYAML(None, map[]), Org([], []), _ => StatFailed, _ => HeadFailed).leadership == Some([])
    ensures var url := "https://raw.githubusercontent.com/kubevirt/non-existing-repo/main/OWNERS";
      var g := GroupValue("sig-test", "", "", "", "", [], None, [], None, [SubProject("some-subproject", "", [url], [])]);
      ValidatedGroup(g, LabelsYAML(None, map[]), Org([], []), _ => StatFailed, _ => HeadResponse(404)).subProjects
        == [SubProject("some-subproject", "", [], [])]
  {
    var labels := LabelsYAML(Some(LabelRepo([Label("")])),
                             map["somerepo" := LabelRepo([Label("existing-label")])]);
    assert !InDefaultLabels(labels.default.value, "existing-label");
    var noOrg := Org([], []);
    assert !HasMember(noOrg, "nonexisting-gh");
    assert Filter([OrgMember("nonexisting-gh", "", "")], IsOrgMember(noOrg)) == [];
    var url := "https://raw.githubusercontent.com/kubevirt/non-existing-repo/main/OWNERS";
    assert Filter([url], OwnersFileFound(_ => HeadResponse(404))) == [];
  }

  // ---------------------------------------------------------------------------
  // The loops of validateGroup

  /** The label loop: whether some default label carries the name; stops at the first. */
  method LabelExists(catalog: LabelRepo, labelName: string) returns (foundLabel: bool)
    ensures foundLabel <==> InDefaultLabels(catalog, labelName)
  {
    foundLabel := false;
    var i := 0;
    while i < |catalog.labels|
      invariant 0 <= i <= |catalog.labels|
      invariant !foundLabel
      invariant forall j :: 0 <= j < i ==> catalog.labels[j].name != labelName
    {
      if catalog.labels[i].name == labelName {
        foundLabel := true;
        break;
      }
      i := i + 1;
    }
  }

  /** The lead and chair loops: the entries whose handle the org knows, in their order. */
  method CheckedMembers(members: seq<OrgMember>, org: Org) returns (checked: seq<OrgMember>)
    ensures checked == Filter(members, IsOrgMember(org))
  {
    checked := [];
    for i := 0 to |members|
      invariant checked == Filter(members[..i], IsOrgMember(org))
    {
      FilterSnoc(members[..i], members[i], IsOrgMember(org));
      assert members[..i + 1] == members[..i] + [members[i]];
      if HasMember(org, members[i].github) {
        checked := checked + [members[i]];
      }
    }
    assert members[..|members|] == members;
  }

  /** validateOwnersReferences: the OWNERS URLs of the subproject that answered HEAD with
      a 2xx status, in their order. */
  method ValidateOwnersReferences(subProject: SubProject, head: string -> HeadResult) returns (foundOwners: seq<string>)
    ensures foundOwners == Filter(subProject.owners, OwnersFileFound(head))
    ensures forall u :: u in foundOwners <==>
              u in subProject.owners && head(u).HeadResponse? && 200 <= head(u).statusCode < 300
  {
    foundOwners := [];
    var owners := subProject.owners;
    for i := 0 to |owners|
      invariant foundOwners == Filter(owners[..i], OwnersFileFound(head))
    {
      var ownersFileUrl := owners[i];
      FilterSnoc(owners[..i], ownersFileUrl, OwnersFileFound(head));
      assert owners[..i + 1] == owners[..i] + [ownersFileUrl];
      var response := head(ownersFileUrl);
      if response.HeadFailed? {
        continue;
      }
      if response.statusCode >= StatusOK && response.statusCode < StatusMultipleChoices {
        foundOwners := foundOwners + [ownersFileUrl];
      }
    }
    assert owners[..|owners|] == owners;
    FilterMembers(owners, OwnersFileFound(head));
  }

  /** The subproject loop of validateGroup: each subproject keeps the OWNERS references
      that answer and the leads the org knows; the list itself keeps its length and order. */
  method ValidateSubProjects(g: Group, org: Org, head: string -> HeadResult)
    modifies g`subProjects
    ensures g.subProjects == ValidatedSubProjects(old(g.subProjects), org, head)
  {
    ghost var before := g.subProjects;
    for i := 0 to |g.subProjects|
      invariant |g.subProjects| == |before|
      invariant forall j :: 0 <= j < i ==> g.subProjects[j] == ValidatedSubProject(before[j], org, head)
      invariant forall j :: i <= j < |before| ==> g.subProjects[j] == before[j]
    {
      var subProject := g.subProjects[i];
      var foundOwners := ValidateOwnersReferences(subProject, head);
      subProject := subProject.(owners := foundOwners);
      var checkedSubprojectLeads := CheckedMembers(subProject.leads, org);
      subProject := subProject.(leads := checkedSubprojectLeads);
      g.subProjects := g.subProjects[i := subProject];
    }
  }

  /** The directory check of validateGroup. */
  method CheckDir(g: Group, stat: string -> StatResult)
    modifies g`dir
    ensures g.dir == CheckedDir(old(g.dir), stat)
  {
    if g.dir != "" {
      var st := stat(g.dir);
      if st.StatFailed? {
        g.dir := "";
      } else if !st.isDir {
        g.dir := "";
      }
    }
  }

  /** The label check of validateGroup. */
  method CheckLabel(g: Group, labels: LabelsYAML)
    requires g.labelName != "" ==> labels.default.Some?
    modifies g`labelName
    ensures g.labelName == CheckedLabel(old(g.labelName), labels)
  {
    if g.labelName != "" {
      var foundLabel := LabelExists(labels.default.value, g.labelName);
      if !foundLabel {
        g.labelName := "";
      }
    }
  }

  /** The chair check of validateGroup: a nil leadership record stays nil. */
  method CheckChairs(g: Group, org: Org)
    modifies g`leadership
    ensures g.leadership == if old(g.leadership).None? then None
                            else Some(Filter(old(g.leadership).value, IsOrgMember(org)))
  {
    if g.leadership.Some? {
      var checkedLeadership := CheckedMembers(g.leadership.value, org);
      g.leadership := Some(checkedLeadership);
    }
  }

  /** validateGroup: updates the group in place. */
  method ValidateGroup(groupType: string, g: Group, labels: LabelsYAML, org: Org,
                       stat: string -> StatResult, head: string -> HeadResult)
    requires g.labelName != "" ==> labels.default.Some?
    modifies g`dir, g`labelName, g`leads, g`leadership, g`subProjects
    ensures g.Value() == ValidatedGroup(old(g.Value()), labels, org, stat, head)
  {
    ghost var v := g.Value();
    CheckDir(g, stat);
    CheckLabel(g, labels);
    g.leads := CheckedMembers(g.leads, org);
    CheckChairs(g, org);
    ValidateSubProjects(g, org, head);
    assert g.Value() == v.(dir := g.dir, labelName := g.labelName, leads := g.leads,
                           leadership := g.leadership, subProjects := g.subProjects);
  }

  /** One of the four loops of the validator's main function: validateGroup on every
      group of one collection, in order. The groups are distinct objects, so each ends
      up validated exactly once. */
  method ValidateGroups(groupType: string, gs: seq<Group>, labels: LabelsYAML, org: Org,
                        stat: string -> StatResult, head: string -> HeadResult)
    requires Distinct(gs)
    requires forall i :: 0 <= i < |gs| ==> (gs[i].labelName != "" ==> labels.default.Some?)
    modifies set g | g in gs
    ensures forall i :: 0 <= i < |gs| ==>
              gs[i].Value() == ValidatedGroup(old(gs[i].Value()), labels, org, stat, head)
  {
    for i := 0 to |gs|
      invariant forall j :: 0 <= j < i ==>
                  gs[j].Value() == ValidatedGroup(old(gs[j].Value()), labels, org, stat, head)
      invariant forall j :: i <= j < |gs| ==> gs[j].Value() == old(gs[j].Value())
    {
      ValidateGroup(groupType, gs[i], labels, org, stat, head);
    }
  }

  /** The org the validator checks against: the "kubevirt" entry of the orgs
      configuration, or an org with no admins and no members when there is none. */
  function KubevirtOrg(orgs: map<string, Org>): Org
  {
    if "kubevirt" in orgs then orgs["kubevirt"] else Org([], [])
  }

  /** Every group of sigs.yaml, in the order the validator visits them. */
  function AllGroups(s: Sigs): (gs: seq<Group>)
    ensures |gs| == |s.sigs| + |s.workinggroups| + |s.usergroups| + |s.committees|
  {
    s.sigs + s.workinggroups + s.usergroups + s.committees
  }

  /** Distinct groups across the four collections make each collection distinct and
      keep the collections apart. */
  lemma AllGroupsApart(s: Sigs)
    requires Distinct(AllGroups(s))
    ensures Distinct(s.sigs) && Distinct(s.workinggroups) && Distinct(s.usergroups) && Distinct(s.committees)
    ensures forall g :: g in s.sigs ==> g !in s.workinggroups && g !in s.usergroups && g !in s.committees
    ensures forall g :: g in s.workinggroups ==> g !in s.usergroups && g !in s.committees
    ensures forall g :: g in s.usergroups ==> g !in s.committees
  {
    var all := AllGroups(s);
    var n1, n2, n3 := |s.sigs|, |s.sigs| + |s.workinggroups|, |s.sigs| + |s.workinggroups| + |s.usergroups|;
    assert forall i :: 0 <= i < n1 ==> all[i] == s.sigs[i];
    assert forall i :: 0 <= i < |s.workinggroups| ==> all[n1 + i] == s.workinggroups[i];
    assert forall i :: 0 <= i < |s.usergroups| ==> all[n2 + i] == s.usergroups[i];
    assert forall i :: 0 <= i < |s.committees| ==> all[n3 + i] == s.committees[i];
  }

  /** The validator's main pass: validateGroup on the SIGs, then the working groups,
      then the user groups, then the committees. Every group ends up validated once. */
  method ValidateSigs(s: Sigs, labels: LabelsYAML, orgs: map<string, Org>,
                      stat: string -> StatResult, head: string -> HeadResult)
    requires Distinct(AllGroups(s))
    requires forall g :: g in AllGroups(s) ==> (g.labelName != "" ==> labels.default.Some?)
    modifies set g | g in AllGroups(s)
    ensures forall g :: g in AllGroups(s) ==>
              g.Value() == ValidatedGroup(old(g.Value()), labels, KubevirtOrg(orgs), stat, head)
  {
    var kubevirtOrg := KubevirtOrg(orgs);
    AllGroupsApart(s);

    ValidateGroups("sig", s.sigs, labels, kubevirtOrg, stat, head);
    ValidateGroups("wg", s.workinggroups, labels, kubevirtOrg, stat, head);
    ValidateGroups("ug", s.usergroups, labels, kubevirtOrg, stat, head);
    ValidateGroups("committee", s.committees, labels, kubevirtOrg, stat, head);
  }
}
