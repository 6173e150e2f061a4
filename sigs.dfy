/** The SIG configuration (pkg/sigs/types.go): groups as the objects the validator
    updates through pointers, their subprojects and leadership held by value, and the
    plain values the group objects hold. */
module Sigs {
  import opened Wrappers

  datatype OrgMember = OrgMember(github: string, name: string, company: string)
  type Chair = OrgMember
  type Lead = OrgMember

  datatype Team = Team(name: string, description: string)

  datatype Contact = Contact(slack: string, mailingList: string, teams: seq<Team>, liaison: Option<OrgMember>)

  datatype Meeting = Meeting(
    description: string, day: string, time: string, tz: string, frequency: string,
    url: string, archiveUrl: string, recordingsUrl: string)

  /** A subproject: its OWNERS file references and its leads. The group holds its
      subprojects as values; the validator writes the checked lists back into them. */
  datatype SubProject = SubProject(name: string, description: string, owners: seq<string>, leads: seq<Lead>)

  /** What a group holds; `leadership` is None where the group's Leadership pointer is nil. */
  datatype GroupValue = GroupValue(
    name: string,
    dir: string,
    description: string,
    missionStatement: string,
    labelName: string,
    leads: seq<Lead>,
    leadership: Option<seq<Chair>>,
    meetings: seq<Meeting>,
    contact: Option<Contact>,
    subProjects: seq<SubProject>)

  class Group {
    var name: string
    var dir: string
    var description: string
    var missionStatement: string
    var labelName: string
    var leads: seq<Lead>
    /** The chairs of the group's leadership record; None where the pointer is nil. */
    var leadership: Option<seq<Chair>>
    var meetings: seq<Meeting>
    var contact: Option<Contact>
    var subProjects: seq<SubProject>

    function Value(): (v: GroupValue)
      reads this
    {
      GroupValue(
        name, dir, description, missionStatement, labelName, leads, leadership,
        meetings, contact, subProjects)
    }
  }

  /** The four group collections of sigs.yaml. */
  datatype Sigs = Sigs(sigs: seq<Group>, workinggroups: seq<Group>, usergroups: seq<Group>, committees: seq<Group>)

  /** Distinct groups, as a YAML decoder builds them. */
  predicate Distinct(gs: seq<Group>)
  {
    forall i, j :: 0 <= i < j < |gs| ==> gs[i] != gs[j]
  }

  /** What a sequence of groups holds, group by group. */
  ghost function Values(gs: seq<Group>): (vs: seq<GroupValue>)
    reads gs
    ensures |vs| == |gs|
    ensures forall i :: 0 <= i < |gs| ==> vs[i] == gs[i].Value()
    decreases |gs|
  {
    if gs == [] then [] else Values(gs[..|gs| - 1]) + [gs[|gs| - 1].Value()]
  }

  /** Groups whose fields have not changed hold what they held. */
  twostate lemma ValuesUnchanged(gs: seq<Group>)
    requires unchanged(gs)
    ensures Values(gs) == old(Values(gs))
  {
  }
}
