/** The contribution reporters (generators/cmd/contributions/report.go): a report result
    that sorts users into active, inactive and skipped-by-reason, a log, and the two
    reporters that fill them in. A contribution report is seen only through its three
    answers: whether it has contributions, its summary text, and what writing its
    activity log to a file returned. */
module Report {
  import opened Wrappers

  /** What WriteToFile returned: the name of the file written, or an error. */
  datatype WriteOutcome = Written(fileName: string) | WriteFailed(error: string)

  /** A contribution report, by its answers to HasContributions, Summary and WriteToFile. */
  datatype ContributionReport = ContributionReport(hasContributions: bool, summary: string, write: WriteOutcome)

  /** The state a reporter accumulates: the three user lists of the result, with None
      for a skipped-users map that has not been created yet, and the log. */
  datatype ReportState = ReportState(
    activeUsers: seq<string>,
    inactiveUsers: seq<string>,
    skippedUsers: Option<map<string, seq<string>>>,
    log: seq<string>)

  const EmptyState := ReportState([], [], None, [])

  const WriteFailedPrefix := "failed to write file: "

  /** The log line naming the file an activity log went to. Go's %q escaping of the
      name is not modelled: the name is put between double quotes as it is. */
  function WrittenLine(fileName: string): string
  {
    "activity log written to \"" + fileName + "\""
  }

  /** The skipped-users map as Go reads it: a nil map reads as empty. */
  function Skipped(skipped: Option<map<string, seq<string>>>): map<string, seq<string>>
  {
    if skipped.None? then map[] else skipped.value
  }

  /** The users skipped for a reason, as Go reads a map entry: a missing one is empty. */
  function SkippedFor(skipped: Option<map<string, seq<string>>>, reason: string): seq<string>
  {
    var m := Skipped(skipped);
    if reason in m then m[reason] else []
  }

  /** The skipped-users map after SkipUser: the user is appended to the reason's list,
      which is created if missing; every other reason keeps its list. */
  function AfterSkip(skipped: Option<map<string, seq<string>>>, reason: string, userName: string)
    : (r: map<string, seq<string>>)
    ensures r.Keys == Skipped(skipped).Keys + {reason}
    ensures r[reason] == SkippedFor(skipped, reason) + [userName]
    ensures forall other :: other in r && other != reason ==> r[other] == SkippedFor(skipped, other)
  {
    Skipped(skipped)[reason := SkippedFor(skipped, reason) + [userName]]
  }

  /** Skip on either reporter: SkipUser(reason, userName) on its result. */
  function SkipState(s: ReportState, userName: string, reason: string): ReportState
  {
    s.(skippedUsers := Some(AfterSkip(s.skippedUsers, reason, userName)))
  }

  /** The error DefaultReporter.Report and InactiveOnlyReporter.Report return for a
      write outcome. */
  function WriteError(write: WriteOutcome): Option<string>
  {
    match write
    case Written(_) => None
    case WriteFailed(e) => Some(WriteFailedPrefix + e)
  }

  /** What InactiveOnlyReporter.Report does: the new state and the error it returns. */
  datatype Outcome = Outcome(state: ReportState, err: Option<string>)

  function InactiveOnlyStep(s: ReportState, r: ContributionReport, userName: string): Outcome
  {
    if r.hasContributions then
      Outcome(s.(activeUsers := s.activeUsers + [userName]), None)
    else
      match r.write
      case WriteFailed(_) => Outcome(s.(log := s.log + [r.summary]), WriteError(r.write))
      case Written(fileName) =>
        Outcome(s.(log := s.log + [r.summary, WrittenLine(fileName)], inactiveUsers := s.inactiveUsers + [userName]), None)
  }

  // ---------------------------------------------------------------------------
  // Properties of the steps

  /** Skipping a user puts them in the reason's list once more and nowhere else: the
      active and inactive users, the log and every other reason's list are unchanged. */
  lemma SkipPlacesUser(s: ReportState, userName: string, reason: string)
    ensures var t := SkipState(s, userName, reason);
      && t.skippedUsers.Some?
      && multiset(SkippedFor(t.skippedUsers, reason)) == multiset(SkippedFor(s.skippedUsers, reason)) + multiset{userName}
      && (forall other :: other != reason ==> SkippedFor(t.skippedUsers, other) == SkippedFor(s.skippedUsers, other))
      && t.activeUsers == s.activeUsers && t.inactiveUsers == s.inactiveUsers && t.log == s.log
  {
    var t := SkipState(s, userName, reason);
    forall other | other != reason
      ensures SkippedFor(t.skippedUsers, other) == SkippedFor(s.skippedUsers, other)
    {
      if other in Skipped(s.skippedUsers) {
        assert other in Skipped(t.skippedUsers);
      }
    }
  }

  /** A report that does not fail puts the user into exactly one of the active and
      inactive lists, once; a failing one puts the user nowhere. Skipped users are
      never touched. */
  lemma InactiveOnlyPlacesUser(s: ReportState, r: ContributionReport, userName: string)
    ensures var o := InactiveOnlyStep(s, r, userName);
      && o.state.skippedUsers == s.skippedUsers
      && (o.err.None? <==> r.hasContributions || r.write.Written?)
      && (o.err.None? ==>
            multiset(o.state.activeUsers) + multiset(o.state.inactiveUsers)
            == multiset(s.activeUsers) + multiset(s.inactiveUsers) + multiset{userName})
      && (o.err.Some? ==> o.state.activeUsers == s.activeUsers && o.state.inactiveUsers == s.inactiveUsers)
      && (r.hasContributions ==> o.state.activeUsers == s.activeUsers + [userName] && o.state.inactiveUsers == s.inactiveUsers)
      && (!r.hasContributions ==> o.state.activeUsers == s.activeUsers)
  {
  }

  /** The log gains nothing for an active user, the summary alone when the write fails,
      and the summary then the file line when it succeeds. */
  lemma InactiveOnlyLog(s: ReportState, r: ContributionReport, userName: string)
    ensures var o := InactiveOnlyStep(s, r, userName);
      && (r.hasContributions ==> o.state.log == s.log)
      && (!r.hasContributions && r.write.WriteFailed? ==>
            o.state.log == s.log + [r.summary] && o.err == Some(WriteFailedPrefix + r.write.error))
      && (!r.hasContributions && r.write.Written? ==>
            o.state.log == s.log + [r.summary, WrittenLine(r.write.fileName)]
            && o.state.inactiveUsers == s.inactiveUsers + [userName])
  {
  }

  // ---------------------------------------------------------------------------
  // The objects

  /** ReportResult. */
  class ReportResult {
    var activeUsers: seq<string>
    var inactiveUsers: seq<string>
    var skippedUsers: Option<map<string, seq<string>>>

    /** The zero value &ReportResult{}. */
    constructor ()
      ensures activeUsers == [] && inactiveUsers == [] && skippedUsers == None
    {
      activeUsers, inactiveUsers, skippedUsers := [], [], None;
    }

    /** SkipUser: create the map if it is nil, then append the user to the reason's list. */
    method SkipUser(reason: string, userName: string)
      modifies this`skippedUsers
      ensures skippedUsers == Some(AfterSkip(old(skippedUsers), reason, userName))
    {
      if skippedUsers.None? {
        skippedUsers := Some(map[]);
      }
      var m := skippedUsers.value;
      var users := if reason in m then m[reason] else [];
      skippedUsers := Some(m[reason := users + [userName]]);
    }
  }

  /** Report: the result and the log; the report options and configuration it also
      carries are not modelled. */
  class Report {
    const result: ReportResult
    var log: seq<string>

    function State(): ReportState
      reads this, result
    {
      ReportState(result.activeUsers, result.inactiveUsers, result.skippedUsers, log)
    }

    /** NewReportWithConfiguration: a fresh, empty result and an empty log. */
    constructor ()
      ensures fresh(result)
      ensures State() == EmptyState
    {
      result := new ReportResult();
      log := [];
    }
  }

  /** DefaultReporter: prints each summary and writes each activity log, whatever the
      user's activity, and records nothing but skipped users. */
  class DefaultReporter {
    const report: Report

    /** NewDefaultReporter. */
    constructor ()
      ensures fresh(report) && fresh(report.result)
      ensures report.State() == EmptyState
    {
      report := new Report();
    }

    method Skip(userName: string, reason: string)
      modifies report.result`skippedUsers
      ensures report.State() == SkipState(old(report.State()), userName, reason)
    {
      report.result.SkipUser(reason, userName);
    }

    /** Report: the summary goes to standard output, which is not modelled; the only
      effect kept is the error for a failed write. */
    method Report(r: ContributionReport, userName: string) returns (err: Option<string>)
      ensures err.None? <==> r.write.Written?
      ensures err.Some? ==> err.value == WriteFailedPrefix + r.write.error
    {
      match r.write {
        case WriteFailed(e) => return Some(WriteFailedPrefix + e);
        case Written(_) => return None;
      }
    }

    function Summary(): (s: string)
      ensures s == ""
    {
      ""
    }
  }

  /** InactiveOnlyReporter: records active users, and logs and records inactive ones
      whose activity log was written. */
  class InactiveOnlyReporter {
    const report: Report

    /** NewInactiveOnlyReporter. */
    constructor ()
      ensures fresh(report) && fresh(report.result)
      ensures report.State() == EmptyState
    {
      report := new Report();
    }

    method Skip(userName: string, reason: string)
      modifies report.result`skippedUsers
      ensures report.State() == SkipState(old(report.State()), userName, reason)
    {
      report.result.SkipUser(reason, userName);
    }

    method Report(r: ContributionReport, userName: string) returns (err: Option<string>)
      modifies report, report.result
      ensures Outcome(report.State(), err) == InactiveOnlyStep(old(report.State()), r, userName)
    {
      if r.hasContributions {
        report.result.activeUsers := report.result.activeUsers + [userName];
        return None;
      }
      report.log := report.log + [r.summary];
      match r.write {
        case WriteFailed(e) =>
          return Some(WriteFailedPrefix + e);
        case Written(fileName) =>
          report.log := report.log + [WrittenLine(fileName)];
          report.result.inactiveUsers := report.result.inactiveUsers + [userName];
          return None;
      }
    }
  }
}
