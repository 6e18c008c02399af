/** The collection loop and the exit code of test.py's run_tests. */
module TestTally {
  import opened TestReports
  import opened TestRunner

  datatype Verdict = NoResult | SKIP | PASS | FAIL | VALGR | CRASH

  datatype Tally = Tally(
    passed: nat, failed: nat, crashed: nat, valgrindErrors: nat, skipped: nat,
    failedNames: seq<string>, crashedNames: seq<string>, valgrindNames: seq<string>, skippedNames: seq<string>)

  /** A job's return code; it is False, which equals 0, until the job has been run. */
  function ReturnCode(r: Report): int {
    match r.outcome
    case Returned(code) => code
    case _ => 0
  }

  /** What a report says about its job. */
  predicate Means(c: Config, r: Report, v: Verdict)
    requires r.job < |c.jobs|
  {
    match v
    case NoResult => r.outcome == Interrupted
    case SKIP => r.outcome != Interrupted && c.jobs[r.job].isSkip
    case PASS => r.outcome != Interrupted && !c.jobs[r.job].isSkip && ReturnCode(r) == 0
    case FAIL => r.outcome != Interrupted && !c.jobs[r.job].isSkip && ReturnCode(r) == 1
    case VALGR => r.outcome != Interrupted && !c.jobs[r.job].isSkip && ReturnCode(r) == 2
    case CRASH => r.outcome != Interrupted && !c.jobs[r.job].isSkip && ReturnCode(r) !in {0, 1, 2}
  }

  ghost predicate JobsKnown(c: Config, reports: seq<Report>) {
    forall i :: 0 <= i < |reports| ==> reports[i].job < |c.jobs|
  }

  /** The reports with a given verdict, in the order in which they came. */
  ghost function Select(c: Config, reports: seq<Report>, v: Verdict): seq<Report>
    requires JobsKnown(c, reports)
  {
    if reports == [] then [] else
    var last := reports[|reports|-1];
    Select(c, reports[..|reports|-1], v) + if Means(c, last, v) then [last] else []
  }

  function DisplayName(c: Config, r: Report): string
    requires r.job < |c.jobs|
  {
    c.jobs[r.job].name
  }

  function NameWithReason(c: Config, r: Report): string
    requires r.job < |c.jobs|
  {
    c.jobs[r.job].name + " (" + c.jobs[r.job].skipReason + ")"
  }

  /** A counter and its list of names, for the reports with one verdict. */
  ghost predicate CountedAs(c: Config, reports: seq<Report>, v: Verdict, count: nat, names: seq<string>,
                            name: (Config, Report) --> string)
    requires JobsKnown(c, reports)
    requires forall r: Report :: r.job < |c.jobs| ==> name.requires(c, r)
  {
    var chosen := Select(c, reports, v);
    && count == |chosen| == |names|
    && forall i :: 0 <= i < count ==> chosen[i].job < |c.jobs| && names[i] == name(c, chosen[i])
  }

  ghost predicate Tallied(c: Config, reports: seq<Report>, t: Tally)
    requires JobsKnown(c, reports)
  {
    && t.passed == |Select(c, reports, PASS)|
    && CountedAs(c, reports, FAIL, t.failed, t.failedNames, DisplayName)
    && CountedAs(c, reports, VALGR, t.valgrindErrors, t.valgrindNames, DisplayName)
    && CountedAs(c, reports, CRASH, t.crashed, t.crashedNames, DisplayName)
    && CountedAs(c, reports, SKIP, t.skipped, t.skippedNames, NameWithReason)
  }

  lemma OneReportMore(c: Config, sofar: seq<Report>, r: Report, v: Verdict, count: nat, names: seq<string>,
                      name: (Config, Report) --> string)
    requires JobsKnown(c, sofar + [r]) && JobsKnown(c, sofar) && r.job < |c.jobs|
    requires forall q: Report :: q.job < |c.jobs| ==> name.requires(c, q)
    ensures Select(c, sofar + [r], v) == Select(c, sofar, v) + if Means(c, r, v) then [r] else []
    ensures CountedAs(c, sofar, v, count, names, name) ==>
      if Means(c, r, v) then CountedAs(c, sofar + [r], v, count + 1, names + [name(c, r)], name)
      else CountedAs(c, sofar + [r], v, count, names, name)
  {
    assert (sofar + [r])[..|sofar|] == sofar;
  }

  lemma NothingTallied(c: Config)
    ensures Tallied(c, [], Tally(0, 0, 0, 0, 0, [], [], [], []))
  {
  }

  method CollectResults(c: Config, reports: seq<Report>) returns (t: Tally)
    requires JobsKnown(c, reports)
    ensures Tallied(c, reports, t)
  {
    hide CountedAs, Select, DisplayName, NameWithReason;
    t := Tally(0, 0, 0, 0, 0, [], [], [], []);
    NothingTallied(c);
    for i := 0 to |reports|
      invariant Tallied(c, reports[..i], t)
    {
      var r := reports[i];
      ghost var sofar := reports[..i];
      assert reports[..i+1] == sofar + [r];
      OneReportMore(c, sofar, r, PASS, 0, [], DisplayName);
      OneReportMore(c, sofar, r, FAIL, t.failed, t.failedNames, DisplayName);
      OneReportMore(c, sofar, r, VALGR, t.valgrindErrors, t.valgrindNames, DisplayName);
      OneReportMore(c, sofar, r, CRASH, t.crashed, t.crashedNames, DisplayName);
      OneReportMore(c, sofar, r, SKIP, t.skipped, t.skippedNames, NameWithReason);
      if r.outcome == Interrupted {
        continue;
      }
      if c.jobs[r.job].isSkip {
        t := t.(skipped := t.skipped + 1, skippedNames := t.skippedNames + [NameWithReason(c, r)]);
      } else {
        var code := ReturnCode(r);
        if code == 0 {
          t := t.(passed := t.passed + 1);
        } else if code == 1 {
          t := t.(failed := t.failed + 1, failedNames := t.failedNames + [DisplayName(c, r)]);
        } else if code == 2 {
          t := t.(valgrindErrors := t.valgrindErrors + 1, valgrindNames := t.valgrindNames + [DisplayName(c, r)]);
        } else {
          t := t.(crashed := t.crashed + 1, crashedNames := t.crashedNames + [DisplayName(c, r)]);
        }
      }
    }
    assert reports[..|reports|] == reports;
  }

  function ExitCode(t: Tally, totalTests: nat): int {
    if t.passed + t.skipped == totalTests then 0 else 1
  }

  /** Every report is counted under exactly one verdict. */
  lemma {:induction false} VerdictsAddUp(c: Config, reports: seq<Report>)
    requires JobsKnown(c, reports)
    ensures |Select(c, reports, PASS)| + |Select(c, reports, FAIL)| + |Select(c, reports, CRASH)|
      + |Select(c, reports, VALGR)| + |Select(c, reports, SKIP)| + |Select(c, reports, NoResult)| == |reports|
  {
    if reports != [] {
      VerdictsAddUp(c, reports[..|reports|-1]);
    }
  }

  lemma {:induction false} SelectIsExact(c: Config, reports: seq<Report>, v: Verdict, r: Report)
    requires JobsKnown(c, reports)
    ensures r in Select(c, reports, v) <==> r in reports && Means(c, r, v)
  {
    if reports != [] {
      SelectIsExact(c, reports[..|reports|-1], v, r);
      assert reports == reports[..|reports|-1] + [reports[|reports|-1]];
    }
  }

  ghost predicate JobSucceeded(c: Config, reports: seq<Report>, j: nat)
    requires JobsKnown(c, reports)
  {
    exists r :: r in reports && r.job == j && (Means(c, r, PASS) || Means(c, r, SKIP))
  }

  ghost predicate Succeeded(c: Config, reports: seq<Report>)
    requires JobsKnown(c, reports)
  {
    forall i :: 0 <= i < |reports| ==> Means(c, reports[i], PASS) || Means(c, reports[i], SKIP)
  }

  lemma {:induction false} AllCountedAsSuccess(c: Config, reports: seq<Report>)
    requires JobsKnown(c, reports)
    ensures |Select(c, reports, PASS)| + |Select(c, reports, SKIP)| == |reports| <==> Succeeded(c, reports)
    ensures |Select(c, reports, PASS)| + |Select(c, reports, SKIP)| <= |reports|
  {
    if reports != [] {
      var n := |reports| - 1;
      AllCountedAsSuccess(c, reports[..n]);
      assert Succeeded(c, reports) <==>
        Succeeded(c, reports[..n]) && (Means(c, reports[n], PASS) || Means(c, reports[n], SKIP));
    }
  }

  lemma {:induction false} ReportOfJob(j: nat, reports: seq<Report>, i: nat, k: nat)
    requires Sum(CopiesOf(j).collected, reports) == 1
    requires i < |reports| && k < |reports| && reports[i].job == j && reports[k].job == j
    ensures i == k
  {
    if i > 0 && k > 0 {
      SumOfTail(j, reports, i);
      ReportOfJob(j, reports[1..], i - 1, k - 1);
    } else if i != k {
      SumOfTail(j, reports, if i > 0 then i else k);
    }
  }

  lemma SumOfTail(j: nat, reports: seq<Report>, i: nat)
    requires 0 < i < |reports| && reports[i].job == j
    ensures Sum(CopiesOf(j).collected, reports[1..]) > 0
  {
    SumPositive(CopiesOf(j).collected, reports[1..]);
    assert reports[1..][i-1] == reports[i];
  }

  /** When each job is reported once, success can be read off job by job. */
  lemma SuccessJobByJob(c: Config, reports: seq<Report>)
    requires JobsKnown(c, reports)
    requires forall j: nat :: Sum(CopiesOf(j).collected, reports) == if j < |c.jobs| then 1 else 0
    ensures Succeeded(c, reports) <==> forall j: nat :: j < |c.jobs| ==> JobSucceeded(c, reports, j)
  {
    hide Sum, Means;
    if Succeeded(c, reports) {
      forall j: nat | j < |c.jobs| ensures JobSucceeded(c, reports, j) {
        SumPositive(CopiesOf(j).collected, reports);
        var i :| 0 <= i < |reports| && reports[i].job == j;
        assert reports[i] in reports;
      }
    }
    if forall j: nat :: j < |c.jobs| ==> JobSucceeded(c, reports, j) {
      forall i | 0 <= i < |reports| ensures Means(c, reports[i], PASS) || Means(c, reports[i], SKIP) {
        var j := reports[i].job;
        assert JobSucceeded(c, reports, j);
        var r :| r in reports && r.job == j && (Means(c, r, PASS) || Means(c, r, SKIP));
        var k :| 0 <= k < |reports| && reports[k] == r;
        ReportOfJob(j, reports, i, k);
      }
    }
  }

  lemma CollectedJobsAreKnown(c: Config, run: seq<Action>)
    requires IsRun(c, run)
    ensures JobsKnown(c, After(c, run).collected)
  {
    InvHolds(c, run);
    forall i | 0 <= i < |After(c, run).collected| ensures After(c, run).collected[i].job < |c.jobs| {
      assert Truthful(c, After(c, run), After(c, run).collected[i]);
    }
  }

  /** Over any run that ends: the counters add up to the number of jobs, the exit code is 0 exactly when every
      dispatched job passed or was skipped, and one interrupted job is enough to make it 1. */
  lemma TallyOfRun(c: Config, run: seq<Action>, t: Tally)
    requires IsRun(c, run) && Finished(c, After(c, run))
    requires JobsKnown(c, After(c, run).collected) && Tallied(c, After(c, run).collected, t)
    ensures var reports := After(c, run).collected;
      && t.passed + t.failed + t.crashed + t.valgrindErrors + t.skipped + |Select(c, reports, NoResult)| == |c.jobs|
      && (ExitCode(t, |c.jobs|) == 0 <==> forall j: nat :: j < |c.jobs| ==> JobSucceeded(c, reports, j))
      && (forall r :: r in reports && r.outcome == Interrupted ==> ExitCode(t, |c.jobs|) == 1)
  {
    hide Select, Sum, JobSucceeded;
    var s := After(c, run);
    var reports := s.collected;
    InvHolds(c, run);
    AtTheEnd(c, s);
    VerdictsAddUp(c, reports);
    AllCountedAsSuccess(c, reports);
    SuccessJobByJob(c, reports);
  }

  // ----- the counts, job by job -----

  /** The jobs whose processes have ended with one of these return codes. */
  ghost function JobsReturning(c: Config, run: seq<Action>, codes: iset<int>): set<nat> {
    set j: nat | j < |c.jobs| && ReturnsOneOf(c, run, j, codes)
  }

  ghost predicate ReturnsOneOf(c: Config, run: seq<Action>, j: nat, codes: iset<int>) {
    exists code :: code in codes && MadeIn(c, run, Report(j, Returned(code)))
  }

  /** All codes that do not mean success, failure or an error found by valgrind. */
  ghost function CrashCodes(): iset<int> {
    iset code: int | IsCrashCode(code)
  }

  predicate IsCrashCode(code: int) {
    code != 0 && code != 1 && code != 2
  }

  ghost function JobsSkipped(c: Config, run: seq<Action>): set<nat> {
    set j: nat | j < |c.jobs| && MadeIn(c, run, Report(j, Skipped))
  }

  /** The jobs that were sent back because of an interrupt. */
  ghost function JobsInterrupted(c: Config, run: seq<Action>): set<nat> {
    set j: nat | j < |c.jobs| && MadeIn(c, run, Report(j, Interrupted))
  }

  ghost predicate EachJobReportedOnce(reports: seq<Report>) {
    forall i, k :: 0 <= i < k < |reports| ==> reports[i].job != reports[k].job
  }

  ghost predicate JobHas(c: Config, reports: seq<Report>, v: Verdict, j: nat)
    requires JobsKnown(c, reports)
  {
    exists r :: r in reports && r.job == j && Means(c, r, v)
  }

  /** With one report for each job, as many reports as jobs have a verdict. */
  lemma {:induction false} ReportsAreJobs(c: Config, reports: seq<Report>, v: Verdict, jobs: set<nat>)
    requires JobsKnown(c, reports) && EachJobReportedOnce(reports)
    requires forall j: nat :: j in jobs <==> JobHas(c, reports, v, j)
    ensures |Select(c, reports, v)| == |jobs|
  {
    hide Means;
    if reports == [] {
      assert forall j: nat :: !JobHas(c, reports, v, j);
      assert jobs == {};
    } else {
      var n := |reports| - 1;
      var last := reports[n];
      var fewer := if Means(c, last, v) then jobs - {last.job} else jobs;
      forall j: nat ensures j in fewer <==> JobHas(c, reports[..n], v, j) {
        LastReport(c, reports, v, j);
        NoEarlierReport(reports);
      }
      ReportsAreJobs(c, reports[..n], v, fewer);
      LastReport(c, reports, v, last.job);
    }
  }

  lemma LastReport(c: Config, reports: seq<Report>, v: Verdict, j: nat)
    requires reports != [] && JobsKnown(c, reports)
    ensures var last := reports[|reports|-1];
      JobHas(c, reports, v, j) <==> JobHas(c, reports[..|reports|-1], v, j) || (last.job == j && Means(c, last, v))
  {
    hide Means;
    var n := |reports| - 1;
    assert reports == reports[..n] + [reports[n]];
  }

  lemma NoEarlierReport(reports: seq<Report>)
    requires reports != [] && EachJobReportedOnce(reports)
    ensures forall r :: r in reports[..|reports|-1] ==> r.job != reports[|reports|-1].job
  {
  }

  lemma ReportedOnce(c: Config, reports: seq<Report>)
    requires JobsKnown(c, reports)
    requires forall j: nat :: Sum(CopiesOf(j).collected, reports) == if j < |c.jobs| then 1 else 0
    ensures EachJobReportedOnce(reports)
  {
    hide Sum;
    forall i, k | 0 <= i < k < |reports| ensures reports[i].job != reports[k].job {
      if reports[i].job == reports[k].job {
        ReportOfJob(reports[i].job, reports, i, k);
        assert false;
      }
    }
  }

  /** Which return codes and outcomes a verdict stands for. */
  ghost predicate Stands(v: Verdict, outcome: Outcome) {
    match v
    case NoResult => outcome == Interrupted
    case SKIP => outcome == Skipped
    case PASS => outcome == Returned(0)
    case FAIL => outcome == Returned(1)
    case VALGR => outcome == Returned(2)
    case CRASH => outcome.Returned? && outcome.code != 0 && outcome.code != 1 && outcome.code != 2
  }

  lemma TruthfulVerdict(c: Config, s: State, r: Report, v: Verdict)
    requires Truthful(c, s, r)
    ensures Means(c, r, v) <==> Stands(v, r.outcome)
  {
  }

  /** The jobs with a verdict at the end, told by what the workers have done. */
  lemma VerdictOfJob(c: Config, run: seq<Action>, v: Verdict, j: nat)
    requires IsRun(c, run) && Finished(c, After(c, run)) && JobsKnown(c, After(c, run).collected)
    ensures JobHas(c, After(c, run).collected, v, j) <==>
      j < |c.jobs| && exists outcome :: Stands(v, outcome) && MadeIn(c, run, Report(j, outcome))
  {
    hide After, Stands, Means;
    var reports := After(c, run).collected;
    InvHolds(c, run);
    forall r | r in reports ensures Means(c, r, v) <==> Stands(v, r.outcome) {
      var i :| 0 <= i < |reports| && reports[i] == r;
      TruthfulVerdict(c, After(c, run), reports[i], v);
    }
    if JobHas(c, reports, v, j) {
      var r :| r in reports && r.job == j && Means(c, r, v);
      CollectedAreMade(c, run, r);
      assert r == Report(j, r.outcome);
    }
    if outcome :| Stands(v, outcome) && MadeIn(c, run, Report(j, outcome)) {
      CollectedAreMade(c, run, Report(j, outcome));
      assert Report(j, outcome) in reports;
    }
  }

  ghost function JobsWith(c: Config, run: seq<Action>, v: Verdict): set<nat> {
    match v
    case NoResult => JobsInterrupted(c, run)
    case SKIP => JobsSkipped(c, run)
    case PASS => JobsReturning(c, run, iset{0})
    case FAIL => JobsReturning(c, run, iset{1})
    case VALGR => JobsReturning(c, run, iset{2})
    case CRASH => JobsReturning(c, run, CrashCodes())
  }

  lemma VerdictsOfJobs(c: Config, run: seq<Action>, v: Verdict)
    requires IsRun(c, run) && Finished(c, After(c, run)) && JobsKnown(c, After(c, run).collected)
    ensures forall j: nat :: j in JobsWith(c, run, v) <==> JobHas(c, After(c, run).collected, v, j)
    ensures |Select(c, After(c, run).collected, v)| == |JobsWith(c, run, v)|
  {
    hide After, JobHas, MadeIn, Select, Sum, IsRun, Finished, Inv;
    forall j: nat ensures j in JobsWith(c, run, v) <==> JobHas(c, After(c, run).collected, v, j) {
      VerdictOfJob(c, run, v, j);
      JobsOfVerdict(c, run, v, j);
    }
    InvHolds(c, run);
    AtTheEnd(c, After(c, run));
    ReportedOnce(c, After(c, run).collected);
    ReportsAreJobs(c, After(c, run).collected, v, JobsWith(c, run, v));
  }

  lemma JobsOfVerdict(c: Config, run: seq<Action>, v: Verdict, j: nat)
    ensures j in JobsWith(c, run, v) <==>
      j < |c.jobs| && exists outcome :: Stands(v, outcome) && MadeIn(c, run, Report(j, outcome))
  {
    hide MadeIn;
    if outcome :| Stands(v, outcome) && MadeIn(c, run, Report(j, outcome)) {
      if outcome.Returned? {
        assert MadeIn(c, run, Report(j, Returned(outcome.code)));
      }
    }
    if j in JobsWith(c, run, v) {
      match v {
        case NoResult => assert Stands(v, Interrupted);
        case SKIP => assert Stands(v, Skipped);
        case _ =>
          var code :| MadeIn(c, run, Report(j, Returned(code))) && Stands(v, Returned(code));
      }
    }
  }

  /** The names in a list are those of the reports that are counted. */
  lemma NamesAreCounted(c: Config, reports: seq<Report>, v: Verdict, count: nat, names: seq<string>,
                        name: (Config, Report) --> string, n: string)
    requires JobsKnown(c, reports) && forall r: Report :: r.job < |c.jobs| ==> name.requires(c, r)
    requires CountedAs(c, reports, v, count, names, name)
    ensures n in names <==> exists r :: r in reports && r.job < |c.jobs| && Means(c, r, v) && name(c, r) == n
  {
    hide Means, Select;
    var chosen := Select(c, reports, v);
    if n in names {
      var i :| 0 <= i < |names| && names[i] == n;
      SelectIsExact(c, reports, v, chosen[i]);
    }
    if r :| r in reports && r.job < |c.jobs| && Means(c, r, v) && name(c, r) == n {
      SelectIsExact(c, reports, v, r);
      var i :| 0 <= i < |chosen| && chosen[i] == r;
      assert names[i] == n;
    }
  }

  ghost predicate NamesOf(c: Config, names: seq<string>, jobs: set<nat>) {
    forall n :: n in names <==> exists j :: j in jobs && j < |c.jobs| && c.jobs[j].name == n
  }

  ghost predicate NamesAndReasonsOf(c: Config, names: seq<string>, jobs: set<nat>) {
    forall n :: n in names <==>
      exists j :: j in jobs && j < |c.jobs| && c.jobs[j].name + " (" + c.jobs[j].skipReason + ")" == n
  }

  /** A list with display names names exactly the jobs with its verdict. */
  lemma DisplayNamesOfJobs(c: Config, run: seq<Action>, v: Verdict, count: nat, names: seq<string>)
    requires IsRun(c, run) && Finished(c, After(c, run)) && JobsKnown(c, After(c, run).collected)
    requires CountedAs(c, After(c, run).collected, v, count, names, DisplayName)
    ensures count == |names| == |JobsWith(c, run, v)|
    ensures NamesOf(c, names, JobsWith(c, run, v))
  {
    hide After, Means, Select, MadeIn, JobsWith, IsRun, Finished;
    var reports := After(c, run).collected;
    VerdictsOfJobs(c, run, v);
    forall n
      ensures n in names <==> exists j :: j in JobsWith(c, run, v) && j < |c.jobs| && c.jobs[j].name == n
    {
      NamesAreCounted(c, reports, v, count, names, DisplayName, n);
      if r :| r in reports && r.job < |c.jobs| && Means(c, r, v) && DisplayName(c, r) == n {
        assert JobHas(c, reports, v, r.job);
      }
    }
  }

  /** The same for the names of skipped jobs, with the reason in parentheses. */
  lemma NamesOfSkippedJobs(c: Config, run: seq<Action>, count: nat, names: seq<string>)
    requires IsRun(c, run) && Finished(c, After(c, run)) && JobsKnown(c, After(c, run).collected)
    requires CountedAs(c, After(c, run).collected, SKIP, count, names, NameWithReason)
    ensures count == |names| == |JobsWith(c, run, SKIP)|
    ensures NamesAndReasonsOf(c, names, JobsWith(c, run, SKIP))
  {
    hide After, Means, Select, MadeIn, JobsWith, IsRun, Finished;
    var reports := After(c, run).collected;
    VerdictsOfJobs(c, run, SKIP);
    forall n ensures n in names <==>
      exists j :: j in JobsWith(c, run, SKIP) && j < |c.jobs|
        && c.jobs[j].name + " (" + c.jobs[j].skipReason + ")" == n
    {
      NamesAreCounted(c, reports, SKIP, count, names, NameWithReason, n);
      if r :| r in reports && r.job < |c.jobs| && Means(c, r, SKIP) && NameWithReason(c, r) == n {
        assert JobHas(c, reports, SKIP, r.job);
      }
    }
  }

  /** The exit code 0 means that no job was interrupted and every process that ended returned 0. */
  lemma SuccessOfRun(c: Config, run: seq<Action>)
    requires IsRun(c, run) && Finished(c, After(c, run)) && JobsKnown(c, After(c, run).collected)
    ensures Succeeded(c, After(c, run).collected) <==>
      JobsInterrupted(c, run) == {} && forall k :: 0 <= k < |run| && run[k].Finish? ==> run[k].code == 0
  {
    hide After, MadeIn, IsRun, Finished;
    var reports := After(c, run).collected;
    InvHolds(c, run);
    if Succeeded(c, reports) {
      forall j: nat | j in JobsInterrupted(c, run) ensures false {
        SuccessfulOutcome(c, run, Report(j, Interrupted));
      }
      forall k | 0 <= k < |run| && run[k].Finish? ensures run[k].code == 0 {
        FinishMakesReport(c, run, k);
        var j :| MadeIn(c, run, Report(j, Returned(run[k].code)));
        SuccessfulOutcome(c, run, Report(j, Returned(run[k].code)));
      }
    }
    if JobsInterrupted(c, run) == {} && forall k :: 0 <= k < |run| && run[k].Finish? ==> run[k].code == 0 {
      forall i | 0 <= i < |reports| ensures Means(c, reports[i], PASS) || Means(c, reports[i], SKIP) {
        ZeroOrSkipped(c, run, reports[i]);
        TruthfulVerdict(c, After(c, run), reports[i], PASS);
        TruthfulVerdict(c, After(c, run), reports[i], SKIP);
      }
    }
  }

  lemma SuccessfulOutcome(c: Config, run: seq<Action>, r: Report)
    requires IsRun(c, run) && Finished(c, After(c, run)) && JobsKnown(c, After(c, run).collected)
    requires Succeeded(c, After(c, run).collected) && MadeIn(c, run, r)
    ensures r.outcome == Skipped || r.outcome == Returned(0)
  {
    hide After, MadeIn, IsRun, Finished;
    var reports := After(c, run).collected;
    InvHolds(c, run);
    CollectedAreMade(c, run, r);
    var i :| 0 <= i < |reports| && reports[i] == r;
    TruthfulVerdict(c, After(c, run), reports[i], PASS);
    TruthfulVerdict(c, After(c, run), reports[i], SKIP);
  }

  lemma ZeroOrSkipped(c: Config, run: seq<Action>, r: Report)
    requires IsRun(c, run) && Finished(c, After(c, run)) && r in After(c, run).collected && r.job < |c.jobs|
    requires JobsInterrupted(c, run) == {} && forall k :: 0 <= k < |run| && run[k].Finish? ==> run[k].code == 0
    ensures r.outcome == Skipped || r.outcome == Returned(0)
  {
    hide After, IsRun, Finished;
    CollectedAreMade(c, run, r);
    var k :| 0 <= k < |run| && MadeAt(c, run, k, r);
    assert r == Report(r.job, r.outcome);
    assert r.outcome == Interrupted ==> r.job in JobsInterrupted(c, run);
  }

  lemma ExitCodeIsSuccess(c: Config, run: seq<Action>, t: Tally)
    requires IsRun(c, run) && Finished(c, After(c, run))
    requires JobsKnown(c, After(c, run).collected) && Tallied(c, After(c, run).collected, t)
    ensures ExitCode(t, |c.jobs|) == 0 <==> Succeeded(c, After(c, run).collected)
  {
    hide Select, After, Succeeded;
    AllCountedAsSuccess(c, After(c, run).collected);
  }

  /** The parts of a tally, told by what the workers have done. */
  ghost predicate TellsOf(c: Config, run: seq<Action>, t: Tally) {
    && t.passed == |JobsWith(c, run, PASS)|
    && t.failed == |t.failedNames| == |JobsWith(c, run, FAIL)|
    && t.valgrindErrors == |t.valgrindNames| == |JobsWith(c, run, VALGR)|
    && t.crashed == |t.crashedNames| == |JobsWith(c, run, CRASH)|
    && t.skipped == |t.skippedNames| == |JobsWith(c, run, SKIP)|
  }

  lemma CountsOfRun(c: Config, run: seq<Action>, t: Tally)
    requires IsRun(c, run) && Finished(c, After(c, run))
    requires JobsKnown(c, After(c, run).collected) && Tallied(c, After(c, run).collected, t)
    ensures TellsOf(c, run, t)
  {
    hide Select, After, CountedAs, JobsWith, IsRun, Finished;
    VerdictsOfJobs(c, run, PASS);
    DisplayNamesOfJobs(c, run, FAIL, t.failed, t.failedNames);
    DisplayNamesOfJobs(c, run, VALGR, t.valgrindErrors, t.valgrindNames);
    DisplayNamesOfJobs(c, run, CRASH, t.crashed, t.crashedNames);
    NamesOfSkippedJobs(c, run, t.skipped, t.skippedNames);
  }

  lemma NamesOfRun(c: Config, run: seq<Action>, t: Tally)
    requires IsRun(c, run) && Finished(c, After(c, run))
    requires JobsKnown(c, After(c, run).collected) && Tallied(c, After(c, run).collected, t)
    ensures NamesOf(c, t.failedNames, JobsWith(c, run, FAIL))
    ensures NamesOf(c, t.valgrindNames, JobsWith(c, run, VALGR))
    ensures NamesOf(c, t.crashedNames, JobsWith(c, run, CRASH))
    ensures NamesAndReasonsOf(c, t.skippedNames, JobsWith(c, run, SKIP))
  {
    hide Select, After, CountedAs, JobsWith, IsRun, Finished;
    DisplayNamesOfJobs(c, run, FAIL, t.failed, t.failedNames);
    DisplayNamesOfJobs(c, run, VALGR, t.valgrindErrors, t.valgrindNames);
    DisplayNamesOfJobs(c, run, CRASH, t.crashed, t.crashedNames);
    NamesOfSkippedJobs(c, run, t.skipped, t.skippedNames);
  }

  /** The collection loop and the exit code after a whole run, whatever the interleaving was: told by what the workers
      have done. */
  method TallyAtTheEnd(c: Config, run: seq<Action>) returns (t: Tally, exitCode: int)
    requires IsRun(c, run) && Finished(c, After(c, run))
    ensures JobsKnown(c, After(c, run).collected) && Tallied(c, After(c, run).collected, t)
    ensures t.passed + t.failed + t.crashed + t.valgrindErrors + t.skipped
      + |Select(c, After(c, run).collected, NoResult)| == |c.jobs|
    ensures exitCode == 0 <==> forall j: nat :: j < |c.jobs| ==> JobSucceeded(c, After(c, run).collected, j)
    ensures exitCode == 0 || exitCode == 1
    ensures (exists r :: r in After(c, run).collected && r.outcome == Interrupted) ==> exitCode == 1
    ensures exitCode == 0 <==>
      JobsInterrupted(c, run) == {} && forall k :: 0 <= k < |run| && run[k].Finish? ==> run[k].code == 0
    ensures t.passed == |JobsReturning(c, run, iset{0})|
    ensures t.failed == |t.failedNames| == |JobsReturning(c, run, iset{1})|
    ensures t.valgrindErrors == |t.valgrindNames| == |JobsReturning(c, run, iset{2})|
    ensures t.crashed == |t.crashedNames| == |JobsReturning(c, run, CrashCodes())|
    ensures t.skipped == |t.skippedNames| == |JobsSkipped(c, run)|
    ensures NamesOf(c, t.failedNames, JobsReturning(c, run, iset{1}))
    ensures NamesOf(c, t.valgrindNames, JobsReturning(c, run, iset{2}))
    ensures NamesOf(c, t.crashedNames, JobsReturning(c, run, CrashCodes()))
    ensures NamesAndReasonsOf(c, t.skippedNames, JobsSkipped(c, run))
  {
    hide Tallied, Select, JobSucceeded, CountedAs, Succeeded, After, IsRun, Finished, JobsReturning, JobsSkipped,
      JobsInterrupted, NamesOf, NamesAndReasonsOf;
    CollectedJobsAreKnown(c, run);
    t := CollectResults(c, After(c, run).collected);
    TallyOfRun(c, run, t);
    exitCode := ExitCode(t, |c.jobs|);
    SuccessOfRun(c, run);
    ExitCodeIsSuccess(c, run, t);
    CountsOfRun(c, run, t);
    NamesOfRun(c, run, t);
  }
}
