/** Where the reports of test.py's workers come from, and in which order jobs and reports travel. */
module TestReports {
  import opened TestRunner

  /** The action makes the report: an interrupted worker sends its job back, a skipped job is not run, and a process
      ends with its return code. */
  predicate Makes(c: Config, s: State, a: Action, r: Report) {
    match a
    case Test(w) => w < |s.workers| && s.workers[w] == Got(Work(r.job)) && s.threadExit && r.outcome == Interrupted
    case Launch(w) =>
      && w < |s.workers| && s.workers[w] == Cleared(r.job)
      && r.job < |c.jobs| && c.jobs[r.job].isSkip && r.outcome == Skipped
    case Finish(w, code) => w < |s.workers| && s.workers[w] == Running(r.job) && r.outcome == Returned(code)
    case _ => false
  }

  /** Some action of the run makes the report. */
  ghost predicate MadeIn(c: Config, run: seq<Action>, r: Report) {
    exists k :: 0 <= k < |run| && MadeAt(c, run, k, r)
  }

  predicate MadeAt(c: Config, run: seq<Action>, k: nat, r: Report)
    requires k < |run|
  {
    IsRun(c, run[..k]) && Makes(c, After(c, run[..k]), run[k], r)
  }

  /** The report is in a worker's hands, in the output queue or collected. */
  ghost predicate Around(s: State, r: Report) {
    r in s.output || r in s.collected || Reporting(r) in s.workers
  }

  lemma StepOfReport(c: Config, s: State, a: Action, r: Report)
    requires Enabled(c, s, a)
    ensures Around(Apply(c, s, a), r) <==> Around(s, r) || Makes(c, s, a, r)
  {
    var t := Apply(c, s, a);
    match a {
      case Collect =>
        assert s.output == [s.output[0]] + s.output[1..];
      case Get(w) =>
        OthersStay(s.workers, w, t.workers[w], r);
      case Test(w) =>
        OthersStay(s.workers, w, t.workers[w], r);
      case Launch(w) =>
        OthersStay(s.workers, w, t.workers[w], r);
      case Finish(w, code) =>
        OthersStay(s.workers, w, t.workers[w], r);
      case Put(w) =>
        OthersStay(s.workers, w, t.workers[w], r);
      case _ =>
    }
  }

  /** Changing one worker changes what the workers hold by what that one held and holds. */
  lemma OthersStay(workers: seq<Worker>, w: nat, to: Worker, r: Report)
    requires w < |workers|
    ensures Reporting(r) in workers[w := to] <==> to == Reporting(r) || Reporting(r) in workers[..w] + workers[w+1..]
    ensures Reporting(r) in workers <==> workers[w] == Reporting(r) || Reporting(r) in workers[..w] + workers[w+1..]
  {
    assert workers[w := to] == workers[..w] + [to] + workers[w+1..];
    assert workers == workers[..w] + [workers[w]] + workers[w+1..];
  }

  /** After any run the reports that are around are exactly those that its actions have made. */
  lemma {:induction false} ReportsAreMade(c: Config, run: seq<Action>, r: Report)
    requires IsRun(c, run)
    ensures Around(After(c, run), r) <==> MadeIn(c, run, r)
    decreases |run|
  {
    hide Apply, Enabled, Around, Makes;
    if run == [] {
      NothingAroundFirst(c, r);
    } else {
      var n := |run| - 1;
      var before := run[..n];
      ReportsAreMade(c, before, r);
      StepOfReport(c, After(c, before), run[n], r);
      forall k | 0 <= k < n ensures MadeAt(c, run, k, r) <==> MadeAt(c, before, k, r) {
        assert run[..k] == before[..k];
      }
      assert MadeAt(c, run, n, r) <==> Makes(c, After(c, before), run[n], r);
    }
  }

  lemma NothingAroundFirst(c: Config, r: Report)
    ensures !Around(Init(c), r)
  {
  }

  /** At the end of a run the collected reports are exactly those that its actions have made. */
  lemma CollectedAreMade(c: Config, run: seq<Action>, r: Report)
    requires IsRun(c, run) && Finished(c, After(c, run))
    ensures r in After(c, run).collected <==> MadeIn(c, run, r)
  {
    hide Inv, After;
    InvHolds(c, run);
    AtTheEnd(c, After(c, run));
    ReportsAreMade(c, run, r);
  }

  lemma {:induction false} PrefixIsRun(c: Config, run: seq<Action>, k: nat)
    requires IsRun(c, run) && k < |run|
    ensures IsRun(c, run[..k]) && Enabled(c, After(c, run[..k]), run[k])
    decreases |run|
  {
    var n := |run| - 1;
    if k < n {
      PrefixIsRun(c, run[..n], k);
      assert run[..n][..k] == run[..k];
    }
  }

  /** Every process that ends makes a report with its code. */
  lemma FinishMakesReport(c: Config, run: seq<Action>, k: nat)
    requires IsRun(c, run) && k < |run| && run[k].Finish?
    ensures exists j :: MadeIn(c, run, Report(j, Returned(run[k].code)))
  {
    PrefixIsRun(c, run, k);
    var s := After(c, run[..k]);
    var j := s.workers[run[k].w].job;
    assert MadeAt(c, run, k, Report(j, Returned(run[k].code)));
  }

  // ----- first in, first out -----

  /** The reports in the order in which the workers put them. */
  function PutReports(c: Config, run: seq<Action>): seq<Report>
    requires IsRun(c, run)
    decreases |run|
  {
    if run == [] then [] else
    var n := |run| - 1;
    PutReports(c, run[..n])
    + match run[n] case Put(w) => [After(c, run[..n]).workers[w].report] case _ => []
  }

  /** The jobs and tokens in the order in which the workers take them. */
  function TakenTokens(c: Config, run: seq<Action>): seq<Token>
    requires IsRun(c, run)
    decreases |run|
  {
    if run == [] then [] else
    var n := |run| - 1;
    TakenTokens(c, run[..n])
    + match run[n] case Get(w) => [After(c, run).workers[w].token] case _ => []
  }

  /** Reports are collected in the order in which they were put. */
  lemma {:induction false} CollectedInOrder(c: Config, run: seq<Action>)
    requires IsRun(c, run)
    ensures After(c, run).collected + After(c, run).output == PutReports(c, run)
    decreases |run|
  {
    if run != [] {
      var n := |run| - 1;
      CollectedInOrder(c, run[..n]);
    }
  }

  /** What has been put into the input queue: all jobs in order, and then break tokens. */
  function PutTokens(jobs: nat, breaks: nat): seq<Token> {
    seq(jobs, (j: nat) => Work(j)) + seq(breaks, _ => Break)
  }

  /** Jobs are taken in the order in which they were dispatched, and break tokens after all of them. */
  lemma {:induction false} TakenInOrder(c: Config, run: seq<Action>)
    requires IsRun(c, run)
    ensures TakenTokens(c, run) + After(c, run).input == PutTokens(After(c, run).dispatched, After(c, run).tokens)
    decreases |run|
  {
    hide PutTokens, Apply, Inv, Enabled;
    if run == [] {
      NothingPut();
    } else {
      var n := |run| - 1;
      TakenInOrder(c, run[..n]);
      InvHolds(c, run[..n]);
      QueueStep(c, After(c, run[..n]), run[n], TakenTokens(c, run[..n]));
    }
  }

  lemma QueueStep(c: Config, s: State, a: Action, taken: seq<Token>)
    requires InPhase(c, s) && Enabled(c, s, a) && taken + s.input == PutTokens(s.dispatched, s.tokens)
    ensures var t := Apply(c, s, a);
      && (a.Get? ==> a.w < |t.workers| && t.workers[a.w].Got?)
      && taken + (if a.Get? then [t.workers[a.w].token] else []) + t.input == PutTokens(t.dispatched, t.tokens)
  {
    hide PutTokens;
    OneMorePut(s.dispatched, s.tokens);
    var t := Apply(c, s, a);
    match a {
      case Dispatch => assert taken + t.input == (taken + s.input) + [Work(s.dispatched)];
      case PutToken => assert taken + t.input == (taken + s.input) + [Break];
      case Get(w) => assert taken + [s.input[0]] + t.input == taken + s.input;
      case _ =>
    }
    assert taken + [] == taken;
  }

  lemma NothingPut()
    ensures PutTokens(0, 0) == []
  {
  }

  lemma OneMorePut(jobs: nat, breaks: nat)
    ensures breaks == 0 ==> PutTokens(jobs + 1, 0) == PutTokens(jobs, 0) + [Work(jobs)]
    ensures PutTokens(jobs, breaks + 1) == PutTokens(jobs, breaks) + [Break]
  {
  }
}
