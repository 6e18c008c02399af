/** The worker protocol of test.py: one dispatching and collecting main thread, a pool of worker threads, two FIFO
    queues, break tokens and an interrupt flag that may be set at any moment. */
module TestRunner {

  datatype Job = Job(name: string, isSkip: bool, skipReason: string)
  datatype Config = Config(jobs: seq<Job>, processors: nat)

  /** What the input queue carries: a real job, by its number, or a special job that ends a worker. */
  datatype Token = Work(job: nat) | Break

  /** How a job comes back: marked as a break by an interrupted worker, unrun because it is skipped, or run. */
  datatype Outcome = Interrupted | Skipped | Returned(code: int)
  datatype Report = Report(job: nat, outcome: Outcome)

  /** Where a worker is in its loop. */
  datatype Worker =
    | Waiting                      // at input_queue.get()
    | Got(token: Token)            // before the is_break and thread_exit tests
    | Cleared(job: nat)            // thread_exit was not set
    | Running(job: nat)            // in run_job_synchronously
    | Reporting(report: Report)    // at output_queue.put(job)
    | Exited

  /** The main thread is described by how far it has got: first it dispatches all jobs, then it puts one token for
      each worker, then it collects, then it joins the workers in order. */
  datatype State = State(
    dispatched: nat, tokens: nat, collected: seq<Report>, joined: nat,
    input: seq<Token>, output: seq<Report>, workers: seq<Worker>, threadExit: bool)

  datatype Action =
    | Dispatch | PutToken | Collect | Join
    | Get(w: nat) | Test(w: nat) | Launch(w: nat) | Finish(w: nat, code: int) | Put(w: nat)
    | Interrupt

  function Init(c: Config): State {
    State(0, 0, [], 0, [], [], seq(c.processors, _ => Waiting), false)
  }

  predicate Enabled(c: Config, s: State, a: Action) {
    match a
    case Dispatch => s.dispatched < |c.jobs|
    case PutToken => s.dispatched == |c.jobs| && s.tokens < c.processors
    case Collect => s.dispatched == |c.jobs| && s.tokens == c.processors && |s.collected| < |c.jobs| && s.output != []
    case Join => s.dispatched == |c.jobs| && s.tokens == c.processors && |s.collected| == |c.jobs|
                 && s.joined < |s.workers| && s.workers[s.joined].Exited?
    case Get(w) => w < |s.workers| && s.workers[w].Waiting? && s.input != []
    case Test(w) => w < |s.workers| && s.workers[w].Got?
    case Launch(w) => w < |s.workers| && s.workers[w].Cleared? && s.workers[w].job < |c.jobs|
    case Finish(w, code) => w < |s.workers| && s.workers[w].Running?
    case Put(w) => w < |s.workers| && s.workers[w].Reporting?
    case Interrupt => !s.threadExit
  }

  /** The tests at the top of the worker's loop: a break token ends it, and an interrupt sends the job back. */
  function AfterTest(token: Token, threadExit: bool): Worker {
    match token
    case Break => Exited
    case Work(j) => if threadExit then Reporting(Report(j, Interrupted)) else Cleared(j)
  }

  function AfterLaunch(c: Config, j: nat): Worker
    requires j < |c.jobs|
  {
    if c.jobs[j].isSkip then Reporting(Report(j, Skipped)) else Running(j)
  }

  function Apply(c: Config, s: State, a: Action): State
    requires Enabled(c, s, a)
  {
    match a
    case Dispatch => s.(input := s.input + [Work(s.dispatched)], dispatched := s.dispatched + 1)
    case PutToken => s.(input := s.input + [Break], tokens := s.tokens + 1)
    case Collect => s.(collected := s.collected + [s.output[0]], output := s.output[1..])
    case Join => s.(joined := s.joined + 1)
    case Get(w) => s.(workers := s.workers[w := Got(s.input[0])], input := s.input[1..])
    case Test(w) => s.(workers := s.workers[w := AfterTest(s.workers[w].token, s.threadExit)])
    case Launch(w) => s.(workers := s.workers[w := AfterLaunch(c, s.workers[w].job)])
    case Finish(w, code) => s.(workers := s.workers[w := Reporting(Report(s.workers[w].job, Returned(code)))])
    case Put(w) => s.(workers := s.workers[w := Waiting], output := s.output + [s.workers[w].report])
    case Interrupt => s.(threadExit := true)
  }

  /** A run is a list of actions, each enabled where it is taken; its state is what it leads to. */
  predicate IsRun(c: Config, run: seq<Action>)
    decreases |run|, 0
  {
    run == [] || (IsRun(c, run[..|run|-1]) && Enabled(c, After(c, run[..|run|-1]), run[|run|-1]))
  }

  function After(c: Config, run: seq<Action>): State
    requires IsRun(c, run)
    decreases |run|, 1
  {
    if run == [] then Init(c) else Apply(c, After(c, run[..|run|-1]), run[|run|-1])
  }

  /** The main thread has been through its last join. */
  predicate Finished(c: Config, s: State) {
    s.dispatched == |c.jobs| && s.tokens == c.processors && |s.collected| == |c.jobs| && s.joined == c.processors
  }

  /** Nobody can move; an interrupt, which may or may not come, does not count. */
  ghost predicate Stuck(c: Config, s: State) {
    forall a :: Enabled(c, s, a) ==> a == Interrupt
  }

  // ----- sums over queues and workers -----

  function Sum<T>(weight: T -> nat, s: seq<T>): nat {
    if s == [] then 0 else weight(s[0]) + Sum(weight, s[1..])
  }

  lemma {:induction false} SumAppend<T>(weight: T -> nat, s: seq<T>, x: T)
    ensures Sum(weight, s + [x]) == Sum(weight, s) + weight(x)
  {
    if s != [] {
      assert (s + [x])[1..] == s[1..] + [x];
      SumAppend(weight, s[1..], x);
    }
  }

  lemma {:induction false} SumUpdate<T>(weight: T -> nat, s: seq<T>, i: nat, x: T)
    requires i < |s|
    ensures Sum(weight, s[i := x]) + weight(s[i]) == Sum(weight, s) + weight(x)
  {
    if i == 0 {
      assert s[0 := x][1..] == s[1..];
    } else {
      assert s[i := x][1..] == s[1..][i-1 := x];
      SumUpdate(weight, s[1..], i - 1, x);
    }
  }

  lemma {:induction false} SumPositive<T>(weight: T -> nat, s: seq<T>)
    ensures Sum(weight, s) > 0 <==> exists i :: 0 <= i < |s| && weight(s[i]) > 0
  {
    if s != [] {
      SumPositive(weight, s[1..]);
      if i :| 0 <= i < |s| && weight(s[i]) > 0 {
        if i > 0 {
          assert s[1..][i-1] == s[i];
        }
      }
      if Sum(weight, s[1..]) > 0 {
        var i :| 0 <= i < |s[1..]| && weight(s[1..][i]) > 0;
        assert weight(s[i+1]) > 0;
      }
    }
  }

  lemma SumPopFront<T>(weight: T -> nat, s: seq<T>)
    requires s != []
    ensures Sum(weight, s) == weight(s[0]) + Sum(weight, s[1..])
  {
  }

  // ----- weighing a state: what a job, a token or the work ahead counts for, wherever it is -----

  datatype Weights = Weights(
    token: Token -> nat, worker: Worker -> nat, output: Report -> nat, collected: Report -> nat)

  function Weigh(g: Weights, s: State): nat {
    Sum(g.token, s.input) + Sum(g.worker, s.workers) + Sum(g.output, s.output) + Sum(g.collected, s.collected)
  }

  /** What an action does to the weight of the state, seen from the one or two items it touches. */
  function Gain(g: Weights, c: Config, s: State, a: Action): int
    requires Enabled(c, s, a)
  {
    match a
    case Dispatch => g.token(Work(s.dispatched))
    case PutToken => g.token(Break)
    case Collect => g.collected(s.output[0]) - g.output(s.output[0])
    case Join => 0
    case Get(w) => g.worker(Got(s.input[0])) - g.worker(Waiting) - g.token(s.input[0])
    case Test(w) => g.worker(AfterTest(s.workers[w].token, s.threadExit)) - g.worker(s.workers[w])
    case Launch(w) => g.worker(AfterLaunch(c, s.workers[w].job)) - g.worker(s.workers[w])
    case Finish(w, code) => g.worker(Reporting(Report(s.workers[w].job, Returned(code)))) - g.worker(s.workers[w])
    case Put(w) => g.worker(Waiting) - g.worker(s.workers[w]) + g.output(s.workers[w].report)
    case Interrupt => 0
  }

  lemma StepWeight(g: Weights, c: Config, s: State, a: Action)
    requires Enabled(c, s, a)
    ensures Weigh(g, Apply(c, s, a)) == Weigh(g, s) + Gain(g, c, s, a)
  {
    hide Sum;
    var t := Apply(c, s, a);
    match a {
      case Dispatch => SumAppend(g.token, s.input, Work(s.dispatched));
      case PutToken => SumAppend(g.token, s.input, Break);
      case Collect =>
        SumAppend(g.collected, s.collected, s.output[0]);
        SumPopFront(g.output, s.output);
      case Join =>
      case Get(w) =>
        SumUpdate(g.worker, s.workers, w, t.workers[w]);
        SumPopFront(g.token, s.input);
      case Test(w) => SumUpdate(g.worker, s.workers, w, t.workers[w]);
      case Launch(w) => SumUpdate(g.worker, s.workers, w, t.workers[w]);
      case Finish(w, code) => SumUpdate(g.worker, s.workers, w, t.workers[w]);
      case Put(w) =>
        SumUpdate(g.worker, s.workers, w, t.workers[w]);
        SumAppend(g.output, s.output, s.workers[w].report);
      case Interrupt =>
    }
  }

  function HeldJob(w: Worker): (j: int)
    ensures j >= -1
  {
    match w
    case Got(Work(j)) => j
    case Cleared(j) => j
    case Running(j) => j
    case Reporting(r) => r.job
    case _ => -1
  }

  /** Copies of job number j. */
  function CopiesOf(j: nat): Weights {
    Weights((t: Token) => if t == Work(j) then 1 else 0, (w: Worker) => if HeldJob(w) == j then 1 else 0,
            (r: Report) => if r.job == j then 1 else 0, (r: Report) => if r.job == j then 1 else 0)
  }

  /** Jobs, whichever they are. */
  function AnyJob(): Weights {
    Weights((t: Token) => if t.Work? then 1 else 0, (w: Worker) => if HeldJob(w) >= 0 then 1 else 0,
            Each, Each)
  }

  function Each(r: Report): nat {
    1
  }

  predicate HasTakenBreak(w: Worker) {
    w == Got(Break) || w == Exited
  }

  /** Break tokens, and the workers that have taken one. */
  function BreakTokens(): Weights {
    Weights((t: Token) => if t.Break? then 1 else 0, (w: Worker) => if HasTakenBreak(w) then 1 else 0,
            (r: Report) => 0, (r: Report) => 0)
  }

  function WorkerMoves(w: Worker): nat {
    match w
    case Waiting => 0
    case Got(t) => if t.Work? then 5 else 1
    case Cleared(_) => 4
    case Running(_) => 3
    case Reporting(_) => 2
    case Exited => 0
  }

  /** How many moves an item can still cause. */
  function MovesAhead(): Weights {
    Weights((t: Token) => if t.Work? then 6 else 2, WorkerMoves, (r: Report) => 1, (r: Report) => 0)
  }

  /** An upper bound on the moves that are left. */
  function Measure(c: Config, s: State): int {
    7 * (|c.jobs| - s.dispatched) + 3 * (c.processors - s.tokens) + Weigh(MovesAhead(), s)
    + (|s.workers| - s.joined) + (if s.threadExit then 0 else 1)
  }

  /** Every action, whoever takes it, brings the end nearer. */
  lemma EveryActionIsProgress(c: Config, s: State, a: Action)
    requires Enabled(c, s, a)
    ensures Measure(c, Apply(c, s, a)) < Measure(c, s)
  {
    hide Weigh;
    StepWeight(MovesAhead(), c, s, a);
  }

  // ----- the invariant -----

  /** How far the main thread may have got, one phase after the other. */
  ghost predicate InPhase(c: Config, s: State) {
    && |s.workers| == c.processors
    && s.dispatched <= |c.jobs| && s.tokens <= c.processors && |s.collected| <= |c.jobs| && s.joined <= c.processors
    && (s.tokens > 0 ==> s.dispatched == |c.jobs|)
    && (s.collected != [] ==> s.dispatched == |c.jobs| && s.tokens == c.processors)
    && (s.joined > 0 ==> s.dispatched == |c.jobs| && s.tokens == c.processors && |s.collected| == |c.jobs|)
    && (forall w :: 0 <= w < s.joined ==> s.workers[w].Exited?)
  }

  /** A dispatched job is in exactly one place: a queue, a worker's hands or the main thread's. */
  ghost predicate EachJobOnce(s: State) {
    && (forall j: nat :: Weigh(CopiesOf(j), s) == if j < s.dispatched then 1 else 0)
    && Weigh(AnyJob(), s) == s.dispatched
  }

  /** Break tokens come after all jobs, and when one has been taken there is no job left to take. */
  ghost predicate BreaksComeLast(c: Config, s: State) {
    && Weigh(BreakTokens(), s) == s.tokens
    && (forall i, j :: 0 <= i < j < |s.input| && s.input[i].Break? ==> s.input[j].Break?)
    && (s.dispatched < |c.jobs| ==> forall i :: 0 <= i < |s.input| ==> s.input[i].Work?)
    && (forall w :: 0 <= w < |s.workers| && HasTakenBreak(s.workers[w]) ==>
          s.dispatched == |c.jobs| && forall i :: 0 <= i < |s.input| ==> s.input[i].Break?)
  }

  ghost predicate Truthful(c: Config, s: State, r: Report) {
    && r.job < |c.jobs|
    && match r.outcome
       case Interrupted => s.threadExit
       case Skipped => c.jobs[r.job].isSkip
       case Returned(_) => !c.jobs[r.job].isSkip
  }

  ghost predicate WorkerTruthful(c: Config, s: State, w: Worker) {
    match w
    case Got(Work(j)) => j < |c.jobs|
    case Cleared(j) => j < |c.jobs|
    case Running(j) => j < |c.jobs| && !c.jobs[j].isSkip
    case Reporting(r) => Truthful(c, s, r)
    case _ => true
  }

  ghost predicate AllTruthful(c: Config, s: State) {
    && (forall i :: 0 <= i < |s.input| && s.input[i].Work? ==> s.input[i].job < |c.jobs|)
    && (forall w :: 0 <= w < |s.workers| ==> WorkerTruthful(c, s, s.workers[w]))
    && (forall i :: 0 <= i < |s.output| ==> Truthful(c, s, s.output[i]))
    && (forall i :: 0 <= i < |s.collected| ==> Truthful(c, s, s.collected[i]))
  }

  ghost predicate Inv(c: Config, s: State) {
    InPhase(c, s) && EachJobOnce(s) && BreaksComeLast(c, s) && AllTruthful(c, s)
  }

  lemma {:induction false} SumZero<T>(weight: T -> nat, s: seq<T>)
    requires forall i :: 0 <= i < |s| ==> weight(s[i]) == 0
    ensures Sum(weight, s) == 0
  {
    if s != [] {
      SumZero(weight, s[1..]);
    }
  }

  lemma InitialWeight(g: Weights, c: Config)
    requires g.worker(Waiting) == 0
    ensures Weigh(g, Init(c)) == 0
  {
    SumZero(g.worker, Init(c).workers);
  }

  lemma InvHoldsInitially(c: Config)
    ensures Inv(c, Init(c))
  {
    hide Weigh;
    forall j: nat ensures Weigh(CopiesOf(j), Init(c)) == 0 {
      InitialWeight(CopiesOf(j), c);
    }
    InitialWeight(AnyJob(), c);
    InitialWeight(BreakTokens(), c);
  }

  lemma StepKeepsEachJobOnce(c: Config, s: State, a: Action)
    requires Inv(c, s) && Enabled(c, s, a)
    ensures EachJobOnce(Apply(c, s, a))
  {
    hide Weigh;
    forall j: nat ensures Weigh(CopiesOf(j), Apply(c, s, a)) == if j < Apply(c, s, a).dispatched then 1 else 0 {
      StepWeight(CopiesOf(j), c, s, a);
    }
    StepWeight(AnyJob(), c, s, a);
  }

  lemma StepKeepsBreaksLast(c: Config, s: State, a: Action)
    requires Inv(c, s) && Enabled(c, s, a)
    ensures BreaksComeLast(c, Apply(c, s, a))
  {
    hide Weigh, EachJobOnce, AllTruthful;
    StepWeight(BreakTokens(), c, s, a);
  }

  lemma StepKeepsTruth(c: Config, s: State, a: Action)
    requires Inv(c, s) && Enabled(c, s, a)
    ensures AllTruthful(c, Apply(c, s, a))
  {
    hide EachJobOnce, BreaksComeLast;
    var t := Apply(c, s, a);
    forall r | Truthful(c, s, r) ensures Truthful(c, t, r) {
    }
    forall w | WorkerTruthful(c, s, w) ensures WorkerTruthful(c, t, w) {
    }
  }

  lemma StepKeepsPhase(c: Config, s: State, a: Action)
    requires InPhase(c, s) && Enabled(c, s, a)
    ensures InPhase(c, Apply(c, s, a))
  {
  }

  /** The invariant is inductive. */
  lemma StepKeepsInv(c: Config, s: State, a: Action)
    requires Inv(c, s) && Enabled(c, s, a)
    ensures Inv(c, Apply(c, s, a))
  {
    hide Enabled, Apply, InPhase, EachJobOnce, BreaksComeLast, AllTruthful;
    StepKeepsPhase(c, s, a);
    StepKeepsEachJobOnce(c, s, a);
    StepKeepsBreaksLast(c, s, a);
    StepKeepsTruth(c, s, a);
  }

  lemma {:induction false} InvHolds(c: Config, run: seq<Action>)
    requires IsRun(c, run)
    ensures Inv(c, After(c, run))
    decreases |run|
  {
    if run == [] {
      InvHoldsInitially(c);
    } else {
      InvHolds(c, run[..|run|-1]);
      StepKeepsInv(c, After(c, run[..|run|-1]), run[|run|-1]);
    }
  }

  // ----- what every run does -----

  /** No worker takes a break token while a real job is still in the input queue. */
  lemma BreaksAreTakenLast(c: Config, run: seq<Action>, w: nat, i: nat)
    requires IsRun(c, run)
    requires w < |After(c, run).workers| && HasTakenBreak(After(c, run).workers[w])
    ensures i < |After(c, run).input| ==> After(c, run).input[i].Break?
    ensures After(c, run).dispatched == |c.jobs|
  {
    InvHolds(c, run);
  }

  /** Runs end: the measure bounds their length. */
  lemma {:induction false} RunsAreBounded(c: Config, run: seq<Action>)
    requires IsRun(c, run)
    ensures |run| + Measure(c, After(c, run)) <= 7 * |c.jobs| + 4 * c.processors + 1
    ensures Measure(c, After(c, run)) >= 0
    decreases |run|
  {
    hide Weigh;
    InvHolds(c, run);
    if run == [] {
      InitialWeight(MovesAhead(), c);
    } else {
      RunsAreBounded(c, run[..|run|-1]);
      EveryActionIsProgress(c, After(c, run[..|run|-1]), run[|run|-1]);
    }
  }

  /** Where nobody can move, every worker is waiting at an empty queue or has ended, and all output is collected. */
  lemma StuckWorkers(c: Config, s: State)
    requires Inv(c, s) && Stuck(c, s)
    ensures s.dispatched == |c.jobs| && s.tokens == c.processors
    ensures forall w :: 0 <= w < |s.workers| ==> s.workers[w].Exited? || (s.workers[w].Waiting? && s.input == [])
    ensures |s.collected| < |c.jobs| ==> s.output == []
    ensures |s.collected| == |c.jobs| && s.joined < c.processors ==> !s.workers[s.joined].Exited?
  {
    hide EachJobOnce, BreaksComeLast;
    assert !Enabled(c, s, Dispatch) && !Enabled(c, s, PutToken) && !Enabled(c, s, Collect) && !Enabled(c, s, Join);
    forall w: nat | w < |s.workers|
      ensures s.workers[w].Exited? || (s.workers[w].Waiting? && s.input == [])
    {
      assert WorkerTruthful(c, s, s.workers[w]);
      assert !Enabled(c, s, Get(w)) && !Enabled(c, s, Test(w)) && !Enabled(c, s, Launch(w))
        && !Enabled(c, s, Finish(w, 0)) && !Enabled(c, s, Put(w));
    }
  }

  /** With at least one worker, or nothing to do, the only place where nobody can move is the end. */
  lemma NoDeadlock(c: Config, s: State)
    requires Inv(c, s) && Stuck(c, s) && (c.processors > 0 || c.jobs == [])
    ensures Finished(c, s)
  {
    StuckWorkers(c, s);
    assert c.processors > 0 ==> HasTakenBreak(s.workers[0]) || s.input == [];
    if |s.collected| < |c.jobs| {
      JobMustBeQueued(c, s);
    } else if s.joined < c.processors {
      TokenMustBeQueued(c, s, s.joined);
    }
  }

  lemma JobMustBeQueued(c: Config, s: State)
    requires Inv(c, s) && |s.collected| < s.dispatched && s.output == []
    requires forall w :: 0 <= w < |s.workers| ==> s.workers[w].Exited? || s.workers[w].Waiting?
    ensures exists i :: 0 <= i < |s.input| && s.input[i].Work?
  {
    var g := AnyJob();
    SumZero(g.worker, s.workers);
    CountReports(s.collected);
    SumPositive(g.token, s.input);
  }

  lemma {:induction false} CountReports(reports: seq<Report>)
    ensures Sum(Each, reports) == |reports|
  {
    if reports != [] {
      CountReports(reports[1..]);
    }
  }

  lemma {:induction false} CountTokens(input: seq<Token>)
    ensures Sum(AnyJob().token, input) + Sum(BreakTokens().token, input) == |input|
  {
    if input != [] {
      CountTokens(input[1..]);
    }
  }

  lemma TokenMustBeQueued(c: Config, s: State, w: nat)
    requires Inv(c, s) && s.tokens == c.processors
    requires w < |s.workers| && !HasTakenBreak(s.workers[w])
    ensures s.input != []
  {
    var g := BreakTokens();
    SumZero(g.output, s.output);
    SumZero(g.collected, s.collected);
    SomebodyHasNot(s.workers, w);
  }

  lemma {:induction false} SomebodyHasNot(workers: seq<Worker>, w: nat)
    requires w < |workers| && !HasTakenBreak(workers[w])
    ensures Sum(BreakTokens().worker, workers) < |workers|
  {
    AtMostOneEach(workers[1..]);
    if w > 0 {
      SomebodyHasNot(workers[1..], w - 1);
    }
  }

  lemma {:induction false} AtMostOneEach(workers: seq<Worker>)
    ensures Sum(BreakTokens().worker, workers) <= |workers|
  {
    if workers != [] {
      AtMostOneEach(workers[1..]);
    }
  }

  /** At the end every worker has ended, both queues are empty, and every job has been collected exactly once. */
  lemma AtTheEnd(c: Config, s: State)
    requires Inv(c, s) && Finished(c, s)
    ensures forall w :: 0 <= w < |s.workers| ==> s.workers[w].Exited?
    ensures s.input == [] && s.output == []
    ensures forall j: nat :: Sum(CopiesOf(j).collected, s.collected) == if j < |c.jobs| then 1 else 0
  {
    CountReports(s.collected);
    CountReports(s.output);
    CountTokens(s.input);
    AllHave(s.workers);
    forall j: nat ensures Sum(CopiesOf(j).collected, s.collected) == if j < |c.jobs| then 1 else 0 {
      SumZero(CopiesOf(j).worker, s.workers);
      assert Weigh(CopiesOf(j), s) == if j < s.dispatched then 1 else 0;
    }
  }

  /** A run that cannot go on has been brought to its end, if there was a worker or nothing to do: every job has been
      collected exactly once and every thread has been joined. */
  lemma EveryFullRunFinishes(c: Config, run: seq<Action>)
    requires IsRun(c, run) && Stuck(c, After(c, run)) && (c.processors > 0 || c.jobs == [])
    ensures Finished(c, After(c, run))
    ensures forall w :: 0 <= w < |After(c, run).workers| ==> After(c, run).workers[w].Exited?
    ensures After(c, run).input == [] && After(c, run).output == []
    ensures forall j: nat :: Sum(CopiesOf(j).collected, After(c, run).collected) == if j < |c.jobs| then 1 else 0
  {
    hide Inv, Stuck, After, Sum;
    InvHolds(c, run);
    NoDeadlock(c, After(c, run));
    AtTheEnd(c, After(c, run));
  }

  lemma {:induction false} AllHave(workers: seq<Worker>)
    requires forall w :: 0 <= w < |workers| ==> workers[w].Exited?
    ensures Sum(BreakTokens().worker, workers) == |workers|
  {
    if workers != [] {
      AllHave(workers[1..]);
    }
  }

  // ----- what an interrupt does -----

  function RealReport(r: Report): nat {
    if r.outcome == Interrupted then 0 else 1
  }

  /** Jobs that have got past the test of the interrupt flag: they are run, or skipped, and have a real result. */
  function PastTest(): Weights {
    Weights((t: Token) => 0,
            (w: Worker) => if w.Cleared? || w.Running? then 1 else if w.Reporting? then RealReport(w.report) else 0,
            RealReport, RealReport)
  }

  lemma InterruptFreezes(c: Config, s: State, a: Action)
    requires s.threadExit && Enabled(c, s, a)
    ensures Apply(c, s, a).threadExit
    ensures Weigh(PastTest(), Apply(c, s, a)) == Weigh(PastTest(), s)
  {
    hide Weigh;
    StepWeight(PastTest(), c, s, a);
  }

  /** Once the flag is set, no further job gets past the test, however the run goes on. */
  lemma {:induction false} NothingStartsAfterInterrupt(c: Config, run: seq<Action>, k: nat)
    requires IsRun(c, run) && k <= |run|
    requires IsRun(c, run[..k]) && After(c, run[..k]).threadExit
    ensures After(c, run).threadExit
    ensures Weigh(PastTest(), After(c, run)) == Weigh(PastTest(), After(c, run[..k]))
    decreases |run|
  {
    hide Weigh;
    if k == |run| {
      assert run[..k] == run;
    } else {
      var before := run[..|run|-1];
      assert before[..k] == run[..k];
      NothingStartsAfterInterrupt(c, before, k);
      InterruptFreezes(c, After(c, before), run[|run|-1]);
    }
  }

  /** Without workers all jobs can be dispatched, and then nobody can move. */
  lemma {:induction false} DispatchAll(c: Config, n: nat) returns (run: seq<Action>)
    requires c.processors == 0 && n <= |c.jobs|
    ensures IsRun(c, run)
    ensures var s := After(c, run);
      s.dispatched == n && s.tokens == 0 && s.collected == [] && s.output == [] && s.workers == []
  {
    if n == 0 {
      run := [];
    } else {
      var sofar := DispatchAll(c, n - 1);
      run := sofar + [Dispatch];
      assert run[..|run|-1] == sofar;
    }
  }

  /** The protocol can get stuck before its end exactly when there are jobs but no worker, which a negative limit
      on the number of processes brings about. */
  lemma DeadlockExactlyWithoutWorkers(c: Config)
    ensures (exists run :: IsRun(c, run) && Stuck(c, After(c, run)) && !Finished(c, After(c, run)))
       <==> c.processors == 0 && c.jobs != []
  {
    if c.processors == 0 && c.jobs != [] {
      var run := DispatchAll(c, |c.jobs|);
      assert Stuck(c, After(c, run));
    }
    if run :| IsRun(c, run) && Stuck(c, After(c, run)) && !Finished(c, After(c, run)) {
      InvHolds(c, run);
      if c.processors > 0 || c.jobs == [] {
        NoDeadlock(c, After(c, run));
      }
    }
  }
}
