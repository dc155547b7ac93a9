/** The test runner's thread pool: `worker_thread.run` and main's loops in `run_tests` of test.py. */
module WorkerPool {
  import opened Permutations

  // Main and the workers communicate through two unbounded FIFO queues.  A step of the model is one
  // queue operation or one check of the global `thread_exit` flag, which a signal handler may set
  // between any two steps.

  /** What travels to the workers: a test, or the job with `is_break` that sends one worker home. */
  datatype Item = Test(id: nat) | Sentinel

  /** What travels back; `interrupted` is the `is_break` a worker sets instead of running the job. */
  datatype Result = Result(id: nat, interrupted: bool)

  datatype Worker = Waiting | Holding(id: nat) | Running(id: nat) | Exited

  /** How many tests and threads there are, and which tests are only to be skipped. */
  datatype Config = Config(jobs: nat, processors: nat, skipped: set<nat>)

  datatype State = State(
    dispatched: nat,
    stopped: nat,
    collected: seq<Result>,
    joined: nat,
    input: seq<Item>,
    output: seq<Result>,
    workers: seq<Worker>,
    threadExit: bool)

  function Init(c: Config): State {
    State(0, 0, [], 0, [], [], seq(c.processors, _ => Waiting), false)
  }

  datatype Action = Main | Work(w: nat) | Interrupt

  predicate Finished(c: Config, s: State) {
    s.dispatched == c.jobs && s.stopped == c.processors && |s.collected| == c.jobs && s.joined == c.processors
  }

  /** `get` and `join` block; everything else a thread does next is always possible. */
  predicate Enabled(c: Config, s: State, a: Action) {
    match a
    case Main =>
      if s.dispatched < c.jobs || s.stopped < c.processors then true
      else if |s.collected| < c.jobs then s.output != []
      else s.joined < c.processors && s.joined < |s.workers| && s.workers[s.joined].Exited?
    case Work(w) =>
      w < |s.workers| && !s.workers[w].Exited? && (s.workers[w].Waiting? ==> s.input != [])
    case Interrupt => !s.threadExit
  }

  function Step(c: Config, s: State, a: Action): State
    requires Enabled(c, s, a)
  {
    match a
    case Main =>
      if s.dispatched < c.jobs then s.(input := s.input + [Test(s.dispatched)], dispatched := s.dispatched + 1)
      else if s.stopped < c.processors then s.(input := s.input + [Sentinel], stopped := s.stopped + 1)
      else if |s.collected| < c.jobs then s.(collected := s.collected + [s.output[0]], output := s.output[1..])
      else s.(joined := s.joined + 1)
    case Work(w) => WorkerStep(c, s, w)
    case Interrupt => s.(threadExit := true)
  }

  function WorkerStep(c: Config, s: State, w: nat): State
    requires Enabled(c, s, Work(w))
  {
    match s.workers[w]
    case Waiting =>
      var next := match s.input[0] case Sentinel => Exited case Test(id) => Holding(id);
      s.(input := s.input[1..], workers := s.workers[w := next])
    case Holding(id) =>
      if s.threadExit then Deliver(s, w, Result(id, true))
      else if id in c.skipped then Deliver(s, w, Result(id, false))
      else s.(workers := s.workers[w := Running(id)])
    case Running(id) => Deliver(s, w, Result(id, false))
    case Exited => s
  }

  function Deliver(s: State, w: nat, r: Result): State
    requires w < |s.workers|
  {
    s.(output := s.output + [r], workers := s.workers[w := Waiting])
  }

  // Where every job is.

  function Held(workers: seq<Worker>, id: nat): nat { Count(workers, Holding(id)) + Count(workers, Running(id)) }

  function Delivered(results: seq<Result>, id: nat): nat {
    Count(results, Result(id, true)) + Count(results, Result(id, false))
  }

  /** In how many places job `id` is: waiting, with a worker, on its way back, or collected. */
  function Places(s: State, id: nat): nat {
    Count(s.input, Test(id)) + Held(s.workers, id) + Delivered(s.output, id) + Delivered(s.collected, id)
  }

  // What every step keeps.

  /** Each dispatched job is in exactly one place. */
  ghost predicate Conserved(s: State) {
    forall id: nat :: Places(s, id) == if id < s.dispatched then 1 else 0
  }

  /** Main's loops run one after the other. */
  ghost predicate InPhases(c: Config, s: State) {
    && |s.workers| == c.processors
    && s.dispatched <= c.jobs && s.stopped <= c.processors && |s.collected| <= c.jobs && s.joined <= c.processors
    && (s.stopped > 0 ==> s.dispatched == c.jobs)
    && (s.collected != [] ==> s.dispatched == c.jobs && s.stopped == c.processors)
    && (s.joined > 0 ==> s.dispatched == c.jobs && s.stopped == c.processors && |s.collected| == c.jobs)
  }

  /** Every sentinel put on the queue is still there or has sent exactly one worker home. */
  ghost predicate Balanced(s: State) { Count(s.input, Sentinel) + Count(s.workers, Exited) == s.stopped }

  /** No job is counted twice or lost: tests waiting, tests held, results waiting, results collected. */
  ghost predicate Sized(s: State) {
    |s.input| - Count(s.input, Sentinel)
    + |s.workers| - Count(s.workers, Waiting) - Count(s.workers, Exited)
    + |s.output| + |s.collected| == s.dispatched
  }

  ghost predicate AllSentinels(input: seq<Item>) { forall i :: 0 <= i < |input| ==> input[i].Sentinel? }

  /** First in, first out: tests before sentinels, so that nobody leaves while a test is waiting. */
  ghost predicate TestsFirst(s: State) {
    && (forall i, j :: 0 <= i < j < |s.input| && s.input[i].Sentinel? ==> s.input[j].Sentinel?)
    && (s.stopped == 0 ==> forall i :: 0 <= i < |s.input| ==> s.input[i].Test?)
    && (s.stopped > 0 && Exited in s.workers ==> AllSentinels(s.input))
    && (Exited in s.workers ==> s.stopped > 0)
  }

  ghost predicate JoinedExited(s: State) {
    s.joined <= |s.workers| && forall k :: 0 <= k < s.joined ==> s.workers[k].Exited?
  }

  /** A job is reported as interrupted only after the signal. */
  ghost predicate Honest(s: State) {
    forall r :: (r in s.output || r in s.collected) && r.interrupted ==> s.threadExit
  }

  ghost predicate Inv(c: Config, s: State) {
    Conserved(s) && InPhases(c, s) && Balanced(s) && Sized(s) && TestsFirst(s) && JoinedExited(s) && Honest(s)
  }

  lemma {:induction false} NobodyWorks(n: nat, x: Worker)
    requires !x.Waiting?
    ensures Count(seq(n, _ => Waiting), x) == 0
  {
    if n > 0 {
      NobodyWorks(n - 1, x);
      assert seq(n, _ => Waiting)[1..] == seq(n - 1, _ => Waiting);
    }
  }

  lemma {:induction false} EverybodyWaits(n: nat)
    ensures Count(seq(n, _ => Waiting), Waiting) == n
  {
    if n > 0 {
      EverybodyWaits(n - 1);
      assert seq(n, _ => Waiting)[1..] == seq(n - 1, _ => Waiting);
    }
  }

  lemma InitInv(c: Config)
    ensures Inv(c, Init(c))
  {
    EverybodyWaits(c.processors);
    NobodyWorks(c.processors, Exited);
    forall id: nat ensures Places(Init(c), id) == 0 {
      NobodyWorks(c.processors, Holding(id));
      NobodyWorks(c.processors, Running(id));
    }
  }

  /** What one step of worker `w` does to the queues and to the worker. */
  lemma WorkerEffect(c: Config, s: State, w: nat)
    requires Enabled(c, s, Work(w))
    ensures var t, me := Step(c, s, Work(w)), s.workers[w];
            && t == s.(input := t.input, output := t.output, workers := s.workers[w := t.workers[w]])
            && (me.Waiting? ==>
                  && s.input != [] && t.input == s.input[1..] && t.output == s.output
                  && t.workers[w] == if s.input[0].Sentinel? then Exited else Holding(s.input[0].id))
            && (!me.Waiting? ==>
                  && t.input == s.input && !me.Exited?
                  && (|| (t.output == s.output && me.Holding? && t.workers[w] == Running(me.id))
                      || (t.workers[w] == Waiting && |t.output| == |s.output| + 1
                          && var r := t.output[|s.output|];
                             t.output == s.output + [r] && r.id == me.id && (r.interrupted ==> s.threadExit))))
            && (me.Holding? ==> (t.workers[w] == Running(me.id) <==> !s.threadExit && me.id !in c.skipped))
  {
  }

  lemma StepConserves(c: Config, s: State, a: Action)
    requires Conserved(s) && Enabled(c, s, a)
    ensures Conserved(Step(c, s, a))
  {
    var t := Step(c, s, a);
    forall id: nat ensures Places(t, id) == if id < t.dispatched then 1 else 0 {
      assert Places(s, id) == if id < s.dispatched then 1 else 0;
      match a {
        case Main => MainMoves(c, s, id);
        case Work(w) => WorkerMoves(c, s, w, id);
        case Interrupt =>
      }
    }
  }

  /** Main adds one job at a time, and otherwise only takes jobs from the output queue. */
  lemma MainMoves(c: Config, s: State, id: nat)
    requires Enabled(c, s, Main)
    ensures var t := Step(c, s, Main);
            Places(t, id) == Places(s, id) + if t.dispatched > s.dispatched == id then 1 else 0
  {
    if s.dispatched < c.jobs {
      CountAppend(s.input, Test(s.dispatched), Test(id));
    } else if s.stopped < c.processors {
      CountAppend(s.input, Sentinel, Test(id));
    } else if |s.collected| < c.jobs {
      CountAppend(s.collected, s.output[0], Result(id, true));
      CountAppend(s.collected, s.output[0], Result(id, false));
    }
  }

  /** A worker only moves jobs on. */
  lemma WorkerMoves(c: Config, s: State, w: nat, id: nat)
    requires Enabled(c, s, Work(w))
    ensures Places(Step(c, s, Work(w)), id) == Places(s, id)
  {
    WorkerEffect(c, s, w);
    hide Step, Enabled;
    var t := Step(c, s, Work(w));
    CountUpdate(s.workers, w, t.workers[w], Holding(id));
    CountUpdate(s.workers, w, t.workers[w], Running(id));
    if |t.output| > |s.output| {
      CountAppend(s.output, t.output[|s.output|], Result(id, true));
      CountAppend(s.output, t.output[|s.output|], Result(id, false));
    }
  }

  lemma StepBalances(c: Config, s: State, a: Action)
    requires Balanced(s) && Sized(s) && Enabled(c, s, a)
    ensures Balanced(Step(c, s, a)) && Sized(Step(c, s, a))
  {
    if a.Work? {
      WorkerBalances(c, s, a.w);
    } else if a.Main? && (s.dispatched < c.jobs || s.stopped < c.processors) {
      CountAppend(s.input, Step(c, s, a).input[|s.input|], Sentinel);
    }
  }

  lemma WorkerBalances(c: Config, s: State, w: nat)
    requires Balanced(s) && Sized(s) && Enabled(c, s, Work(w))
    ensures Balanced(Step(c, s, Work(w))) && Sized(Step(c, s, Work(w)))
  {
    WorkerEffect(c, s, w);
    hide Step, Enabled;
    var t := Step(c, s, Work(w));
    CountUpdate(s.workers, w, t.workers[w], Exited);
    CountUpdate(s.workers, w, t.workers[w], Waiting);
  }

  lemma StepKeepsOrder(c: Config, s: State, a: Action)
    requires InPhases(c, s) && TestsFirst(s) && Enabled(c, s, a)
    ensures TestsFirst(Step(c, s, a)) && InPhases(c, Step(c, s, a))
  {
    var t := Step(c, s, a);
    if a.Work? {
      WorkerEffect(c, s, a.w);
      hide Step, Enabled;
      assert forall x :: x in t.workers ==> x in s.workers || x == t.workers[a.w];
      if s.workers[a.w].Waiting? {
        assert forall i :: 0 <= i < |t.input| ==> t.input[i] == s.input[i + 1];
      }
    }
  }

  lemma StepKeepsJoined(c: Config, s: State, a: Action)
    requires InPhases(c, s) && JoinedExited(s) && Honest(s) && Enabled(c, s, a)
    ensures JoinedExited(Step(c, s, a)) && Honest(Step(c, s, a))
  {
    var t := Step(c, s, a);
    if a.Main? && |t.collected| > |s.collected| {
      assert s.output[0] in s.output;
      assert forall r :: r in t.output ==> r in s.output;
    }
  }

  /** Every step of every interleaving keeps the invariant. */
  lemma StepKeepsInv(c: Config, s: State, a: Action)
    requires Inv(c, s) && Enabled(c, s, a)
    ensures Inv(c, Step(c, s, a))
  {
    hide Step, Enabled, Conserved, Balanced, Sized, TestsFirst, JoinedExited, Honest, InPhases;
    StepConserves(c, s, a);
    StepBalances(c, s, a);
    StepKeepsOrder(c, s, a);
    StepKeepsJoined(c, s, a);
  }

  // Nothing blocks for ever.

  lemma {:induction false} IdleWorkers(workers: seq<Worker>)
    requires forall w :: 0 <= w < |workers| ==> workers[w].Waiting? || workers[w].Exited?
    ensures Count(workers, Waiting) + Count(workers, Exited) == |workers|
  {
    if workers != [] {
      IdleWorkers(workers[1..]);
    }
  }

  /** In every reachable state that is not final, main or a worker can go on. */
  lemma NoDeadlock(c: Config, s: State) returns (a: Action)
    requires c.processors > 0 && Inv(c, s) && !Finished(c, s)
    ensures !a.Interrupt? && Enabled(c, s, a)
  {
    if s.dispatched < c.jobs || s.stopped < c.processors {
      a := Main;
    } else if w :| 0 <= w < |s.workers| && (s.workers[w].Holding? || s.workers[w].Running?) {
      a := Work(w);
    } else if |s.collected| < c.jobs {
      if s.output != [] {
        a := Main;
      } else {
        IdleWorkers(s.workers);
        CountAll(s.input, Sentinel);
        assert s.workers[0] in s.workers;
        a := Work(0);
      }
    } else if s.workers[s.joined].Exited? {
      a := Main;
    } else {
      CountAll(s.workers, Exited);
      CountAll(s.input, Sentinel);
      a := Work(s.joined);
    }
  }

  function ItemWork(x: Item): nat { if x.Test? then 4 else 1 }

  function WorkerWork(x: Worker): nat { if x.Holding? then 3 else if x.Running? then 2 else 0 }

  function InputWork(input: seq<Item>): nat {
    if input == [] then 0 else ItemWork(input[0]) + InputWork(input[1..])
  }

  function WorkersWork(workers: seq<Worker>): nat {
    if workers == [] then 0 else WorkerWork(workers[0]) + WorkersWork(workers[1..])
  }

  /** What is left to do, counted in steps. */
  function Potential(c: Config, s: State): int {
    6 * (c.jobs - s.dispatched) + 3 * (c.processors - s.stopped) + (c.jobs - |s.collected|) + (c.processors - s.joined)
    + InputWork(s.input) + WorkersWork(s.workers) + if s.threadExit then 0 else 1
  }

  lemma {:induction false} InputWorkAppend(input: seq<Item>, x: Item)
    ensures InputWork(input + [x]) == InputWork(input) + ItemWork(x)
  {
    if input != [] {
      InputWorkAppend(input[1..], x);
      assert (input + [x])[1..] == input[1..] + [x];
    }
  }

  lemma {:induction false} WorkersWorkUpdate(workers: seq<Worker>, w: nat, x: Worker)
    requires w < |workers|
    ensures WorkersWork(workers[w := x]) + WorkerWork(workers[w]) == WorkersWork(workers) + WorkerWork(x)
  {
    if w == 0 {
      assert workers[w := x][1..] == workers[1..];
    } else {
      WorkersWorkUpdate(workers[1..], w - 1, x);
      assert workers[w := x][1..] == workers[1..][w - 1 := x];
    }
  }

  /** Every step, the signal included, leaves less to do. */
  lemma StepProgresses(c: Config, s: State, a: Action)
    requires InPhases(c, s) && Enabled(c, s, a)
    ensures 0 <= Potential(c, Step(c, s, a)) < Potential(c, s)
  {
    var t := Step(c, s, a);
    match a {
      case Main =>
        if s.dispatched < c.jobs || s.stopped < c.processors {
          InputWorkAppend(s.input, t.input[|s.input|]);
        }
      case Work(w) => WorkerProgresses(c, s, w);
      case Interrupt =>
    }
  }

  lemma WorkerProgresses(c: Config, s: State, w: nat)
    requires InPhases(c, s) && Enabled(c, s, Work(w))
    ensures 0 <= Potential(c, Step(c, s, Work(w))) < Potential(c, s)
  {
    WorkerEffect(c, s, w);
    hide Step, Enabled;
    WorkersWorkUpdate(s.workers, w, Step(c, s, Work(w)).workers[w]);
  }

  // Whole runs, under any scheduling.

  /** The state after some steps, if each was possible when it was taken. */
  ghost predicate Runs(c: Config, actions: seq<Action>, s: State)
    decreases |actions|
  {
    if actions == [] then s == Init(c)
    else
      var last := actions[|actions| - 1];
      exists before ::
        Runs(c, actions[..|actions| - 1], before) && Enabled(c, before, last) && s == Step(c, before, last)
  }

  lemma {:induction false} RunKeepsInv(c: Config, actions: seq<Action>, s: State)
    requires Runs(c, actions, s)
    ensures Inv(c, s)
    decreases |actions|
  {
    if actions == [] {
      InitInv(c);
    } else {
      var last := actions[|actions| - 1];
      var before :| Runs(c, actions[..|actions| - 1], before) && Enabled(c, before, last) && s == Step(c, before, last);
      RunKeepsInv(c, actions[..|actions| - 1], before);
      StepKeepsInv(c, before, last);
    }
  }

  lemma {:induction false} NoWorkYet(n: nat)
    ensures WorkersWork(seq(n, _ => Waiting)) == 0
  {
    if n > 0 {
      NoWorkYet(n - 1);
      assert seq(n, _ => Waiting)[1..] == seq(n - 1, _ => Waiting);
    }
  }

  /** Every run ends: no interleaving takes more steps than this. */
  lemma {:induction false} RunsAreBounded(c: Config, actions: seq<Action>, s: State)
    requires Runs(c, actions, s)
    ensures 0 <= Potential(c, s) && |actions| + Potential(c, s) <= 7 * c.jobs + 4 * c.processors + 1
    decreases |actions|
  {
    if actions == [] {
      NoWorkYet(c.processors);
    } else {
      var last := actions[|actions| - 1];
      var before :| Runs(c, actions[..|actions| - 1], before) && Enabled(c, before, last) && s == Step(c, before, last);
      RunsAreBounded(c, actions[..|actions| - 1], before);
      RunKeepsInv(c, actions[..|actions| - 1], before);
      hide Potential, Step, Enabled, Runs;
      StepProgresses(c, before, last);
    }
  }

  /** Neither main nor any worker can take another step. */
  ghost predicate Stopped(c: Config, s: State) {
    forall a: Action :: !a.Interrupt? ==> !Enabled(c, s, a)
  }

  /** A run that can go no further has collected every job exactly once and sent every worker home. */
  lemma CompleteRuns(c: Config, actions: seq<Action>, s: State)
    requires c.processors > 0 && Runs(c, actions, s) && Stopped(c, s)
    ensures Finished(c, s) && |s.collected| == c.jobs
    ensures forall id: nat :: Delivered(s.collected, id) == if id < c.jobs then 1 else 0
    ensures s.input == [] && s.output == [] && forall w :: 0 <= w < |s.workers| ==> s.workers[w].Exited?
    ensures !s.threadExit ==> forall r :: r in s.collected ==> !r.interrupted
  {
    RunKeepsInv(c, actions, s);
    hide Runs;
    if !Finished(c, s) {
      var a := NoDeadlock(c, s);
    }
    FinalState(c, s);
  }

  lemma FinalState(c: Config, s: State)
    requires c.processors > 0 && Inv(c, s) && Finished(c, s)
    ensures forall id: nat :: Delivered(s.collected, id) == if id < c.jobs then 1 else 0
    ensures s.input == [] && s.output == [] && forall w :: 0 <= w < |s.workers| ==> s.workers[w].Exited?
    ensures !s.threadExit ==> forall r :: r in s.collected ==> !r.interrupted
  {
    CountAll(s.workers, Exited);
    CountAll(s.input, Sentinel);
    CountMember(s.workers, Waiting);
    assert s.workers[0] in s.workers && s.workers[0].Exited?;
    assert s.input == [] && s.output == [];
    forall id: nat ensures Delivered(s.collected, id) == if id < c.jobs then 1 else 0 {
      assert Places(s, id) == if id < s.dispatched then 1 else 0;
      CountMember(s.workers, Holding(id));
      CountMember(s.workers, Running(id));
    }
  }

  // Which tests are run.

  /** The state that the actions lead to; one that is not possible changes nothing. */
  ghost function After(c: Config, actions: seq<Action>): State
    decreases |actions|
  {
    if actions == [] then Init(c)
    else
      var before, last := After(c, actions[..|actions| - 1]), actions[|actions| - 1];
      if Enabled(c, before, last) then Step(c, before, last) else before
  }

  /** This step is the one with which a worker begins to run test `id`. */
  ghost predicate Begins(c: Config, s: State, a: Action, id: nat) {
    && a.Work? && Enabled(c, s, a) && s.workers[a.w] == Holding(id)
    && a.w < |Step(c, s, a).workers| && Step(c, s, a).workers[a.w] == Running(id)
  }

  /** How often test `id` is begun. */
  ghost function Starts(c: Config, actions: seq<Action>, id: nat): nat
    decreases |actions|
  {
    if actions == [] then 0
    else
      var front := actions[..|actions| - 1];
      Starts(c, front, id) + if Begins(c, After(c, front), actions[|actions| - 1], id) then 1 else 0
  }

  /** Every begun test is running, or its result has been handed back; no test to be skipped is running. */
  ghost predicate Accounted(c: Config, s: State, id: nat, starts: nat) {
    && starts == Count(s.workers, Running(id))
                 + (if id in c.skipped then 0
                    else Count(s.output, Result(id, false)) + Count(s.collected, Result(id, false)))
    && (id in c.skipped ==> Count(s.workers, Running(id)) == 0)
  }

  lemma CollectAccounts(output: seq<Result>, collected: seq<Result>, r: Result)
    requires output != []
    ensures Count(output[1..], r) + Count(collected + [output[0]], r) == Count(output, r) + Count(collected, r)
  {
    CountAppend(collected, output[0], r);
  }

  lemma WorkerAccounts(c: Config, s: State, w: nat, id: nat, starts: nat)
    requires Accounted(c, s, id, starts) && Enabled(c, s, Work(w))
    ensures Accounted(c, Step(c, s, Work(w)), id, starts + if Begins(c, s, Work(w), id) then 1 else 0)
  {
    var t := Step(c, s, Work(w));
    CountUpdate(s.workers, w, t.workers[w], Running(id));
    CountMember(s.workers, Running(id));
    assert s.workers[w] in s.workers;
    if |t.output| > |s.output| {
      CountAppend(s.output, t.output[|s.output|], Result(id, false));
    }
    hide Count;
  }

  lemma StepAccounts(c: Config, s: State, a: Action, id: nat, starts: nat)
    requires Accounted(c, s, id, starts) && Enabled(c, s, a)
    ensures Accounted(c, Step(c, s, a), id, starts + if Begins(c, s, a, id) then 1 else 0)
  {
    if a.Work? {
      WorkerAccounts(c, s, a.w, id, starts);
    } else {
      if s.output != [] {
        CollectAccounts(s.output, s.collected, Result(id, false));
      }
      hide Count;
    }
  }

  lemma {:induction false} RunAccounts(c: Config, actions: seq<Action>, s: State, id: nat)
    requires Runs(c, actions, s)
    ensures s == After(c, actions) && Accounted(c, s, id, Starts(c, actions, id))
    decreases |actions|
  {
    if actions == [] {
      NobodyRuns(c.processors, id);
    } else {
      var front, last := actions[..|actions| - 1], actions[|actions| - 1];
      var before :| Runs(c, front, before) && Enabled(c, before, last) && s == Step(c, before, last);
      RunAccounts(c, front, before, id);
      hide Step, Enabled, Accounted, Begins;
      StepAccounts(c, before, last, id, Starts(c, front, id));
    }
  }

  lemma {:induction false} NobodyRuns(n: nat, id: nat)
    ensures Count(seq(n, _ => Waiting), Running(id)) == 0
  {
    CountMember(seq(n, _ => Waiting), Running(id));
  }

  lemma {:induction false} PrefixRuns(c: Config, actions: seq<Action>, s: State, k: nat)
    requires Runs(c, actions, s) && k <= |actions|
    ensures Runs(c, actions[..k], After(c, actions[..k]))
    decreases |actions|
  {
    RunAccounts(c, actions, s, 0);
    if k == |actions| {
      assert actions[..k] == actions;
    } else {
      var front, last := actions[..|actions| - 1], actions[|actions| - 1];
      var before :| Runs(c, front, before) && Enabled(c, before, last) && s == Step(c, before, last);
      PrefixRuns(c, front, before, k);
      assert front[..k] == actions[..k];
    }
  }

  /** A test has been begun exactly if some worker was running it at some time. */
  lemma BegunExactly(c: Config, actions: seq<Action>, s: State, id: nat)
    requires Runs(c, actions, s)
    ensures Starts(c, actions, id) > 0
       <==> exists k :: 0 <= k <= |actions| && Running(id) in After(c, actions[..k]).workers
  {
    hide Runs, After, Starts;
    if k :| 0 <= k <= |actions| && Running(id) in After(c, actions[..k]).workers {
      PrefixRuns(c, actions, s, k);
      RunAccounts(c, actions[..k], After(c, actions[..k]), id);
      CountMember(After(c, actions[..k]).workers, Running(id));
      StartsGrow(c, actions, k, id);
    }
    if Starts(c, actions, id) > 0 {
      var k := FirstStart(c, actions, id);
    }
  }

  lemma {:induction false} StartsGrow(c: Config, actions: seq<Action>, k: nat, id: nat)
    requires k <= |actions|
    ensures Starts(c, actions[..k], id) <= Starts(c, actions, id)
  {
    hide Begins;
    if k == |actions| {
      assert actions[..k] == actions;
    } else {
      var front := actions[..|actions| - 1];
      StartsGrow(c, front, k, id);
      assert front[..k] == actions[..k];
    }
  }

  lemma {:induction false} FirstStart(c: Config, actions: seq<Action>, id: nat) returns (k: nat)
    requires Starts(c, actions, id) > 0
    ensures k <= |actions| && Running(id) in After(c, actions[..k]).workers
  {
    var front, last := actions[..|actions| - 1], actions[|actions| - 1];
    if Starts(c, front, id) > 0 {
      k := FirstStart(c, front, id);
      assert front[..k] == actions[..k];
    } else {
      k := |actions|;
      assert actions[..k] == actions;
      assert After(c, actions).workers[last.w] == Running(id);
    }
  }

  /** A job that is handed back uninterrupted is one to be skipped or has been run, at any time of any run. */
  lemma ResultsWereRun(c: Config, actions: seq<Action>, s: State, id: nat)
    requires Runs(c, actions, s)
    ensures Result(id, false) in s.collected ==> id in c.skipped || Starts(c, actions, id) > 0
    ensures id in c.skipped ==> Starts(c, actions, id) == 0
  {
    RunAccounts(c, actions, s, id);
    CountMember(s.collected, Result(id, false));
    hide Runs, Starts, Count;
  }

  /** A complete run has begun a job exactly if it is not one to be skipped and came back uninterrupted, and then once;
      without a signal these are all jobs that are not to be skipped. */
  lemma CompleteRunsRan(c: Config, actions: seq<Action>, s: State, id: nat)
    requires c.processors > 0 && Runs(c, actions, s) && Stopped(c, s)
    ensures Starts(c, actions, id) == if id !in c.skipped && Result(id, false) in s.collected then 1 else 0
    ensures Result(id, true) in s.collected ==> Starts(c, actions, id) == 0
    ensures !s.threadExit ==> Starts(c, actions, id) == if id < c.jobs && id !in c.skipped then 1 else 0
  {
    CompleteRuns(c, actions, s);
    RunAccounts(c, actions, s, id);
    hide Runs, Stopped, Starts;
    CountMember(s.collected, Result(id, false));
    CountMember(s.collected, Result(id, true));
    CountMember(s.workers, Running(id));
    assert Delivered(s.collected, id) == if id < c.jobs then 1 else 0;
    assert Count(s.output, Result(id, false)) == 0;
    hide Count;
  }
}
