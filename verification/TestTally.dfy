/** How `run_tests` in test.py counts what the workers deliver. */
module TestTally {
  import opened WorkerPool
  import opened Permutations

  /** The text of the `Result` element a test suite wrote. */
  datatype Verdict = Pass | Skip | Other

  /** What is known of a job once it has run; `returncode` means nothing if the job is skipped. */
  datatype Outcome = Outcome(isExample: bool, isSkip: bool, returncode: int, verdict: Verdict)

  datatype Job = Job(id: nat, isBreak: bool, outcome: Outcome)

  datatype Kind = Interrupted | Skipped | Passed | Failed | Valgrind | Crashed

  function KindOf(job: Job): Kind {
    if job.isBreak then Interrupted
    else if job.outcome.isSkip then Skipped
    else match job.outcome.returncode
      case 0 => Passed
      case 1 => Failed
      case 2 => Valgrind
      case _ => Crashed
  }

  function Tally(jobs: seq<Job>, kind: Kind): nat {
    if jobs == [] then 0
    else Tally(jobs[..|jobs| - 1], kind) + if KindOf(jobs[|jobs| - 1]) == kind then 1 else 0
  }

  /** What a job leaves in `failed_jobs`: once for its return code, once for its suite result. */
  function FailedEntries(job: Job): seq<Job> {
    if job.isBreak || job.outcome.isSkip then []
    else
      var o := job.outcome;
      (if o.returncode == 0 then [] else [job])
      + if o.isExample || (o.returncode in {0, 1, 2} && o.verdict in {Pass, Skip}) then [] else [job]
  }

  function FailedJobs(jobs: seq<Job>): seq<Job> {
    if jobs == [] then [] else FailedJobs(jobs[..|jobs| - 1]) + FailedEntries(jobs[|jobs| - 1])
  }

  /** A job that ran and has a non-zero return code, or whose suite reports neither PASS nor SKIP. */
  predicate IsFailure(job: Job) {
    && !job.isBreak && !job.outcome.isSkip
    && (job.outcome.returncode != 0 || (!job.outcome.isExample && job.outcome.verdict.Other?))
  }

  /** The collect loop.  `failedJobs` is pushed to and popped from; what remains is exact. */
  method Collect(jobs: seq<Job>)
    returns (passed: nat, failed: nat, crashed: nat, valgrind: nat, skipped: nat, failedJobs: seq<Job>)
    ensures passed == Tally(jobs, Passed) && failed == Tally(jobs, Failed) && crashed == Tally(jobs, Crashed)
    ensures valgrind == Tally(jobs, Valgrind) && skipped == Tally(jobs, Skipped)
    ensures failedJobs == FailedJobs(jobs)
  {
    passed, failed, crashed, valgrind, skipped, failedJobs := 0, 0, 0, 0, 0, [];
    for i := 0 to |jobs|
      invariant passed == Tally(jobs[..i], Passed) && failed == Tally(jobs[..i], Failed)
      invariant crashed == Tally(jobs[..i], Crashed) && valgrind == Tally(jobs[..i], Valgrind)
      invariant skipped == Tally(jobs[..i], Skipped) && failedJobs == FailedJobs(jobs[..i])
    {
      assert jobs[..i + 1][..i] == jobs[..i];
      var job := jobs[i];
      if job.isBreak {
        continue;
      }
      if job.outcome.isSkip {
        skipped := skipped + 1;
      } else {
        failedJobs := failedJobs + [job];
        if job.outcome.returncode == 0 {
          passed := passed + 1;
          failedJobs := failedJobs[..|failedJobs| - 1];
        } else if job.outcome.returncode == 1 {
          failed := failed + 1;
        } else if job.outcome.returncode == 2 {
          valgrind := valgrind + 1;
        } else {
          crashed := crashed + 1;
        }
      }
      if !job.outcome.isExample && !job.outcome.isSkip {
        failedJobs := failedJobs + [job];
        if job.outcome.returncode == 0 || job.outcome.returncode == 1 || job.outcome.returncode == 2 {
          if job.outcome.verdict in {Pass, Skip} {
            failedJobs := failedJobs[..|failedJobs| - 1];
          }
        }
      }
    }
    assert jobs[..|jobs|] == jobs;
  }

  /** What each counter counts. */
  lemma KindExactly(job: Job)
    ensures KindOf(job) == Interrupted <==> job.isBreak
    ensures KindOf(job) == Skipped <==> !job.isBreak && job.outcome.isSkip
    ensures !job.isBreak && !job.outcome.isSkip ==>
              && (KindOf(job) == Passed <==> job.outcome.returncode == 0)
              && (KindOf(job) == Failed <==> job.outcome.returncode == 1)
              && (KindOf(job) == Valgrind <==> job.outcome.returncode == 2)
              && (KindOf(job) == Crashed <==> job.outcome.returncode !in {0, 1, 2})
  {
  }

  /** A counter is the number of jobs of its kind. */
  lemma {:induction false} TallyIsNumber(jobs: seq<Job>, kind: Kind)
    ensures Tally(jobs, kind) == |set i: nat | i < |jobs| && KindOf(jobs[i]) == kind|
  {
    hide KindOf;
    if jobs != [] {
      var n := |jobs| - 1;
      var front := jobs[..n];
      TallyIsNumber(front, kind);
      var before := set i: nat | i < n && KindOf(front[i]) == kind;
      var all := set i: nat | i < |jobs| && KindOf(jobs[i]) == kind;
      if KindOf(jobs[n]) == kind {
        assert all == before + {n};
      } else {
        assert all == before;
      }
    }
  }

  /** A job is listed as failed once for its return code and once for its suite, a suite without a result included. */
  lemma {:induction false} FailedTimes(jobs: seq<Job>, job: Job)
    ensures Count(FailedJobs(jobs), job) == Count(jobs, job) * Times(job)
  {
    hide Count, Times, FailedEntries;
    if jobs == [] {
      CountMember(jobs, job);
    } else {
      var front, last := jobs[..|jobs| - 1], jobs[|jobs| - 1];
      FailedTimes(front, job);
      assert jobs == front + [last];
      CountAppend(front, last, job);
      CountConcat(FailedJobs(front), FailedEntries(last), job);
      EntriesCount(last, job);
      OnceMore(Count(front, job), Times(job));
    }
  }

  ghost function Times(job: Job): nat {
    if job.isBreak || job.outcome.isSkip then 0
    else
      (if job.outcome.returncode != 0 then 1 else 0)
      + (if job.outcome.isExample then 0
         else if job.outcome.returncode !in {0, 1, 2} then 1
         else if job.outcome.verdict == Other then 1 else 0)
  }

  lemma OnceMore(n: nat, t: nat)
    ensures (n + 1) * t == n * t + t
  {
  }

  lemma EntriesCount(one: Job, job: Job)
    ensures one != job ==> Count(FailedEntries(one), job) == 0
    ensures one == job ==> Count(FailedEntries(one), job) == Times(job)
  {
    CountAll(FailedEntries(one), job);
    CountMember(FailedEntries(one), job);
    hide Count;
  }

  /** Every job is counted once. */
  lemma {:induction false} TalliesAddUp(jobs: seq<Job>)
    ensures Tally(jobs, Interrupted) + Tally(jobs, Skipped) + Tally(jobs, Passed) + Tally(jobs, Failed)
            + Tally(jobs, Valgrind) + Tally(jobs, Crashed) == |jobs|
  {
    if jobs != [] {
      TalliesAddUp(jobs[..|jobs| - 1]);
    }
  }

  lemma {:induction false} FailedExactly(jobs: seq<Job>, job: Job)
    ensures job in FailedJobs(jobs) <==> job in jobs && IsFailure(job)
  {
    if jobs != [] {
      var front, last := jobs[..|jobs| - 1], jobs[|jobs| - 1];
      assert jobs == front + [last];
      FailedExactly(front, job);
    }
  }

  function ExitCode(passed: nat, skipped: nat, total: nat): int { if passed + skipped == total then 0 else 1 }

  /** The exit code is 0 exactly if every job passed or was skipped, none of them interrupted. */
  lemma ExitsZeroExactly(jobs: seq<Job>)
    ensures ExitCode(Tally(jobs, Passed), Tally(jobs, Skipped), |jobs|) == 0
       <==> forall job <- jobs :: KindOf(job) in {Passed, Skipped}
  {
    TalliesAddUp(jobs);
    forall kind: Kind ensures Tally(jobs, kind) == 0 <==> forall job <- jobs :: KindOf(job) != kind {
      TallyIsZero(jobs, kind);
    }
    if forall job <- jobs :: KindOf(job) in {Passed, Skipped} {
      assert Tally(jobs, Interrupted) == Tally(jobs, Failed) == Tally(jobs, Valgrind) == Tally(jobs, Crashed) == 0;
    }
  }

  lemma {:induction false} TallyIsZero(jobs: seq<Job>, kind: Kind)
    ensures Tally(jobs, kind) == 0 <==> forall job <- jobs :: KindOf(job) != kind
  {
    if jobs != [] {
      var front, last := jobs[..|jobs| - 1], jobs[|jobs| - 1];
      assert jobs == front + [last];
      TallyIsZero(front, kind);
    }
  }

  /** A run may exit with 0 and still list failed jobs: exactly if some suite exits with 0 but reports a failure. */
  lemma ExitCodeMissesExactly(jobs: seq<Job>)
    requires ExitCode(Tally(jobs, Passed), Tally(jobs, Skipped), |jobs|) == 0
    ensures FailedJobs(jobs) != [] <==> exists job :: job in jobs && QuietFailure(job)
  {
    hide *;
    ExitsZeroExactly(jobs);
    var failures := FailedJobs(jobs);
    if failures != [] {
      assert failures[0] in failures;
      FailedExactly(jobs, failures[0]);
      FailsQuietly(failures[0]);
    }
    if job :| job in jobs && QuietFailure(job) {
      FailsQuietly(job);
      FailedExactly(jobs, job);
    }
  }

  lemma FailsQuietly(job: Job)
    requires KindOf(job) in {Passed, Skipped}
    ensures IsFailure(job) <==> QuietFailure(job)
  {
  }

  predicate QuietFailure(job: Job) {
    !job.outcome.isSkip && !job.outcome.isExample && job.outcome.returncode == 0 && job.outcome.verdict.Other?
  }

  // What the pool delivered.

  function Deliveries(results: seq<Result>, outcomes: seq<Outcome>): seq<Job>
    requires forall r <- results :: r.id < |outcomes|
  {
    seq(|results|, i requires 0 <= i < |results| =>
      assert results[i] in results;
      Job(results[i].id, results[i].interrupted, outcomes[results[i].id]))
  }

  function InOrder(n: nat): seq<Result> { seq(n, i requires 0 <= i < n => Result(i, false)) }

  /** The collected results name known jobs, whatever the interleaving. */
  lemma CollectedAreKnown(c: Config, actions: seq<Action>, s: State)
    requires c.processors > 0 && Runs(c, actions, s) && Stopped(c, s)
    ensures forall r <- s.collected :: r.id < c.jobs
  {
    CompleteRuns(c, actions, s);
    hide Runs, Stopped;
    forall r | r in s.collected ensures r.id < c.jobs {
      CountMember(s.collected, r);
      assert Delivered(s.collected, r.id) == if r.id < c.jobs then 1 else 0;
    }
  }

  /** The counters of a complete run add up to `total_tests`. */
  lemma CompleteRunsAddUp(c: Config, actions: seq<Action>, s: State, outcomes: seq<Outcome>)
    requires c.processors > 0 && Runs(c, actions, s) && Stopped(c, s) && |outcomes| == c.jobs
    ensures forall r <- s.collected :: r.id < c.jobs
    ensures var jobs := Deliveries(s.collected, outcomes);
            Tally(jobs, Interrupted) + Tally(jobs, Skipped) + Tally(jobs, Passed) + Tally(jobs, Failed)
            + Tally(jobs, Valgrind) + Tally(jobs, Crashed) == c.jobs
  {
    CompleteRuns(c, actions, s);
    CollectedAreKnown(c, actions, s);
    TalliesAddUp(Deliveries(s.collected, outcomes));
  }

  /** Without a signal the counters are those of running the jobs one after the other. */
  lemma CountersIgnoreScheduling(c: Config, actions: seq<Action>, s: State, outcomes: seq<Outcome>, kind: Kind)
    requires c.processors > 0 && Runs(c, actions, s) && Stopped(c, s) && !s.threadExit && |outcomes| == c.jobs
    ensures forall r <- s.collected :: r.id < c.jobs
    ensures Tally(Deliveries(s.collected, outcomes), kind) == Tally(Deliveries(InOrder(c.jobs), outcomes), kind)
  {
    CompleteRuns(c, actions, s);
    CollectedAreKnown(c, actions, s);
    hide Runs, Stopped;
    forall r: Result ensures multiset(s.collected)[r] == multiset(InOrder(c.jobs))[r] {
      CountIsMultiplicity(s.collected, r);
      OnceInOrder(c.jobs, r);
      CountMember(s.collected, r);
      assert Delivered(s.collected, r.id) == if r.id < c.jobs then 1 else 0;
      CountMember(s.collected, Result(r.id, true));
    }
    hide Delivered;
    TallyPermutes(s.collected, InOrder(c.jobs), outcomes, kind);
  }

  lemma {:induction false} OnceInOrder(n: nat, r: Result)
    ensures multiset(InOrder(n))[r] == if r.id < n && !r.interrupted then 1 else 0
  {
    if n > 0 {
      OnceInOrder(n - 1, r);
      assert InOrder(n) == InOrder(n - 1) + [Result(n - 1, false)];
    }
  }

  lemma {:induction false} TallySplits(a: seq<Job>, b: seq<Job>, kind: Kind)
    ensures Tally(a + b, kind) == Tally(a, kind) + Tally(b, kind)
  {
    if b == [] {
      assert a + b == a;
    } else {
      var front := b[..|b| - 1];
      TallySplits(a, front, kind);
      assert (a + b)[..|a + b| - 1] == a + front;
    }
  }

  lemma {:induction false} TallyPermutes(one: seq<Result>, two: seq<Result>, outcomes: seq<Outcome>, kind: Kind)
    requires multiset(one) == multiset(two)
    requires (forall r <- one :: r.id < |outcomes|) && (forall r <- two :: r.id < |outcomes|)
    ensures Tally(Deliveries(one, outcomes), kind) == Tally(Deliveries(two, outcomes), kind)
  {
    if one == [] {
      NothingLeft(two);
    } else {
      var i := TakeOut(one, two);
      var before, after := two[..i], two[i + 1..];
      assert forall x :: x in before + after ==> x in two;
      TallyPermutes(one[1..], before + after, outcomes, kind);
      TallyTakesOut(one, 0, outcomes, kind);
      TallyTakesOut(two, i, outcomes, kind);
      assert one[..0] + one[1..] == one[1..];
    }
  }

  lemma TallyTakesOut(results: seq<Result>, i: nat, outcomes: seq<Outcome>, kind: Kind)
    requires i < |results| && forall r <- results :: r.id < |outcomes|
    ensures forall r <- results[..i] + results[i + 1..] :: r.id < |outcomes|
    ensures Tally(Deliveries(results, outcomes), kind)
         == Tally(Deliveries(results[..i] + results[i + 1..], outcomes), kind)
            + Tally(Deliveries([results[i]], outcomes), kind)
  {
    var before, after := results[..i], results[i + 1..];
    assert forall r :: r in before || r in after || r == results[i] ==> r in results;
    var x, a, b := Deliveries([results[i]], outcomes), Deliveries(before, outcomes), Deliveries(after, outcomes);
    assert Deliveries(results, outcomes) == a + (x + b);
    assert Deliveries(before + after, outcomes) == a + b;
    TallySplits(a, x + b, kind);
    TallySplits(x, b, kind);
    TallySplits(a, b, kind);
  }

  /** Such a run exists. */
  lemma QuietFailureExists()
    ensures var jobs := [Job(0, false, Outcome(false, false, 0, Other))];
            ExitCode(Tally(jobs, Passed), Tally(jobs, Skipped), |jobs|) == 0 && FailedJobs(jobs) != []
  {
    var job := Job(0, false, Outcome(false, false, 0, Other));
    assert [job][..0] == [];
    FailedExactly([job], job);
  }
}
