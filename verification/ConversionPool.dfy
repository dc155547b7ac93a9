/** The worker threads of clrf-to-lf.js: they share one atomic cursor over the list of files.

    A step is one `Atomics.add` or one finished conversion; the steps of different workers come in
    any order.
 */
module ConversionPool {
  import opened Permutations

  datatype Worker = Ready | Converting(index: nat) | Drained

  /** `done[w]` are the file indices worker `w` has dealt with, in its order. */
  datatype State = State(cursor: int, workers: seq<Worker>, done: seq<seq<nat>>)

  const INT32 := 0x1_0000_0000
  const INT32_MAX := 0x7fff_ffff

  /** The sum as an Int32Array keeps it. */
  function Wrapped(n: int): int {
    var m := n % INT32;
    if m > INT32_MAX then m - INT32 else m
  }

  function Init(workers: nat): State {
    State(0, seq(workers, _ => Ready), NothingDone(workers))
  }

  function NothingDone(workers: nat): seq<seq<nat>> {
    if workers == 0 then [] else [[]] + NothingDone(workers - 1)
  }

  predicate Enabled(s: State, w: nat) { w < |s.workers| && |s.done| == |s.workers| && !s.workers[w].Drained? }

  /** Claim an index, or finish the file just converted.  A claimed index below 0 would read no file. */
  function Step(files: nat, s: State, w: nat): State
    requires Enabled(s, w)
  {
    match s.workers[w]
    case Ready =>
      var next := if s.cursor >= files || s.cursor < 0 then Drained else Converting(s.cursor);
      s.(cursor := Wrapped(s.cursor + 1), workers := s.workers[w := next])
    case Converting(index) =>
      s.(workers := s.workers[w := Ready], done := s.done[w := s.done[w] + [index]])
    case Drained => s
  }

  /** The results in the order in which `main` merges them. */
  function Merged(done: seq<seq<nat>>): seq<nat> {
    if done == [] then [] else done[0] + Merged(done[1..])
  }

  lemma {:induction false} MergedUpdate(done: seq<seq<nat>>, w: nat, i: nat, x: nat)
    requires w < |done|
    ensures Count(Merged(done[w := done[w] + [i]]), x) == Count(Merged(done), x) + if i == x then 1 else 0
    ensures |Merged(done[w := done[w] + [i]])| == |Merged(done)| + 1
  {
    var after := done[w := done[w] + [i]];
    CountConcat(done[0], Merged(done[1..]), x);
    CountConcat(after[0], Merged(after[1..]), x);
    if w == 0 {
      CountAppend(done[0], i, x);
      assert after[1..] == done[1..];
    } else {
      MergedUpdate(done[1..], w - 1, i, x);
      assert after[1..] == done[1..][w - 1 := done[1..][w - 1] + [i]];
    }
  }

  function Min(a: int, b: int): int { if a < b then a else b }

  function Places(s: State, i: nat): nat { Count(s.workers, Converting(i)) + Count(Merged(s.done), i) }

  /** Each claimed file is with one worker or done by one; every claim past the end has sent a worker home. */
  ghost predicate Inv(files: nat, workers: nat, s: State) {
    && |s.workers| == |s.done| == workers
    && 0 <= s.cursor
    && (forall i: nat :: Places(s, i) == if i < Min(s.cursor, files) then 1 else 0)
    && Count(s.workers, Drained) == (if s.cursor > files then s.cursor - files else 0)
    && |Merged(s.done)| + |s.workers| - Count(s.workers, Ready) - Count(s.workers, Drained) == Min(s.cursor, files)
  }

  lemma {:induction false} NobodyBusy(n: nat, x: Worker)
    ensures Count(seq(n, _ => Ready), x) == if x.Ready? then n else 0
    ensures Merged(NothingDone(n)) == [] && |NothingDone(n)| == n
  {
    if n > 0 {
      NobodyBusy(n - 1, x);
      assert seq(n, _ => Ready)[1..] == seq(n - 1, _ => Ready);
      assert NothingDone(n)[1..] == NothingDone(n - 1);
    }
  }

  lemma InitInv(files: nat, workers: nat)
    ensures Inv(files, workers, Init(workers))
  {
    NobodyBusy(workers, Drained);
    NobodyBusy(workers, Ready);
    forall i: nat ensures Places(Init(workers), i) == 0 {
      NobodyBusy(workers, Converting(i));
    }
  }

  /** The cursor passes the end by at most one claim a worker, so it never wraps. */
  lemma CursorIsBounded(files: nat, workers: nat, s: State)
    requires Inv(files, workers, s)
    ensures s.cursor <= files + workers
    ensures (exists w: nat :: w < |s.workers| && s.workers[w].Ready?) ==> s.cursor < files + workers
  {
    CountAll(s.workers, Drained);
  }

  lemma ClaimKeepsInv(files: nat, workers: nat, s: State, w: nat)
    requires Inv(files, workers, s) && Enabled(s, w) && s.workers[w].Ready? && files + workers <= INT32_MAX
    ensures Inv(files, workers, Step(files, s, w))
  {
    CursorIsBounded(files, workers, s);
    var t := Step(files, s, w);
    var next := if s.cursor >= files then Drained else Converting(s.cursor);
    assert t == s.(cursor := s.cursor + 1, workers := s.workers[w := next]);
    hide Step, Count, Merged;
    CountUpdate(s.workers, w, next, Drained);
    CountUpdate(s.workers, w, next, Ready);
    forall i: nat ensures Places(t, i) == if i < Min(t.cursor, files) then 1 else 0 {
      assert Places(s, i) == if i < Min(s.cursor, files) then 1 else 0;
      CountUpdate(s.workers, w, next, Converting(i));
    }
  }

  lemma FinishKeepsInv(files: nat, workers: nat, s: State, w: nat)
    requires Inv(files, workers, s) && Enabled(s, w) && s.workers[w].Converting?
    ensures Inv(files, workers, Step(files, s, w))
  {
    var t, index := Step(files, s, w), s.workers[w].index;
    assert t == s.(workers := s.workers[w := Ready], done := s.done[w := s.done[w] + [index]]);
    hide Step, Count, Merged;
    CountUpdate(s.workers, w, Ready, Drained);
    CountUpdate(s.workers, w, Ready, Ready);
    MergedUpdate(s.done, w, index, 0);
    forall i: nat ensures Places(t, i) == if i < Min(t.cursor, files) then 1 else 0 {
      assert Places(s, i) == if i < Min(s.cursor, files) then 1 else 0;
      CountUpdate(s.workers, w, Ready, Converting(i));
      MergedUpdate(s.done, w, index, i);
    }
  }

  lemma StepKeepsInv(files: nat, workers: nat, s: State, w: nat)
    requires Inv(files, workers, s) && Enabled(s, w) && files + workers <= INT32_MAX
    ensures Inv(files, workers, Step(files, s, w))
  {
    hide Inv, Step;
    if s.workers[w].Ready? {
      ClaimKeepsInv(files, workers, s, w);
    } else {
      FinishKeepsInv(files, workers, s, w);
    }
  }

  /** The number of steps still to be taken. */
  function Potential(files: nat, s: State): int {
    2 * (files - Min(s.cursor, files))
    + (|s.workers| - Count(s.workers, Ready) - Count(s.workers, Drained)) + (|s.workers| - Count(s.workers, Drained))
  }

  /** Every step is one of them. */
  lemma StepProgresses(files: nat, workers: nat, s: State, w: nat)
    requires Inv(files, workers, s) && Enabled(s, w) && files + workers <= INT32_MAX
    ensures Potential(files, Step(files, s, w)) == Potential(files, s) - 1
  {
    var t := Step(files, s, w);
    CursorIsBounded(files, workers, s);
    CountUpdate(s.workers, w, t.workers[w], Drained);
    CountUpdate(s.workers, w, t.workers[w], Ready);
    hide Count;
  }

  /** The state after the workers were scheduled in this order. */
  ghost predicate Runs(files: nat, workers: nat, schedule: seq<nat>, s: State)
    decreases |schedule|
  {
    if schedule == [] then s == Init(workers)
    else
      var w := schedule[|schedule| - 1];
      exists before :: Runs(files, workers, schedule[..|schedule| - 1], before) && Enabled(before, w)
                       && s == Step(files, before, w)
  }

  lemma {:induction false} RunKeepsInv(files: nat, workers: nat, schedule: seq<nat>, s: State)
    requires Runs(files, workers, schedule, s) && files + workers <= INT32_MAX
    ensures Inv(files, workers, s)
    ensures |schedule| + Potential(files, s) == 2 * files + workers
    decreases |schedule|
  {
    if schedule == [] {
      InitInv(files, workers);
      NobodyBusy(workers, Ready);
      NobodyBusy(workers, Drained);
    } else {
      var w := schedule[|schedule| - 1];
      var before :| Runs(files, workers, schedule[..|schedule| - 1], before) && Enabled(before, w)
                    && s == Step(files, before, w);
      RunKeepsInv(files, workers, schedule[..|schedule| - 1], before);
      hide Inv, Step, Enabled, Potential;
      StepKeepsInv(files, workers, before, w);
      StepProgresses(files, workers, before, w);
    }
  }

  /** When no worker can go on, each file has been converted once, after a number of steps and with a
      cursor that do not depend on the schedule. */
  lemma CompleteRuns(files: nat, workers: nat, schedule: seq<nat>, s: State)
    requires Runs(files, workers, schedule, s) && files + workers <= INT32_MAX && workers > 0
    requires forall w: nat :: !Enabled(s, w)
    ensures |schedule| == 2 * files + workers && s.cursor == files + workers
    ensures forall i: nat :: Count(Merged(s.done), i) == if i < files then 1 else 0
  {
    RunKeepsInv(files, workers, schedule, s);
    hide Runs;
    forall w | 0 <= w < |s.workers| ensures s.workers[w] == Drained {
      assert !Enabled(s, w);
    }
    CountAll(s.workers, Drained);
    CountMember(s.workers, Ready);
    forall i: nat ensures Count(Merged(s.done), i) == if i < files then 1 else 0 {
      assert Places(s, i) == if i < Min(s.cursor, files) then 1 else 0;
      CountMember(s.workers, Converting(i));
    }
  }

  // The merged report.

  /** Something counted for every file: its CRLFs, whether it is reported, whether it failed. */
  function Sum(indices: seq<nat>, weights: seq<nat>): nat {
    if indices == [] then 0
    else (if indices[0] < |weights| then weights[indices[0]] else 0) + Sum(indices[1..], weights)
  }

  lemma {:induction false} SumSplits(a: seq<nat>, b: seq<nat>, weights: seq<nat>)
    ensures Sum(a + b, weights) == Sum(a, weights) + Sum(b, weights)
  {
    if a == [] {
      assert a + b == b;
    } else {
      assert (a + b)[1..] == a[1..] + b;
      SumSplits(a[1..], b, weights);
    }
  }

  lemma {:induction false} SumPermutes(one: seq<nat>, two: seq<nat>, weights: seq<nat>)
    requires multiset(one) == multiset(two)
    ensures Sum(one, weights) == Sum(two, weights)
  {
    if one == [] {
      NothingLeft(two);
    } else {
      var i := TakeOut(one, two);
      var before, after := two[..i], two[i + 1..];
      SumPermutes(one[1..], before + after, weights);
      SumSplits(before, after, weights);
      SumSplits(before, [two[i]] + after, weights);
      SumSplits([two[i]], after, weights);
      assert [two[i]][1..] == [];
    }
  }

  function InOrder(n: nat): seq<nat> { if n == 0 then [] else InOrder(n - 1) + [n - 1] }

  lemma {:induction false} OnceInOrder(n: nat, i: nat)
    ensures Count(InOrder(n), i) == if i < n then 1 else 0
  {
    if n > 0 {
      OnceInOrder(n - 1, i);
      CountAppend<nat>(InOrder(n - 1), n - 1, i);
    }
  }

  /** The merged totals are those of a single pass over the files. */
  lemma TotalsIgnoreScheduling(files: nat, workers: nat, schedule: seq<nat>, s: State, weights: seq<nat>)
    requires Runs(files, workers, schedule, s) && files + workers <= INT32_MAX && workers > 0
    requires forall w: nat :: !Enabled(s, w)
    ensures multiset(Merged(s.done)) == multiset(InOrder(files))
    ensures Sum(Merged(s.done), weights) == Sum(InOrder(files), weights)
  {
    CompleteRuns(files, workers, schedule, s);
    hide Runs, Merged;
    forall i: nat ensures multiset(Merged(s.done))[i] == multiset(InOrder(files))[i] {
      CountIsMultiplicity(Merged(s.done), i);
      CountIsMultiplicity(InOrder(files), i);
      OnceInOrder(files, i);
    }
    SumPermutes(Merged(s.done), InOrder(files), weights);
  }
}
