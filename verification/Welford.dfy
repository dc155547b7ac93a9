/** The averages of a benchmark suite: `BenchSuite::Log` in utils/bench-scheduler.cc, over exact reals. */
module Welford {
  import opened Statistics
  import opened Wrappers

  datatype PhaseResult = PhaseResult(time: real, rate: real, period: real)

  datatype Result = Result(init: PhaseResult, run: PhaseResult)

  datatype Field = InitTime | InitRate | InitPeriod | RunTime | RunRate | RunPeriod

  function Get(r: Result, f: Field): real {
    match f
    case InitTime => r.init.time
    case InitRate => r.init.rate
    case InitPeriod => r.init.period
    case RunTime => r.run.time
    case RunRate => r.run.rate
    case RunPeriod => r.run.period
  }

  function Column(results: seq<Result>, f: Field): (r: seq<real>)
    ensures |r| == |results|
  {
    seq(|results|, i requires 0 <= i < |results| => Get(results[i], f))
  }

  /** `average` is the exact mean and `moment2` the sum of squared deviations from it. */
  ghost predicate Moments(values: seq<real>, average: real, moment2: real) {
    values != [] && average == Mean(values) && moment2 == Deviation(values, average)
  }

  /** Before the first sample the loop starts from that sample; later it holds the moments so far. */
  ghost predicate SoFar(values: seq<real>, next: real, average: real, moment2: real) {
    if values == [] then average == next && moment2 == 0.0 else Moments(values, average, moment2)
  }

  /** The fields are all there is to a result. */
  lemma FieldsExactly(a: Result, b: Result)
    requires forall f: Field :: Get(a, f) == Get(b, f)
    ensures a == b
  {
    assert Get(a, InitTime) == Get(b, InitTime) && Get(a, InitRate) == Get(b, InitRate);
    assert Get(a, InitPeriod) == Get(b, InitPeriod) && Get(a, RunTime) == Get(b, RunTime);
    assert Get(a, RunRate) == Get(b, RunRate) && Get(a, RunPeriod) == Get(b, RunPeriod);
  }

  /** The macro ACCUMULATE for one field. */
  method Accumulate(average: real, moment2: real, sample: real, count: nat, ghost before: seq<real>)
    returns (average': real, moment2': real)
    requires count == |before| + 1 && SoFar(before, sample, average, moment2)
    ensures Moments(before + [sample], average', moment2')
  {
    var deltaPre := sample - average;
    average' := average + deltaPre / count as real;
    var deltaPost := sample - average';
    moment2' := moment2 + deltaPre * deltaPost;
    WelfordStep(before, sample, average, average', moment2);
  }

  lemma WelfordStep(before: seq<real>, x: real, m: real, m': real, d: real)
    requires SoFar(before, x, m, d) && m' == m + (x - m) / (|before| + 1) as real
    ensures Moments(before + [x], m', d + (x - m) * (x - m'))
  {
    if before == [] {
      OneSample(before + [x], x);
      DividedByOne(x - m, (|before| + 1) as real);
      SquareIsNonNegative(x - m);
    } else {
      NextMoments(before, x, m, m');
    }
  }

  lemma OneSample(all: seq<real>, x: real)
    requires all == [x]
    ensures Moments(all, x, 0.0)
  {
    assert all[..0] == [] && all[0] == x;
    assert Total(all) == x;
    assert Mean(all) == x;
    assert Deviation(all, x) == 0.0;
  }

  lemma DividedByOne(x: real, n: real)
    requires n == 1.0
    ensures x / n == x
  {
  }

  lemma NextMoments(before: seq<real>, x: real, m: real, m': real)
    requires before != [] && m == Mean(before) && m' == m + (x - m) / (|before| + 1) as real
    ensures Moments(before + [x], m', Deviation(before, m) + (x - m) * (x - m'))
  {
    NewMean(before, x, m, m');
    hide Mean, Deviation;
    NewDeviation(before, x, m, m');
  }

  lemma NewMean(before: seq<real>, x: real, m: real, m': real)
    requires before != [] && m == Mean(before) && m' == m + (x - m) / (|before| + 1) as real
    ensures m' == Mean(before + [x])
  {
    assert (before + [x])[..|before|] == before;
    LastOf(before + [x], 0.0);
    hide Total;
    MeanTimes(Total(before), |before| as real);
    NextMean(Total(before), |before| as real, m, x, m');
    assert (|before| + 1) as real == |before| as real + 1.0;
  }

  lemma NewDeviation(before: seq<real>, x: real, m: real, m': real)
    requires before != [] && m == Mean(before) && m' == Mean(before + [x])
    ensures Deviation(before + [x], m') == Deviation(before, m) + (x - m) * (x - m')
  {
    hide *;
    DeviationExpands(before, m);
    DeviationExpands(before + [x], m');
    Grown(before, x);
    IsMeanOf(before, m);
    IsMeanOf(before + [x], m');
    NextDeviation(Squares(before), Total(before), |before| as real, m, x, m',
                  Squares(before + [x]), Total(before + [x]), |before + [x]| as real);
  }

  ghost predicate IsMean(m: real, n: real, t: real) { n > 0.0 && m * n == t }

  lemma IsMeanOf(values: seq<real>, m: real)
    requires values != [] && m == Mean(values)
    ensures IsMean(m, |values| as real, Total(values))
  {
    MeanTimes(Total(values), |values| as real);
  }

  /** The total and the total of the squares, with one more value. */
  ghost predicate Grows(q: real, t: real, n: real, x: real, q': real, t': real, n': real) {
    q' == q + x * x && t' == t + x && n' == n + 1.0
  }

  lemma Grown(before: seq<real>, x: real)
    ensures Grows(Squares(before), Total(before), |before| as real, x,
                  Squares(before + [x]), Total(before + [x]), |before + [x]| as real)
  {
    assert (before + [x])[..|before|] == before;
    LastOf(before + [x], 0.0);
  }

  lemma NextMean(t: real, n: real, m: real, x: real, m': real)
    requires n > 0.0 && m * n == t && m' == m + (x - m) / (n + 1.0)
    ensures m' * (n + 1.0) == t + x && m' == (t + x) / (n + 1.0)
  {
    assert (x - m) / (n + 1.0) * (n + 1.0) == x - m;
    assert m' * (n + 1.0) == m * (n + 1.0) + (x - m);
  }

  lemma NextDeviation(q: real, t: real, n: real, m: real, x: real, m': real, q': real, t': real, n': real)
    requires Grows(q, t, n, x, q', t', n') && IsMean(m, n, t) && IsMean(m', n', t')
    ensures Expansion(q', t', n', m') == Expansion(q, t, n, m) + (x - m) * (x - m')
  {
    assert n' * m' * m' == t' * m';
    assert n * m * m == t * m;
    assert m * (m' * n') == m * t';
    assert m * (m' * (n + 1.0)) == (m * n) * m' + m * m';
    assert (x - m) * (x - m') == x * x - x * m' - m * x + m * m';
  }

  /** Nothing is averaged for fewer than two runs. */
  method Log(results: seq<Result>) returns (r: Option<(Result, Result)>)
    ensures r.None? <==> |results| < 2
    ensures r.Some? ==> forall f: Field :: Moments(Column(results, f), Get(r.value.0, f), Get(r.value.1, f))
  {
    if |results| < 2 {
      return None;
    }
    var average := results[0];
    var moment2 := Result(PhaseResult(0.0, 0.0, 0.0), PhaseResult(0.0, 0.0, 0.0));
    for n := 0 to |results|
      invariant forall f: Field ::
                  SoFar(Column(results[..n], f), Get(results[0], f), Get(average, f), Get(moment2, f))
    {
      var run, count := results[n], n + 1;
      average, moment2 := AccumulateAll(average, moment2, run, count, results);
    }
    assert results[..|results|] == results;
    r := Some((average, moment2));
  }

  lemma ColumnGrows(results: seq<Result>, count: nat)
    requires 1 <= count <= |results|
    ensures forall f: Field ::
              Column(results[..count], f) == Column(results[..count - 1], f) + [Get(results[count - 1], f)]
  {
    hide Get;
  }

  method AccumulateAll(average: Result, moment2: Result, run: Result, count: nat, ghost results: seq<Result>)
    returns (average': Result, moment2': Result)
    requires 1 <= count <= |results| && run == results[count - 1]
    requires forall f: Field ::
               SoFar(Column(results[..count - 1], f), Get(results[0], f), Get(average, f), Get(moment2, f))
    ensures forall f: Field :: Moments(Column(results[..count], f), Get(average', f), Get(moment2', f))
  {
    ghost var before := results[..count - 1];
    ColumnGrows(results, count);
    forall f: Field ensures SoFar(Column(before, f), Get(run, f), Get(average, f), Get(moment2, f)) {
    }
    hide Moments, SoFar, Column;
    var it, i2 := Accumulate(average.init.time, moment2.init.time, run.init.time, count, Column(before, InitTime));
    var ir, j2 := Accumulate(average.init.rate, moment2.init.rate, run.init.rate, count, Column(before, InitRate));
    var ip, k2 := Accumulate(average.init.period, moment2.init.period, run.init.period, count,
                             Column(before, InitPeriod));
    var rt, l2 := Accumulate(average.run.time, moment2.run.time, run.run.time, count, Column(before, RunTime));
    var rr, m2 := Accumulate(average.run.rate, moment2.run.rate, run.run.rate, count, Column(before, RunRate));
    var rp, n2 := Accumulate(average.run.period, moment2.run.period, run.run.period, count, Column(before, RunPeriod));
    average' := Result(PhaseResult(it, ir, ip), PhaseResult(rt, rr, rp));
    moment2' := Result(PhaseResult(i2, j2, k2), PhaseResult(l2, m2, n2));
  }

  /** What the standard deviation is taken from is never negative, and 0 exactly if all runs agree. */
  lemma Moment2IsNonNegative(values: seq<real>, average: real, moment2: real)
    requires Moments(values, average, moment2)
    ensures moment2 >= 0.0
    ensures moment2 == 0.0 <==> forall i :: 0 <= i < |values| ==> values[i] == values[0]
  {
    DeviationIsNonNegative(values, average);
    NoDeviationExactly(values, average);
    AllAreMean(values);
  }

  /** The order of the runs does not matter. */
  lemma MomentsPermute(one: seq<real>, two: seq<real>, m1: real, d1: real, m2: real, d2: real)
    requires multiset(one) == multiset(two) && Moments(one, m1, d1) && Moments(two, m2, d2)
    ensures m1 == m2 && d1 == d2
  {
    hide Deviation, Total;
    TotalsPermute(one, two);
    DeviationPermutes(one, two, m1);
  }
}
