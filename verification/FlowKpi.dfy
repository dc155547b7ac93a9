/** Two ways of computing the KPIs of one FlowMonitor document: lib/flowmonitor.js. */
module FlowKpi {
  import opened Permutations
  import opened Statistics

  // `parseFlowMonitor` is followed by the `ScenarioResult` accessors; `forwardKpi` takes a single
  // pass.  Attributes are taken as parsed numbers and addresses; arithmetic is exact.

  datatype ClassifierFlow = ClassifierFlow(flowId: int, srcAddr: string, dstAddr: string, protocol: int)

  datatype StatsFlow = StatsFlow(
    flowId: int,
    rxBytes: int,
    txPackets: int,
    rxPackets: int,
    lostPackets: int,
    delaySumNs: real,
    jitterSumNs: real,
    timeFirstTxNs: real,
    timeLastRxNs: real)

  datatype FlowInfo = FlowInfo(srcAddr: string, dstAddr: string, protocol: int)

  datatype FlowData = FlowData(stats: StatsFlow, info: FlowInfo, durationNs: real)

  datatype Kpi = Kpi(nflow: nat, goodput: real, delay: real, jitter: real, loss: real, jain: real)

  const NOBODY := FlowInfo("", "", 0)

  predicate IsForward(info: FlowInfo) {
    info.protocol == 6 && "10.1." <= info.srcAddr && "10.2." <= info.dstAddr
  }

  function InfoOf(c: ClassifierFlow): FlowInfo { FlowInfo(c.srcAddr, c.dstAddr, c.protocol) }

  // parseFlowMonitor.

  /** The flow ids of the classifier; a later entry replaces an earlier one. */
  function Infos(classifier: seq<ClassifierFlow>): map<int, FlowInfo> {
    if classifier == [] then map[]
    else
      var last := classifier[|classifier| - 1];
      Infos(classifier[..|classifier| - 1])[last.flowId := InfoOf(last)]
  }

  function Lookup(infos: map<int, FlowInfo>, id: int): FlowInfo { if id in infos then infos[id] else NOBODY }

  function Flow(infos: map<int, FlowInfo>, s: StatsFlow): FlowData {
    FlowData(s, Lookup(infos, s.flowId),
             if s.timeLastRxNs > s.timeFirstTxNs then s.timeLastRxNs - s.timeFirstTxNs else 0.0)
  }

  function Flows(infos: map<int, FlowInfo>, stats: seq<StatsFlow>): seq<FlowData> {
    if stats == [] then []
    else Flows(infos, stats[..|stats| - 1]) + [Flow(infos, stats[|stats| - 1])]
  }

  method ParseFlowMonitor(classifier: seq<ClassifierFlow>, stats: seq<StatsFlow>) returns (flows: seq<FlowData>)
    ensures flows == Flows(Infos(classifier), stats)
  {
    var infos := map[];
    for i := 0 to |classifier|
      invariant infos == Infos(classifier[..i])
    {
      assert classifier[..i + 1][..i] == classifier[..i];
      infos := infos[classifier[i].flowId := InfoOf(classifier[i])];
    }
    assert classifier[..|classifier|] == classifier;
    flows := [];
    for i := 0 to |stats|
      invariant flows == Flows(infos, stats[..i])
    {
      assert stats[..i + 1][..i] == stats[..i];
      flows := flows + [Flow(infos, stats[i])];
    }
    assert stats[..|stats|] == stats;
  }

  // The accessors.

  function ThroughputMbps(f: FlowData): real {
    if f.durationNs > 0.0 then f.stats.rxBytes as real * 8.0 / (f.durationNs / 1000000000.0) / 1000000.0 else 0.0
  }

  function AvgDelayMs(f: FlowData): real {
    if f.stats.rxPackets > 0 then f.stats.delaySumNs / f.stats.rxPackets as real / 1000000.0 else 0.0
  }

  function AvgJitterMs(f: FlowData): real {
    if f.stats.rxPackets > 1 then f.stats.jitterSumNs / (f.stats.rxPackets - 1) as real / 1000000.0 else 0.0
  }

  predicate Forward(f: FlowData) { IsForward(f.info) }

  predicate HasDelay(f: FlowData) { f.stats.rxPackets > 0 }

  predicate HasJitter(f: FlowData) { f.stats.rxPackets > 1 }

  function FirstTx(f: FlowData): real { f.stats.timeFirstTxNs }

  function LastRx(f: FlowData): real { f.stats.timeLastRxNs }

  function RxBytes(f: FlowData): real { f.stats.rxBytes as real }

  function TxPackets(f: FlowData): real { f.stats.txPackets as real }

  function LostPackets(f: FlowData): real { f.stats.lostPackets as real }

  function Map<A, B>(f: A -> B, s: seq<A>): (r: seq<B>)
    ensures |r| == |s|
  {
    if s == [] then [] else Map(f, s[..|s| - 1]) + [f(s[|s| - 1])]
  }

  function Filter<A>(p: A -> bool, s: seq<A>): seq<A> {
    if s == [] then []
    else Filter(p, s[..|s| - 1]) + if p(s[|s| - 1]) then [s[|s| - 1]] else []
  }

  function Least(s: seq<real>): real
    requires s != []
  {
    if |s| == 1 then s[0] else var m := Least(s[..|s| - 1]); if s[|s| - 1] < m then s[|s| - 1] else m
  }

  function Greatest(s: seq<real>): real
    requires s != []
  {
    if |s| == 1 then s[0] else var m := Greatest(s[..|s| - 1]); if s[|s| - 1] > m then s[|s| - 1] else m
  }

  function ForwardFlows(flows: seq<FlowData>): seq<FlowData> { Filter(Forward, flows) }

  function TotalThroughputMbps(forward: seq<FlowData>): real {
    if forward == [] then 0.0
    else
      var durationNs := Greatest(Map(LastRx, forward))
                        - Least(Map(FirstTx, forward));
      if durationNs <= 0.0 then 0.0
      else Total(Map(RxBytes, forward)) * 8.0 / (durationNs / 1000000000.0) / 1000000.0
  }

  function MeanOrZero(values: seq<real>): real { if values == [] then 0.0 else Mean(values) }

  function TotalLossRate(forward: seq<FlowData>): real {
    var txPackets := Total(Map(TxPackets, forward));
    var lostPackets := Total(Map(LostPackets, forward));
    if txPackets > 0.0 then lostPackets / txPackets * 100.0 else 0.0
  }

  /** The KPIs by way of the accessors of `ScenarioResult`. */
  function ScenarioKpi(flows: seq<FlowData>): Kpi {
    var forward := ForwardFlows(flows);
    Kpi(|forward|,
        TotalThroughputMbps(forward),
        MeanOrZero(Map(AvgDelayMs, Filter(HasDelay, forward))),
        MeanOrZero(Map(AvgJitterMs, Filter(HasJitter, forward))),
        TotalLossRate(forward),
        Jain(Map(ThroughputMbps, forward)))
  }

  // forwardKpi.

  /** The ids of which some classifier entry is a forward flow. */
  function ForwardIds(classifier: seq<ClassifierFlow>): set<int> {
    if classifier == [] then {}
    else
      var last := classifier[|classifier| - 1];
      ForwardIds(classifier[..|classifier| - 1]) + if IsForward(InfoOf(last)) then {last.flowId} else {}
  }

  /** The lists and totals of the pass. */
  datatype Running = Running(
    goodputs: seq<real>, delays: seq<real>, jitters: seq<real>, firstTx: seq<real>, lastRx: seq<real>,
    rxBytes: int, txPackets: int, lostPackets: int)

  function Add(r: Running, s: StatsFlow): Running {
    var durationS := (s.timeLastRxNs - s.timeFirstTxNs) / 1000000000.0;
    Running(
      r.goodputs + [if durationS > 0.0 then s.rxBytes as real * 8.0 / durationS / 1000000.0 else 0.0],
      r.delays + (if s.rxPackets > 0 then [s.delaySumNs / s.rxPackets as real / 1000000.0] else []),
      r.jitters + (if s.rxPackets > 1 then [s.jitterSumNs / (s.rxPackets - 1) as real / 1000000.0] else []),
      r.firstTx + [s.timeFirstTxNs], r.lastRx + [s.timeLastRxNs],
      r.rxBytes + s.rxBytes, r.txPackets + s.txPackets, r.lostPackets + s.lostPackets)
  }

  function RunningOver(ids: set<int>, stats: seq<StatsFlow>): Running {
    if stats == [] then Running([], [], [], [], [], 0, 0, 0)
    else
      var before, last := RunningOver(ids, stats[..|stats| - 1]), stats[|stats| - 1];
      if last.flowId in ids then Add(before, last) else before
  }

  /** What the pass returns at its end. */
  function Report(r: Running): Kpi {
    var nflow := |r.goodputs|;
    var squares := Squares(r.goodputs);
    var individualTotal := Total(r.goodputs);
    var jain :=
      if nflow > 0 && squares > 0.0 then individualTotal * individualTotal / (nflow as real * squares) else 0.0;
    var sharedDurationNs := if r.lastRx != [] && r.firstTx != [] then Greatest(r.lastRx) - Least(r.firstTx) else 0.0;
    var goodput :=
      if sharedDurationNs > 0.0 then r.rxBytes as real * 8.0 / (sharedDurationNs / 1000000000.0) / 1000000.0 else 0.0;
    Kpi(nflow, goodput, MeanOrZero(r.delays), MeanOrZero(r.jitters),
        if r.txPackets > 0 then 100.0 * r.lostPackets as real / r.txPackets as real else 0.0, jain)
  }

  method ForwardKpi(classifier: seq<ClassifierFlow>, stats: seq<StatsFlow>) returns (kpi: Kpi)
    ensures kpi == Report(RunningOver(ForwardIds(classifier), stats))
  {
    hide Report;
    var forwardIds: set<int> := {};
    for i := 0 to |classifier|
      invariant forwardIds == ForwardIds(classifier[..i])
    {
      assert classifier[..i + 1][..i] == classifier[..i];
      var c := classifier[i];
      if c.protocol != 6 {
        continue;
      }
      if "10.1." <= c.srcAddr && "10.2." <= c.dstAddr {
        forwardIds := forwardIds + {c.flowId};
      }
    }
    assert classifier[..|classifier|] == classifier;
    var r := Running([], [], [], [], [], 0, 0, 0);
    for i := 0 to |stats|
      invariant r == RunningOver(forwardIds, stats[..i])
    {
      assert stats[..i + 1][..i] == stats[..i];
      if stats[i].flowId !in forwardIds {
        continue;
      }
      r := Add(r, stats[i]);
    }
    assert stats[..|stats|] == stats;
    kpi := Report(r);
  }

  // When they agree.

  /** The lists of the pass are what the accessors take from the forward flows. */
  ghost predicate SameSamples(r: Running, forward: seq<FlowData>) {
    && r.goodputs == Map(ThroughputMbps, forward)
    && r.delays == Map(AvgDelayMs, Filter(HasDelay, forward))
    && r.jitters == Map(AvgJitterMs, Filter(HasJitter, forward))
    && r.firstTx == Map(FirstTx, forward) && r.lastRx == Map(LastRx, forward)
    && r.rxBytes as real == Total(Map(RxBytes, forward))
    && r.txPackets as real == Total(Map(TxPackets, forward))
    && r.lostPackets as real == Total(Map(LostPackets, forward))
  }

  lemma MapAppend<A, B>(f: A -> B, s: seq<A>, x: A)
    ensures Map(f, s + [x]) == Map(f, s) + [f(x)]
  {
    assert (s + [x])[..|s|] == s;
  }

  lemma FilterAppend<A>(p: A -> bool, s: seq<A>, x: A)
    ensures Filter(p, s + [x]) == if p(x) then Filter(p, s) + [x] else Filter(p, s)
  {
    assert (s + [x])[..|s|] == s;
    assert Filter(p, s) + [] == Filter(p, s);
  }

  lemma TotalAppend(s: seq<real>, x: real)
    ensures Total(s + [x]) == Total(s) + x
  {
    assert (s + [x])[..|s|] == s;
  }

  lemma DurationScales(last: real, first: real)
    ensures (last - first) / 1000000000.0 > 0.0 <==> last > first
  {
  }

  lemma AddSamples(r: Running, forward: seq<FlowData>, infos: map<int, FlowInfo>, s: StatsFlow)
    requires SameSamples(r, forward)
    ensures SameSamples(Add(r, s), forward + [Flow(infos, s)])
  {
    var f := Flow(infos, s);
    DurationScales(s.timeLastRxNs, s.timeFirstTxNs);
    MapAppend(ThroughputMbps, forward, f);
    MapAppend(FirstTx, forward, f);
    MapAppend(LastRx, forward, f);
    MapAppend(RxBytes, forward, f);
    MapAppend(TxPackets, forward, f);
    MapAppend(LostPackets, forward, f);
    FilterAppend(HasDelay, forward, f);
    FilterAppend(HasJitter, forward, f);
    MapAppend(AvgDelayMs, Filter(HasDelay, forward), f);
    MapAppend(AvgJitterMs, Filter(HasJitter, forward), f);
    TotalAppend(Map(RxBytes, forward), RxBytes(f));
    TotalAppend(Map(TxPackets, forward), TxPackets(f));
    TotalAppend(Map(LostPackets, forward), LostPackets(f));
    hide Map, Filter, Total;
  }

  /** The ids of these statistics are told apart alike by the id set and by the last classifier entries. */
  ghost predicate Matching(infos: map<int, FlowInfo>, ids: set<int>, stats: seq<StatsFlow>) {
    forall i :: 0 <= i < |stats| ==> (stats[i].flowId in ids <==> IsForward(Lookup(infos, stats[i].flowId)))
  }

  lemma {:induction false} SamplesAgree(infos: map<int, FlowInfo>, ids: set<int>, stats: seq<StatsFlow>)
    requires Matching(infos, ids, stats)
    ensures SameSamples(RunningOver(ids, stats), ForwardFlows(Flows(infos, stats)))
  {
    if stats == [] {
    } else {
      var front, last := stats[..|stats| - 1], stats[|stats| - 1];
      SamplesAgree(infos, ids, front);
      hide SameSamples, Add;
      FilterAppend(Forward, Flows(infos, front), Flow(infos, last));
      if last.flowId in ids {
        AddSamples(RunningOver(ids, front), ForwardFlows(Flows(infos, front)), infos, last);
      }
    }
  }

  lemma SameSamplesSameKpi(r: Running, flows: seq<FlowData>)
    requires SameSamples(r, ForwardFlows(flows))
    ensures Report(r) == ScenarioKpi(flows)
  {
    var forward := ForwardFlows(flows);
    SameSimple(r, forward);
    SameJainIndex(r, forward);
    SameLoss(r, forward);
    SameGoodput(r, forward);
    hide Map, Filter, Jain, TotalLossRate, TotalThroughputMbps, ForwardFlows, MeanOrZero, Report;
  }

  lemma SameSimple(r: Running, forward: seq<FlowData>)
    requires SameSamples(r, forward)
    ensures Report(r).nflow == |forward|
    ensures Report(r).delay == MeanOrZero(Map(AvgDelayMs, Filter(HasDelay, forward)))
    ensures Report(r).jitter == MeanOrZero(Map(AvgJitterMs, Filter(HasJitter, forward)))
  {
    hide Map, Filter, Total, Squares, Mean, Greatest, Least;
  }

  lemma SameJainIndex(r: Running, forward: seq<FlowData>)
    requires SameSamples(r, forward)
    ensures Report(r).jain == Jain(Map(ThroughputMbps, forward))
  {
    SameJain(r.goodputs);
    hide Map, Filter, Total, Squares, Mean, Greatest, Least, Jain;
  }

  lemma SameJain(goodputs: seq<real>)
    ensures Jain(goodputs)
         == if |goodputs| > 0 && Squares(goodputs) > 0.0
            then Total(goodputs) * Total(goodputs) / (|goodputs| as real * Squares(goodputs)) else 0.0
  {
    SquaresAreNonNegative(goodputs);
    hide Squares, Total;
    if goodputs != [] {
      ProductSign(|goodputs| as real, Squares(goodputs));
    }
  }

  lemma SameLoss(r: Running, forward: seq<FlowData>)
    requires SameSamples(r, forward)
    ensures TotalLossRate(forward) == Report(r).loss
  {
    hide Map, Filter, Total, Squares, Mean, Greatest, Least;
    if r.txPackets > 0 {
      Percentage(r.lostPackets as real, r.txPackets as real);
    }
  }

  lemma Percentage(lost: real, tx: real)
    requires tx != 0.0
    ensures lost / tx * 100.0 == 100.0 * lost / tx
  {
  }

  lemma SameGoodput(r: Running, forward: seq<FlowData>)
    requires SameSamples(r, forward)
    ensures TotalThroughputMbps(forward) == Report(r).goodput
  {
    hide Map, Filter, Total, Squares, Mean, Greatest, Least;
  }

  /** Every id that has a forward entry has one as its last entry. */
  ghost predicate Consistent(classifier: seq<ClassifierFlow>) {
    forall id :: id in ForwardIds(classifier) <==> IsForward(Lookup(Infos(classifier), id))
  }

  lemma {:induction false} LastForwardIsForward(classifier: seq<ClassifierFlow>, id: int)
    ensures IsForward(Lookup(Infos(classifier), id)) ==> id in ForwardIds(classifier)
  {
    if classifier != [] {
      LastForwardIsForward(classifier[..|classifier| - 1], id);
    }
  }

  /** Both ways give the KPIs of these statistics alike. */
  ghost predicate AgreeOn(classifier: seq<ClassifierFlow>, stats: seq<StatsFlow>) {
    Report(RunningOver(ForwardIds(classifier), stats)) == ScenarioKpi(Flows(Infos(classifier), stats))
  }

  /** The pass counts at least the forward flows, and no more exactly if the ids match. */
  lemma {:induction false} FlowsCounted(infos: map<int, FlowInfo>, ids: set<int>, stats: seq<StatsFlow>)
    requires forall id :: IsForward(Lookup(infos, id)) ==> id in ids
    ensures var n, m := |RunningOver(ids, stats).goodputs|, |ForwardFlows(Flows(infos, stats))|;
            n >= m && (n == m <==> Matching(infos, ids, stats))
  {
    if stats != [] {
      var front, last := stats[..|stats| - 1], stats[|stats| - 1];
      FlowsCounted(infos, ids, front);
      FilterAppend(Forward, Flows(infos, front), Flow(infos, last));
      MatchingLast(infos, ids, stats);
      hide IsForward, Lookup, Matching;
      assert Forward(Flow(infos, last)) <==> IsForward(Lookup(infos, last.flowId));
    }
    hide Filter;
  }

  lemma MatchingLast(infos: map<int, FlowInfo>, ids: set<int>, stats: seq<StatsFlow>)
    requires stats != []
    ensures var front, last := stats[..|stats| - 1], stats[|stats| - 1];
            Matching(infos, ids, stats)
            <==> Matching(infos, ids, front) && (last.flowId in ids <==> IsForward(Lookup(infos, last.flowId)))
  {
    hide IsForward, Lookup;
  }

  /** The two computations agree on a document exactly if each of its statistics has a forward classifier entry exactly
      when the last entry of its id is one. */
  lemma KpisAgreeExactly(classifier: seq<ClassifierFlow>, stats: seq<StatsFlow>)
    ensures AgreeOn(classifier, stats) <==> Matching(Infos(classifier), ForwardIds(classifier), stats)
  {
    var ids, infos := ForwardIds(classifier), Infos(classifier);
    forall id ensures IsForward(Lookup(infos, id)) ==> id in ids {
      LastForwardIsForward(classifier, id);
    }
    hide IsForward, Lookup, ForwardIds, Infos, RunningOver, Flows;
    FlowsCounted(infos, ids, stats);
    CountsAreReported(RunningOver(ids, stats), Flows(infos, stats));
    if Matching(infos, ids, stats) {
      SamplesAgree(infos, ids, stats);
      SameSamplesSameKpi(RunningOver(ids, stats), Flows(infos, stats));
    }
    hide Report, ScenarioKpi, ForwardFlows, Matching;
  }

  lemma CountsAreReported(r: Running, flows: seq<FlowData>)
    ensures Report(r).nflow == |r.goodputs| && ScenarioKpi(flows).nflow == |ForwardFlows(flows)|
  {
    hide Map, Filter, Total, Squares, Mean, Greatest, Least, Jain, ForwardFlows;
  }

  /** They agree on every list of statistics exactly if the classifier is consistent. */
  lemma KpisAlwaysAgreeExactly(classifier: seq<ClassifierFlow>)
    ensures (forall stats :: AgreeOn(classifier, stats)) <==> Consistent(classifier)
  {
    hide AgreeOn;
    if Consistent(classifier) {
      forall stats ensures AgreeOn(classifier, stats) {
        KpisAgreeExactly(classifier, stats);
      }
    } else {
      var id :| !(id in ForwardIds(classifier) <==> IsForward(Lookup(Infos(classifier), id)));
      var stats := [StatsFlow(id, 0, 0, 0, 0, 0.0, 0.0, 0.0, 0.0)];
      assert stats[0].flowId == id;
      KpisAgreeExactly(classifier, stats);
      assert !AgreeOn(classifier, stats);
    }
  }

  /** Distinct flow ids make a classifier consistent. */
  lemma {:induction false} DistinctIdsAreConsistent(classifier: seq<ClassifierFlow>)
    requires forall i, j :: 0 <= i < j < |classifier| ==> classifier[i].flowId != classifier[j].flowId
    ensures Consistent(classifier)
    ensures forall id :: id in Infos(classifier) ==> exists i :: 0 <= i < |classifier| && classifier[i].flowId == id
  {
    if classifier != [] {
      var front, last := classifier[..|classifier| - 1], classifier[|classifier| - 1];
      DistinctIdsAreConsistent(front);
      assert last.flowId !in Infos(front);
    }
  }

  /** A repeated id on which the two disagree. */
  lemma RepeatedIdsMayDiffer()
    ensures var a, b := ClassifierFlow(1, "10.1.0.1", "10.2.0.1", 6), ClassifierFlow(1, "10.2.0.1", "10.1.0.1", 6);
            var classifier := [a, b];
            !Consistent(classifier) && exists stats :: !AgreeOn(classifier, stats)
  {
    hide AgreeOn;
    var a, b := ClassifierFlow(1, "10.1.0.1", "10.2.0.1", 6), ClassifierFlow(1, "10.2.0.1", "10.1.0.1", 6);
    assert [a, b][..1] == [a] && [a][..0] == [];
    assert "10.1." <= a.srcAddr && "10.2." <= a.dstAddr;
    assert b.srcAddr[3] == '2';
    assert 1 in ForwardIds([a]);
    assert 1 in ForwardIds([a, b]) && !IsForward(Lookup(Infos([a, b]), 1));
    KpisAlwaysAgreeExactly([a, b]);
  }

  // What the KPIs are, each by itself.

  /** The mean of the values, which lies between the least and the greatest of them, or 0 if there are none. */
  ghost predicate IsMeanOf(m: real, values: seq<real>) {
    if values == [] then m == 0.0
    else m * |values| as real == Total(values) && Least(values) <= m <= Greatest(values)
  }

  lemma {:induction false} LeastIsLeast(values: seq<real>)
    requires values != []
    ensures Least(values) in values && forall i :: 0 <= i < |values| ==> Least(values) <= values[i]
  {
    if |values| > 1 {
      var front := values[..|values| - 1];
      LeastIsLeast(front);
      assert forall i :: 0 <= i < |front| ==> values[i] == front[i];
    }
  }

  lemma {:induction false} GreatestIsGreatest(values: seq<real>)
    requires values != []
    ensures Greatest(values) in values && forall i :: 0 <= i < |values| ==> values[i] <= Greatest(values)
  {
    if |values| > 1 {
      var front := values[..|values| - 1];
      GreatestIsGreatest(front);
      assert forall i :: 0 <= i < |front| ==> values[i] == front[i];
    }
  }

  lemma {:induction false} TotalIsBetween(values: seq<real>, lo: real, hi: real)
    requires forall i :: 0 <= i < |values| ==> lo <= values[i] <= hi
    ensures Product(|values| as real, lo) <= Total(values) <= Product(|values| as real, hi)
  {
    if values != [] {
      var front := values[..|values| - 1];
      assert forall i :: 0 <= i < |front| ==> values[i] == front[i];
      TotalIsBetween(front, lo, hi);
      assert |values| as real == |front| as real + 1.0;
      OneMore(|front| as real, lo);
      OneMore(|front| as real, hi);
    } else {
      ZeroProduct(|values| as real, lo);
      ZeroProduct(|values| as real, hi);
    }
    hide Product;
  }

  lemma OneMore(n: real, x: real)
    ensures Product(n + 1.0, x) == Product(n, x) + x
  {
  }

  lemma LessTimes(n: real, a: real, b: real)
    requires n > 0.0 && a < b
    ensures Product(n, a) < Product(n, b)
  {
    PositiveProduct(n, b - a);
    assert Product(n, b - a) == Product(n, b) - Product(n, a);
  }

  lemma DivideBoth(n: real, lo: real, m: real, hi: real)
    requires n > 0.0 && Product(n, lo) <= Product(n, m) <= Product(n, hi)
    ensures lo <= m <= hi
  {
    hide Product;
    if m < lo {
      LessTimes(n, m, lo);
    }
    if hi < m {
      LessTimes(n, hi, m);
    }
  }

  lemma QuotientTimes(t: real, n: real)
    requires n > 0.0
    ensures Product(n, t / n) == t && t / n * n == t
  {
    MeanTimes(t, n);
  }

  lemma MeanIsMean(values: seq<real>)
    ensures IsMeanOf(MeanOrZero(values), values)
  {
    if values != [] {
      LeastIsLeast(values);
      GreatestIsGreatest(values);
      MeanIsBetween(values, Least(values), Greatest(values));
    }
    hide Total, Least, Greatest, Mean;
  }

  lemma MeanIsBetween(values: seq<real>, lo: real, hi: real)
    requires values != [] && forall i :: 0 <= i < |values| ==> lo <= values[i] <= hi
    ensures Mean(values) * |values| as real == Total(values) && lo <= Mean(values) <= hi
  {
    hide Product, Total;
    TotalIsBetween(values, lo, hi);
    QuotientTimes(Total(values), |values| as real);
    DivideBoth(|values| as real, lo, Mean(values), hi);
  }

  /** The rate in Mbps that carries the bytes in the given nanoseconds, or 0. */
  ghost predicate IsRate(rate: real, bytes: real, ns: real) {
    if ns > 0.0 then rate * ns == bytes * 8000.0 else rate == 0.0
  }

  lemma RateIsRate(bytes: real, ns: real)
    requires ns > 0.0
    ensures IsRate(bytes * 8.0 / (ns / 1000000000.0) / 1000000.0, bytes, ns)
  {
    var s := ns / 1000000000.0;
    var q := bytes * 8.0 / s;
    MeanTimes(bytes * 8.0, s);
    assert q * ns == q * s * 1000000000.0;
    assert q / 1000000.0 * ns == q * ns / 1000000.0;
  }

  /** The percentage of packets lost, or 0. */
  ghost predicate IsLoss(loss: real, lost: real, tx: real) {
    if tx > 0.0 then loss * tx == 100.0 * lost else loss == 0.0
  }

  lemma LossIsLoss(lost: real, tx: real)
    requires tx > 0.0
    ensures IsLoss(lost / tx * 100.0, lost, tx) && IsLoss(100.0 * lost / tx, lost, tx)
  {
    Percentage(lost, tx);
    MeanTimes(100.0 * lost, tx);
  }

  ghost function Span(firstTx: seq<real>, lastRx: seq<real>): real {
    if firstTx == [] || lastRx == [] then 0.0 else Greatest(lastRx) - Least(firstTx)
  }

  /** The figures of the accessors, from the forward flows: rate over the common span, means over the receiving flows,
      loss over all packets. */
  lemma ScenarioKpiExactly(flows: seq<FlowData>)
    ensures var k, forward := ScenarioKpi(flows), ForwardFlows(flows);
            && k.nflow == |forward|
            && IsRate(k.goodput, Total(Map(RxBytes, forward)), Span(Map(FirstTx, forward), Map(LastRx, forward)))
            && IsMeanOf(k.delay, Map(AvgDelayMs, Filter(HasDelay, forward)))
            && IsMeanOf(k.jitter, Map(AvgJitterMs, Filter(HasJitter, forward)))
            && IsLoss(k.loss, Total(Map(LostPackets, forward)), Total(Map(TxPackets, forward)))
  {
    var forward := ForwardFlows(flows);
    MeanIsMean(Map(AvgDelayMs, Filter(HasDelay, forward)));
    MeanIsMean(Map(AvgJitterMs, Filter(HasJitter, forward)));
    AccessorsExactly(forward);
    hide Map, Filter, Total, Greatest, Least, Jain, TotalLossRate, TotalThroughputMbps, ForwardFlows, MeanOrZero;
    hide IsRate, IsMeanOf, IsLoss, Span;
  }

  lemma AccessorsExactly(forward: seq<FlowData>)
    ensures IsRate(TotalThroughputMbps(forward), Total(Map(RxBytes, forward)),
                   Span(Map(FirstTx, forward), Map(LastRx, forward)))
    ensures IsLoss(TotalLossRate(forward), Total(Map(LostPackets, forward)), Total(Map(TxPackets, forward)))
  {
    var bytes, ns := Total(Map(RxBytes, forward)), Span(Map(FirstTx, forward), Map(LastRx, forward));
    if ns > 0.0 {
      RateIsRate(bytes, ns);
    }
    if Total(Map(TxPackets, forward)) > 0.0 {
      LossIsLoss(Total(Map(LostPackets, forward)), Total(Map(TxPackets, forward)));
    }
    assert forward == [] <==> |Map(FirstTx, forward)| == 0;
    assert forward == [] <==> |Map(LastRx, forward)| == 0;
    hide Map, Total, Greatest, Least;
  }

  /** The figures of the single pass, from its lists and totals. */
  lemma ReportExactly(r: Running)
    ensures var k := Report(r);
            && k.nflow == |r.goodputs|
            && IsRate(k.goodput, r.rxBytes as real, Span(r.firstTx, r.lastRx))
            && IsMeanOf(k.delay, r.delays) && IsMeanOf(k.jitter, r.jitters)
            && IsLoss(k.loss, r.lostPackets as real, r.txPackets as real)
  {
    MeanIsMean(r.delays);
    MeanIsMean(r.jitters);
    var ns := Span(r.firstTx, r.lastRx);
    if ns > 0.0 {
      RateIsRate(r.rxBytes as real, ns);
    }
    if r.txPackets > 0 {
      LossIsLoss(r.lostPackets as real, r.txPackets as real);
    }
    hide Total, Squares, Greatest, Least, MeanOrZero, IsMeanOf;
  }

  /** The mean in ms of a sum of `n` times in ns. */
  ghost predicate IsMsMean(ms: real, sumNs: real, n: int) { ms * n as real * 1000000.0 == sumNs }

  lemma MsMean(sumNs: real, n: int)
    requires n > 0
    ensures IsMsMean(sumNs / n as real / 1000000.0, sumNs, n)
  {
    MeanTimes(sumNs, n as real);
  }

  /** What one statistics entry adds to the pass. */
  lemma AddExactly(r: Running, s: StatsFlow)
    ensures var a, ns := Add(r, s), s.timeLastRxNs - s.timeFirstTxNs;
            && |a.goodputs| == |r.goodputs| + 1 && a.goodputs[..|r.goodputs|] == r.goodputs
            && IsRate(a.goodputs[|r.goodputs|], s.rxBytes as real, ns)
            && a.firstTx == r.firstTx + [s.timeFirstTxNs] && a.lastRx == r.lastRx + [s.timeLastRxNs]
            && a.rxBytes == r.rxBytes + s.rxBytes && a.txPackets == r.txPackets + s.txPackets
            && a.lostPackets == r.lostPackets + s.lostPackets
            && (s.rxPackets > 0 ==> exists ms :: a.delays == r.delays + [ms] && IsMsMean(ms, s.delaySumNs, s.rxPackets))
            && (s.rxPackets <= 0 ==> a.delays == r.delays)
            && (s.rxPackets > 1 ==>
                  exists ms :: a.jitters == r.jitters + [ms] && IsMsMean(ms, s.jitterSumNs, s.rxPackets - 1))
            && (s.rxPackets <= 1 ==> a.jitters == r.jitters)
  {
    var ns := s.timeLastRxNs - s.timeFirstTxNs;
    DurationScales(s.timeLastRxNs, s.timeFirstTxNs);
    if ns > 0.0 {
      RateIsRate(s.rxBytes as real, ns);
    }
    if s.rxPackets > 0 {
      MsMean(s.delaySumNs, s.rxPackets);
    }
    if s.rxPackets > 1 {
      MsMean(s.jitterSumNs, s.rxPackets - 1);
    }
    hide IsRate, IsMsMean;
  }

  /** The pass takes the entries in turn, those whose id is a forward one. */
  lemma RunningInTurn(ids: set<int>, stats: seq<StatsFlow>, s: StatsFlow)
    ensures RunningOver(ids, []) == Running([], [], [], [], [], 0, 0, 0)
    ensures RunningOver(ids, stats + [s])
            == if s.flowId in ids then Add(RunningOver(ids, stats), s) else RunningOver(ids, stats)
  {
    assert (stats + [s])[..|stats|] == stats;
    hide Add;
  }

  /** A flow's own figures. */
  lemma FlowExactly(f: FlowData)
    ensures IsRate(ThroughputMbps(f), f.stats.rxBytes as real, f.durationNs)
    ensures HasDelay(f) ==> f.stats.rxPackets > 0 && IsMsMean(AvgDelayMs(f), f.stats.delaySumNs, f.stats.rxPackets)
    ensures HasJitter(f) ==>
              f.stats.rxPackets > 1 && IsMsMean(AvgJitterMs(f), f.stats.jitterSumNs, f.stats.rxPackets - 1)
  {
    if f.durationNs > 0.0 {
      RateIsRate(f.stats.rxBytes as real, f.durationNs);
    }
    if f.stats.rxPackets > 0 {
      MsMean(f.stats.delaySumNs, f.stats.rxPackets);
    }
    if f.stats.rxPackets > 1 {
      MsMean(f.stats.jitterSumNs, f.stats.rxPackets - 1);
    }
    hide IsMsMean;
  }

  /** Forward flows go by TCP from 10.1.x.x to 10.2.x.x. */
  lemma ForwardExactly(info: FlowInfo)
    ensures IsForward(info)
       <==> && info.protocol == 6
            && |info.srcAddr| >= 5 && info.srcAddr[..5] == "10.1."
            && |info.dstAddr| >= 5 && info.dstAddr[..5] == "10.2."
  {
  }

  /** The last classifier entry of an id, if it has one. */
  ghost predicate IsLastEntry(classifier: seq<ClassifierFlow>, i: int) {
    0 <= i < |classifier| && forall j :: i < j < |classifier| ==> classifier[j].flowId != classifier[i].flowId
  }

  /** One flow for every statistics entry, with its last classifier entry or none, and the time it was seen for. */
  lemma {:induction false} FlowsExactly(infos: map<int, FlowInfo>, stats: seq<StatsFlow>)
    ensures |Flows(infos, stats)| == |stats|
    ensures forall i :: 0 <= i < |stats| ==>
              var f, s := Flows(infos, stats)[i], stats[i];
              && f.stats == s && f.info == Lookup(infos, s.flowId)
              && f.durationNs == if s.timeLastRxNs > s.timeFirstTxNs then s.timeLastRxNs - s.timeFirstTxNs else 0.0
  {
    if stats != [] {
      FlowsExactly(infos, stats[..|stats| - 1]);
    }
  }

  /** The last entry of an id is the one that counts. */
  lemma {:induction false} LastEntryCounts(classifier: seq<ClassifierFlow>, i: nat)
    requires IsLastEntry(classifier, i)
    ensures Lookup(Infos(classifier), classifier[i].flowId) == InfoOf(classifier[i])
  {
    var n := |classifier| - 1;
    if i < n {
      assert classifier[..n][i] == classifier[i];
      LastEntryCounts(classifier[..n], i);
      assert classifier[n].flowId != classifier[i].flowId;
    }
  }

  lemma {:induction false} UnknownId(classifier: seq<ClassifierFlow>, id: int)
    requires forall i :: 0 <= i < |classifier| ==> classifier[i].flowId != id
    ensures Lookup(Infos(classifier), id) == NOBODY
  {
    if classifier != [] {
      UnknownId(classifier[..|classifier| - 1], id);
    }
  }

  /** An id is a forward one exactly if some entry of it is forward. */
  lemma {:induction false} ForwardIdsExactly(classifier: seq<ClassifierFlow>, id: int)
    ensures id in ForwardIds(classifier)
       <==> exists c :: c in classifier && c.flowId == id && IsForward(InfoOf(c))
  {
    hide IsForward;
    if classifier != [] {
      var front, last := classifier[..|classifier| - 1], classifier[|classifier| - 1];
      ForwardIdsExactly(front, id);
      assert classifier == front + [last];
      assert forall c :: c in classifier <==> c in front || c == last;
    }
  }

  /** Every flow that passes a test is kept, in order. */
  lemma {:induction false} FilterExactly<A>(p: A -> bool, s: seq<A>) returns (at: seq<nat>)
    ensures Positions(at, set i: nat | i < |s| && p(s[i])) && forall k :: 0 <= k < |at| ==> at[k] < |s|
    ensures |Filter(p, s)| == |at| && forall k :: 0 <= k < |at| ==> Filter(p, s)[k] == s[at[k]]
  {
    at := [];
    if s != [] {
      var n := |s| - 1;
      var front := s[..n];
      at := FilterExactly(p, front);
      var before := set i: nat | i < n && p(front[i]);
      if p(s[n]) {
        assert (set i: nat | i < |s| && p(s[i])) == before + {n};
        NextPosition(at, before, n);
        at := at + [n];
      } else {
        assert (set i: nat | i < |s| && p(s[i])) == before;
      }
    }
  }

  lemma {:induction false} MapExactly<A, B>(f: A -> B, s: seq<A>)
    ensures forall i :: 0 <= i < |s| ==> Map(f, s)[i] == f(s[i])
  {
    if s != [] {
      MapExactly(f, s[..|s| - 1]);
    }
  }
}
