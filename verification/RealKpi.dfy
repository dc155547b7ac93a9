/** Which native runs `buildRealKpi` of main.js accepts, and what it reports about the others.

    A first pass accepts a run or reports why not.  A second one excludes, for each setting, scenario
    and seed, the groups that lack a protocol; a third one carries the exclusion over to the other
    settings.  What is left is sorted and written out.

    A key of the source, four names joined by NUL, is a record here.  The files that exist on disk are
    an input, with the flows that `parseFlowMonitor` finds in them.
 */
module RealKpi {
  import opened JsText
  import opened Permutations
  import Statistics
  import FlowKpi

  const N_LEAF: nat := 3

  /** A scenario of the catalogue: bottleneck rate in Mbps, one-way propagation delay in ms. */
  datatype Scenario = Scenario(name: Text, bottleneck: real, baseOwdMs: real)

  datatype Catalogue = Catalogue(settings: seq<Text>, scenarios: seq<Scenario>, protocols: seq<Text>, seeds: seq<int>)

  datatype Run = Run(setting: Text, scenario: Scenario, protocol: Text, seed: int)

  datatype Group = Group(setting: Text, scenario: Scenario, seed: int)

  /** A FlowMonitor file on disk, malformed or with its flows. */
  datatype File = Malformed | Document(flows: seq<FlowKpi.FlowData>)

  /** The files that exist. */
  type Files = map<Run, File>

  datatype Reason =
    FlowCount | ThroughputNotPositive | ThroughputAboveBottleneck | DelayNotPositive | DelayBelowBound | LossOutside
    | FairnessOutside

  datatype Anomaly =
    | Historical
    | MissingRun(run: Run)
    | MalformedRun(run: Run)
    | RejectedRun(run: Run, reasons: seq<Reason>)
    | IncompleteGroup(group: Group, missing: seq<Text>)

  // One run.

  function FlowReasons(kpi: FlowKpi.Kpi): seq<Reason> { if kpi.nflow != N_LEAF then [FlowCount] else [] }

  function ThroughputReasons(scenario: Scenario, kpi: FlowKpi.Kpi): seq<Reason> {
    if kpi.goodput <= 0.0 then [ThroughputNotPositive]
    else if kpi.goodput > scenario.bottleneck * 1.001 then [ThroughputAboveBottleneck] else []
  }

  function DelayReasons(scenario: Scenario, kpi: FlowKpi.Kpi): seq<Reason> {
    if kpi.delay <= 0.0 then [DelayNotPositive]
    else if kpi.delay < scenario.baseOwdMs * 0.999 then [DelayBelowBound] else []
  }

  function LossReasons(kpi: FlowKpi.Kpi): seq<Reason> {
    if kpi.loss < 0.0 || kpi.loss > 100.0 then [LossOutside] else []
  }

  function FairnessReasons(kpi: FlowKpi.Kpi): seq<Reason> {
    if kpi.jain < 0.0 || kpi.jain > 1.0 then [FairnessOutside] else []
  }

  function Reasons(scenario: Scenario, kpi: FlowKpi.Kpi): seq<Reason> {
    FlowReasons(kpi) + ThroughputReasons(scenario, kpi) + DelayReasons(scenario, kpi) + LossReasons(kpi)
    + FairnessReasons(kpi)
  }

  predicate WithinBudget(scenario: Scenario, kpi: FlowKpi.Kpi) {
    kpi.nflow == N_LEAF && 0.0 < kpi.goodput <= scenario.bottleneck * 1.001
    && 0.0 < kpi.delay && scenario.baseOwdMs * 0.999 <= kpi.delay && 0.0 <= kpi.loss <= 100.0
  }

  /** A document is accepted exactly if it is within the link budget; the fairness test rejects none. */
  lemma FairnessRejectsNone(scenario: Scenario, flows: seq<FlowKpi.FlowData>)
    ensures var kpi := FlowKpi.ScenarioKpi(flows);
            FairnessOutside !in Reasons(scenario, kpi)
            && (Reasons(scenario, kpi) == [] <==> WithinBudget(scenario, kpi))
  {
    hide Statistics.Jain, Reasons, WithinBudget;
    FlowKpiIsFair(flows);
    FairIsJudged(scenario, FlowKpi.ScenarioKpi(flows));
    hide FlowKpi.ScenarioKpi;
  }

  lemma FlowKpiIsFair(flows: seq<FlowKpi.FlowData>)
    ensures 0.0 <= FlowKpi.ScenarioKpi(flows).jain <= 1.0
  {
    Statistics.JainIsFair(FlowKpi.Map(FlowKpi.ThroughputMbps, FlowKpi.ForwardFlows(flows)));
    hide Statistics.Jain, FlowKpi.Map, FlowKpi.ForwardFlows, FlowKpi.TotalThroughputMbps, FlowKpi.MeanOrZero,
      FlowKpi.TotalLossRate;
  }

  lemma FairIsJudged(scenario: Scenario, kpi: FlowKpi.Kpi)
    requires 0.0 <= kpi.jain <= 1.0
    ensures FairnessOutside !in Reasons(scenario, kpi)
    ensures Reasons(scenario, kpi) == [] <==> WithinBudget(scenario, kpi)
  {
    assert FairnessReasons(kpi) == [];
  }

  /** Which reasons are given. */
  lemma ReasonsExactly(scenario: Scenario, kpi: FlowKpi.Kpi, reason: Reason)
    ensures reason in Reasons(scenario, kpi)
       <==> match reason
            case FlowCount => kpi.nflow != 3
            case ThroughputNotPositive => kpi.goodput <= 0.0
            case ThroughputAboveBottleneck => kpi.goodput > 0.0 && kpi.goodput > scenario.bottleneck * 1.001
            case DelayNotPositive => kpi.delay <= 0.0
            case DelayBelowBound => kpi.delay > 0.0 && kpi.delay < scenario.baseOwdMs * 0.999
            case LossOutside => !(0.0 <= kpi.loss <= 100.0)
            case FairnessOutside => !(0.0 <= kpi.jain <= 1.0)
  {
    assert forall r :: r in Reasons(scenario, kpi)
                  <==> r in FlowReasons(kpi) || r in ThroughputReasons(scenario, kpi)
                       || r in DelayReasons(scenario, kpi) || r in LossReasons(kpi) || r in FairnessReasons(kpi);
  }

  predicate Accepted(files: Files, run: Run) {
    run in files && files[run].Document? && Reasons(run.scenario, FlowKpi.ScenarioKpi(files[run].flows)) == []
  }

  /** What is reported about one run. */
  function Report(files: Files, run: Run): seq<Anomaly> {
    if run !in files then [MissingRun(run)]
    else if files[run].Malformed? then [MalformedRun(run)]
    else
      var reasons := Reasons(run.scenario, FlowKpi.ScenarioKpi(files[run].flows));
      if reasons == [] then [] else [RejectedRun(run, reasons)]
  }

  /** What is reported about a run: that its file is missing, or malformed, or outside the budget, with the reasons. */
  lemma ReportExactly(files: Files, run: Run, a: Anomaly)
    ensures a in Report(files, run)
       <==> || (a == MissingRun(run) && run !in files)
            || (a == MalformedRun(run) && run in files && files[run].Malformed?)
            || (a.RejectedRun? && a.run == run && run in files && files[run].Document?
                && a.reasons == Reasons(run.scenario, FlowKpi.ScenarioKpi(files[run].flows)) && a.reasons != [])
    ensures Accepted(files, run)
       <==> run in files && files[run].Document? && WithinBudget(run.scenario, FlowKpi.ScenarioKpi(files[run].flows))
  {
    if run in files && files[run].Document? {
      FairnessRejectsNone(run.scenario, files[run].flows);
    }
    hide FlowKpi.ScenarioKpi, Reasons, WithinBudget;
  }

  // The runs and groups a catalogue expects, in the order of the loops.

  /** `f` of every element, one list after the other: what nested loops visit. */
  function Flat<A, B>(s: seq<A>, f: A -> seq<B>): seq<B> {
    if s == [] then [] else Flat(s[..|s| - 1], f) + f(s[|s| - 1])
  }

  function AtSeed(setting: Text, scenario: Scenario, protocol: Text): int -> seq<Run> {
    seed => [Run(setting, scenario, protocol, seed)]
  }

  function AtProtocol(c: Catalogue, setting: Text, scenario: Scenario): Text -> seq<Run> {
    protocol => Flat(c.seeds, AtSeed(setting, scenario, protocol))
  }

  function AtScenario(c: Catalogue, setting: Text): Scenario -> seq<Run> {
    scenario => Flat(c.protocols, AtProtocol(c, setting, scenario))
  }

  function AtSetting(c: Catalogue): Text -> seq<Run> {
    setting => Flat(c.scenarios, AtScenario(c, setting))
  }

  function Expected(c: Catalogue): seq<Run> { Flat(c.settings, AtSetting(c)) }

  function GroupAtSeed(setting: Text, scenario: Scenario): int -> seq<Group> {
    seed => [Group(setting, scenario, seed)]
  }

  function GroupAtScenario(c: Catalogue, setting: Text): Scenario -> seq<Group> {
    scenario => Flat(c.seeds, GroupAtSeed(setting, scenario))
  }

  function GroupAtSetting(c: Catalogue): Text -> seq<Group> {
    setting => Flat(c.scenarios, GroupAtScenario(c, setting))
  }

  function Groups(c: Catalogue): seq<Group> { Flat(c.settings, GroupAtSetting(c)) }

  predicate IsExpected(c: Catalogue, run: Run) {
    run.setting in c.settings && run.scenario in c.scenarios && run.protocol in c.protocols && run.seed in c.seeds
  }

  lemma InitAndLast<T>(s: seq<T>, x: T)
    requires s != []
    ensures s == s[..|s| - 1] + [s[|s| - 1]]
    ensures x in s <==> x == s[|s| - 1] || x in s[..|s| - 1]
  {
  }

  lemma {:induction false} FlatMembers<A, B>(s: seq<A>, f: A -> seq<B>, x: B)
    ensures x in Flat(s, f) <==> exists a :: a in s && x in f(a)
  {
    if s != [] {
      FlatMembers(s[..|s| - 1], f, x);
      assert s == s[..|s| - 1] + [s[|s| - 1]];
    }
  }

  lemma FlatAppend<A, B>(s: seq<A>, a: A, f: A -> seq<B>)
    ensures Flat(s + [a], f) == Flat(s, f) + f(a)
  {
    assert (s + [a])[..|s|] == s;
  }

  /** When only `pick` leads to `x`, and to one `x` if at all. */
  lemma {:induction false} CountFlat<A, B>(s: seq<A>, f: A -> seq<B>, x: B, pick: A, found: bool)
    requires forall a :: a in s ==> Count(f(a), x) == if a == pick && found then 1 else 0
    ensures Count(Flat(s, f), x) == if found then Count(s, pick) else 0
  {
    hide Count;
    if s == [] {
      CountMember<A>([], pick);
      CountMember<B>([], x);
    } else {
      var init, last := s[..|s| - 1], s[|s| - 1];
      InitAndLast(s, last);
      CountFlat(init, f, x, pick, found);
      CountConcat(Flat(init, f), f(last), x);
      CountAppend(init, last, pick);
    }
  }

  predicate WellFormed(c: Catalogue) {
    Distinct(c.settings) && Distinct(c.scenarios) && Distinct(c.protocols) && Distinct(c.seeds)
    && forall s, t :: s in c.scenarios && t in c.scenarios && s.name == t.name ==> s == t
  }

  /** The loops visit every expected run once, and no other. */
  lemma EachExpectedOnce(c: Catalogue, run: Run)
    requires WellFormed(c)
    ensures Count(Expected(c), run) == if IsExpected(c, run) then 1 else 0
    ensures run in Expected(c) <==> IsExpected(c, run)
  {
    hide Flat, Distinct;
    CountDistinct(c.seeds, run.seed);
    CountDistinct(c.protocols, run.protocol);
    CountDistinct(c.scenarios, run.scenario);
    CountDistinct(c.settings, run.setting);
    forall s, x, p
      ensures Count(AtProtocol(c, s, x)(p), run)
              == if p == run.protocol && s == run.setting && x == run.scenario && run.seed in c.seeds then 1 else 0
    {
      CountFlat(c.seeds, AtSeed(s, x, p), run, run.seed, p == run.protocol && s == run.setting && x == run.scenario);
    }
    var seeded := run.seed in c.seeds;
    forall s, x
      ensures Count(AtScenario(c, s)(x), run)
              == if x == run.scenario && s == run.setting && seeded && run.protocol in c.protocols then 1 else 0
    {
      CountFlat(c.protocols, AtProtocol(c, s, x), run, run.protocol, s == run.setting && x == run.scenario && seeded);
    }
    var below := seeded && run.protocol in c.protocols;
    forall s
      ensures Count(AtSetting(c)(s), run)
              == if s == run.setting && below && run.scenario in c.scenarios then 1 else 0
    {
      CountFlat(c.scenarios, AtScenario(c, s), run, run.scenario, s == run.setting && below);
    }
    CountFlat(c.settings, AtSetting(c), run, run.setting, below && run.scenario in c.scenarios);
    CountMember(Expected(c), run);
  }

  lemma FlatPrecedes<A, B>(s: seq<A>, f: A -> seq<B>, a: A, b: A, x: B, y: B)
    requires Precedes(s, a, b) && x in f(a) && y in f(b)
    ensures Precedes(Flat(s, f), x, y)
  {
    var i, j :| 0 <= i < j < |s| && s[i] == a && s[j] == b;
    var m := FlatAt(s, f, i, x);
    var n := FlatAt(s, f, j, y);
    FlatGrows(s, f, i + 1, j);
    hide Flat;
  }

  lemma FlatPrecedesInside<A, B>(s: seq<A>, f: A -> seq<B>, a: A, x: B, y: B)
    requires a in s && Precedes(f(a), x, y)
    ensures Precedes(Flat(s, f), x, y)
  {
    var i :| 0 <= i < |s| && s[i] == a;
    var m, n :| 0 <= m < n < |f(a)| && f(a)[m] == x && f(a)[n] == y;
    FlatSegment(s, f, i, m);
    FlatSegment(s, f, i, n);
    hide Flat;
  }

  /** The part of element `i` begins behind those of the elements before it. */
  lemma {:induction false} FlatSegment<A, B>(s: seq<A>, f: A -> seq<B>, i: nat, m: nat)
    requires i < |s| && m < |f(s[i])|
    ensures |Flat(s[..i], f)| + m < |Flat(s[..i + 1], f)| <= |Flat(s, f)|
    ensures Flat(s, f)[|Flat(s[..i], f)| + m] == f(s[i])[m]
  {
    var front := s[..|s| - 1];
    if i < |s| - 1 {
      FlatSegment(front, f, i, m);
      assert front[..i] == s[..i] && front[..i + 1] == s[..i + 1];
    } else {
      assert s[..i] == front && s[..i + 1] == s;
    }
  }

  lemma FlatAt<A, B>(s: seq<A>, f: A -> seq<B>, i: nat, x: B) returns (m: nat)
    requires i < |s| && x in f(s[i])
    ensures |Flat(s[..i], f)| <= m < |Flat(s[..i + 1], f)| <= |Flat(s, f)| && Flat(s, f)[m] == x
  {
    var k :| 0 <= k < |f(s[i])| && f(s[i])[k] == x;
    FlatSegment(s, f, i, k);
    m := |Flat(s[..i], f)| + k;
    hide Flat;
  }

  lemma {:induction false} FlatGrows<A, B>(s: seq<A>, f: A -> seq<B>, i: nat, j: nat)
    requires i <= j <= |s|
    ensures |Flat(s[..i], f)| <= |Flat(s[..j], f)|
  {
    if i < j {
      FlatGrows(s, f, i, j - 1);
      assert s[..j][..j - 1] == s[..j - 1];
    }
  }

  /** The runs are visited setting by setting, in each scenario by scenario, in each protocol by protocol, in each seed
      by seed, and always in the order of the catalogue. */
  lemma ExpectedOrder(c: Catalogue, a: Run, b: Run)
    requires IsExpected(c, a) && IsExpected(c, b)
    requires || Precedes(c.settings, a.setting, b.setting)
             || (a.setting == b.setting && Precedes(c.scenarios, a.scenario, b.scenario))
             || (a.setting == b.setting && a.scenario == b.scenario && Precedes(c.protocols, a.protocol, b.protocol))
             || (a.setting == b.setting && a.scenario == b.scenario && a.protocol == b.protocol
                 && Precedes(c.seeds, a.seed, b.seed))
    ensures Precedes(Expected(c), a, b)
  {
    hide Flat, Precedes;
    Nested(c, a);
    Nested(c, b);
    var s, x, p := a.setting, a.scenario, a.protocol;
    if Precedes(c.settings, s, b.setting) {
      FlatPrecedes(c.settings, AtSetting(c), s, b.setting, a, b);
    } else {
      if Precedes(c.scenarios, x, b.scenario) {
        FlatPrecedes(c.scenarios, AtScenario(c, s), x, b.scenario, a, b);
      } else {
        if Precedes(c.protocols, p, b.protocol) {
          FlatPrecedes(c.protocols, AtProtocol(c, s, x), p, b.protocol, a, b);
        } else {
          FlatPrecedes(c.seeds, AtSeed(s, x, p), a.seed, b.seed, a, b);
          FlatPrecedesInside(c.protocols, AtProtocol(c, s, x), p, a, b);
        }
        FlatPrecedesInside(c.scenarios, AtScenario(c, s), x, a, b);
      }
      FlatPrecedesInside(c.settings, AtSetting(c), s, a, b);
    }
  }

  lemma Nested(c: Catalogue, run: Run)
    requires IsExpected(c, run)
    ensures run in AtSeed(run.setting, run.scenario, run.protocol)(run.seed)
    ensures run in AtProtocol(c, run.setting, run.scenario)(run.protocol)
    ensures run in AtScenario(c, run.setting)(run.scenario)
    ensures run in AtSetting(c)(run.setting)
  {
    hide Flat;
    FlatMembers(c.seeds, AtSeed(run.setting, run.scenario, run.protocol), run);
    FlatMembers(c.protocols, AtProtocol(c, run.setting, run.scenario), run);
    FlatMembers(c.scenarios, AtScenario(c, run.setting), run);
  }

  lemma GroupMembers(c: Catalogue, g: Group)
    requires g.setting in c.settings && g.scenario in c.scenarios && g.seed in c.seeds
    ensures g in Groups(c)
  {
    hide Flat;
    assert g in GroupAtSeed(g.setting, g.scenario)(g.seed);
    FlatMembers(c.seeds, GroupAtSeed(g.setting, g.scenario), g);
    assert g in GroupAtScenario(c, g.setting)(g.scenario);
    FlatMembers(c.scenarios, GroupAtScenario(c, g.setting), g);
    assert g in GroupAtSetting(c)(g.setting);
    FlatMembers(c.settings, GroupAtSetting(c), g);
  }

  /** At the head of a loop nothing has been visited, and each pass visits what lies below one element. */
  lemma Visited<A, B>(base: seq<B>, s: seq<A>, f: A -> seq<B>)
    ensures base + Flat(s[..0], f) == base
    ensures forall i :: 0 <= i < |s| ==> base + Flat(s[..i], f) + f(s[i]) == base + Flat(s[..i + 1], f)
    ensures base + Flat(s[..|s|], f) == base + Flat(s, f)
  {
    assert Flat(s[..0], f) == [];
    hide Flat;
    forall i | 0 <= i < |s| ensures base + Flat(s[..i], f) + f(s[i]) == base + Flat(s[..i + 1], f) {
      VisitedOne(base, s, f, i);
    }
    assert s[..|s|] == s;
  }

  lemma VisitedOne<A, B>(base: seq<B>, s: seq<A>, f: A -> seq<B>, i: nat)
    requires i < |s|
    ensures base + Flat(s[..i], f) + f(s[i]) == base + Flat(s[..i + 1], f)
  {
    assert s[..i + 1] == s[..i] + [s[i]];
    FlatAppend(s[..i], s[i], f);
    hide Flat;
  }

  // The first pass.

  function IfAccepted(files: Files): Run -> seq<Run> { run => if Accepted(files, run) then [run] else [] }

  /** Accepted runs in the order of acceptance: the keys of `valid`. */
  function AcceptedOf(files: Files, runs: seq<Run>): seq<Run> { Flat(runs, IfAccepted(files)) }

  function Reporting(files: Files): Run -> seq<Anomaly> { run => Report(files, run) }

  function ReportsOf(files: Files, runs: seq<Run>): seq<Anomaly> { Flat(runs, Reporting(files)) }

  ghost predicate Checked(files: Files, done: seq<Run>, valid: seq<Run>, anomalies: seq<Anomaly>) {
    valid == AcceptedOf(files, done) && anomalies == [Historical] + ReportsOf(files, done)
  }

  lemma CheckedOne(files: Files, done: seq<Run>, valid: seq<Run>, anomalies: seq<Anomaly>, run: Run)
    requires Checked(files, done, valid, anomalies)
    ensures Checked(files, done + [run], if Accepted(files, run) then valid + [run] else valid,
                    if Report(files, run) == [] then anomalies else anomalies + Report(files, run))
  {
    hide Accepted, Report, Flat;
    FlatAppend(done, run, IfAccepted(files));
    FlatAppend(done, run, Reporting(files));
  }

  method CheckRuns(c: Catalogue, files: Files) returns (valid: seq<Run>, anomalies: seq<Anomaly>)
    ensures valid == AcceptedOf(files, Expected(c))
    ensures anomalies == [Historical] + ReportsOf(files, Expected(c))
  {
    hide FlowKpi.ScenarioKpi, Reasons, Checked, Flat;
    valid := [];
    anomalies := [Historical];
    ghost var done: seq<Run> := [];
    AllChecked(files, done, valid, anomalies);
    Visited(done, c.settings, AtSetting(c));
    for i := 0 to |c.settings|
      invariant done == [] + Flat(c.settings[..i], AtSetting(c))
      invariant Checked(files, done, valid, anomalies)
    {
      var setting := c.settings[i];
      ghost var atSetting := done;
      Visited(atSetting, c.scenarios, AtScenario(c, setting));
      for j := 0 to |c.scenarios|
        invariant done == atSetting + Flat(c.scenarios[..j], AtScenario(c, setting))
        invariant Checked(files, done, valid, anomalies)
      {
        var scenario := c.scenarios[j];
        ghost var atScenario := done;
        Visited(atScenario, c.protocols, AtProtocol(c, setting, scenario));
        for k := 0 to |c.protocols|
          invariant done == atScenario + Flat(c.protocols[..k], AtProtocol(c, setting, scenario))
          invariant Checked(files, done, valid, anomalies)
        {
          var protocol := c.protocols[k];
          ghost var atProtocol := done;
          Visited(atProtocol, c.seeds, AtSeed(setting, scenario, protocol));
          for l := 0 to |c.seeds|
            invariant done == atProtocol + Flat(c.seeds[..l], AtSeed(setting, scenario, protocol))
            invariant Checked(files, done, valid, anomalies)
          {
            var run := Run(setting, scenario, protocol, c.seeds[l]);
            CheckedOne(files, done, valid, anomalies, run);
            done := done + [run];
            if run !in files {
              anomalies := anomalies + [MissingRun(run)];
              continue;
            }
            if files[run].Malformed? {
              anomalies := anomalies + [MalformedRun(run)];
              continue;
            }
            var reasons := CollectReasons(scenario, FlowKpi.ScenarioKpi(files[run].flows));
            if |reasons| > 0 {
              anomalies := anomalies + [RejectedRun(run, reasons)];
              continue;
            }
            valid := valid + [run];
          }
        }
      }
    }
    assert [] + Flat(c.settings, AtSetting(c)) == Expected(c);
    AllChecked(files, done, valid, anomalies);
  }

  lemma AllChecked(files: Files, done: seq<Run>, valid: seq<Run>, anomalies: seq<Anomaly>)
    ensures Checked(files, done, valid, anomalies)
       <==> valid == AcceptedOf(files, done) && anomalies == [Historical] + ReportsOf(files, done)
    ensures Checked(files, [], [], [Historical])
  {
  }

  method CollectReasons(scenario: Scenario, kpi: FlowKpi.Kpi) returns (reasons: seq<Reason>)
    ensures reasons == Reasons(scenario, kpi)
  {
    reasons := [];
    if kpi.nflow != N_LEAF {
      reasons := reasons + [FlowCount];
    }
    assert reasons == FlowReasons(kpi);
    ghost var before := reasons;
    if kpi.goodput <= 0.0 {
      reasons := reasons + [ThroughputNotPositive];
    } else if kpi.goodput > scenario.bottleneck * 1.001 {
      reasons := reasons + [ThroughputAboveBottleneck];
    }
    assert reasons == before + ThroughputReasons(scenario, kpi);
    before := reasons;
    if kpi.delay <= 0.0 {
      reasons := reasons + [DelayNotPositive];
    } else if kpi.delay < scenario.baseOwdMs * 0.999 {
      reasons := reasons + [DelayBelowBound];
    }
    assert reasons == before + DelayReasons(scenario, kpi);
    before := reasons;
    if kpi.loss < 0.0 || kpi.loss > 100.0 {
      reasons := reasons + [LossOutside];
    }
    assert reasons == before + LossReasons(kpi);
    before := reasons;
    if kpi.jain < 0.0 || kpi.jain > 1.0 {
      reasons := reasons + [FairnessOutside];
    }
    assert reasons == before + FairnessReasons(kpi);
  }

  ghost predicate IsReportOn(a: Anomaly, run: Run) { !a.Historical? && !a.IncompleteGroup? && a.run == run }

  lemma ReportIsOnRun(files: Files, run: Run)
    ensures Accepted(files, run) <==> Report(files, run) == []
    ensures forall a :: a in Report(files, run) ==> IsReportOn(a, run) && Report(files, run) == [a]
    ensures forall a :: Count(Report(files, run), a) == if a in Report(files, run) then 1 else 0
  {
    hide FlowKpi.ScenarioKpi, Reasons;
    forall a ensures Count(Report(files, run), a) == if a in Report(files, run) then 1 else 0 {
      CountMember(Report(files, run), a);
      CountAll(Report(files, run), a);
    }
    hide Count;
  }

  /** After the first pass an expected run is either among the accepted, once, or reported, once. */
  lemma OneOutcome(c: Catalogue, files: Files, run: Run)
    requires WellFormed(c) && IsExpected(c, run)
    ensures Count(AcceptedOf(files, Expected(c)), run) == if Accepted(files, run) then 1 else 0
    ensures var reports := ReportsOf(files, Expected(c));
            if Accepted(files, run) then forall a :: a in reports ==> !IsReportOn(a, run)
            else exists a :: IsReportOn(a, run) && Count(reports, a) == 1
                             && forall b :: b in reports && IsReportOn(b, run) ==> b == a
  {
    hide Accepted, Report, Flat, Count, IsExpected, Expected, WellFormed;
    EachExpectedOnce(c, run);
    CountAccepted(files, Expected(c), run);
    forall a | a in ReportsOf(files, Expected(c)) && IsReportOn(a, run) ensures a in Report(files, run) {
      FlatMembers(Expected(c), Reporting(files), a);
      var one :| one in Expected(c) && a in Reporting(files)(one);
      ReportIsOnRun(files, one);
    }
    ReportIsOnRun(files, run);
    if !Accepted(files, run) {
      CountReport(files, Expected(c), run, Report(files, run)[0]);
    }
  }

  lemma CountAccepted(files: Files, runs: seq<Run>, run: Run)
    ensures Count(AcceptedOf(files, runs), run) == if Accepted(files, run) then Count(runs, run) else 0
    ensures run in AcceptedOf(files, runs) <==> run in runs && Accepted(files, run)
  {
    hide Accepted, Flat;
    CountFlat(runs, IfAccepted(files), run, run, Accepted(files, run));
    CountMember(runs, run);
    CountMember(AcceptedOf(files, runs), run);
  }

  lemma CountReport(files: Files, runs: seq<Run>, run: Run, a: Anomaly)
    requires a in Report(files, run)
    ensures Count(ReportsOf(files, runs), a) == Count(runs, run)
  {
    hide Report, Flat, Count;
    ReportIsOnRun(files, run);
    forall one ensures Count(Reporting(files)(one), a) == if one == run then 1 else 0 {
      ReportIsOnRun(files, one);
    }
    CountFlat(runs, Reporting(files), a, run, true);
  }

  // Groups.

  function IfMissing(g: Group, valid: seq<Run>): Text -> seq<Text> {
    protocol => if Run(g.setting, g.scenario, protocol, g.seed) in valid then [] else [protocol]
  }

  /** The protocols without an accepted run in the group. */
  function MissingOf(g: Group, protocols: seq<Text>, valid: seq<Run>): seq<Text> {
    Flat(protocols, IfMissing(g, valid))
  }

  predicate Incomplete(g: Group, protocols: seq<Text>, valid: seq<Run>) { MissingOf(g, protocols, valid) != [] }

  function IfIncomplete(protocols: seq<Text>, valid: seq<Run>): Group -> seq<Anomaly> {
    g => if Incomplete(g, protocols, valid) then [IncompleteGroup(g, MissingOf(g, protocols, valid))] else []
  }

  function GroupReports(groups: seq<Group>, protocols: seq<Text>, valid: seq<Run>): seq<Anomaly> {
    Flat(groups, IfIncomplete(protocols, valid))
  }

  function Excluded(groups: seq<Group>, protocols: seq<Text>, valid: seq<Run>): set<Group> {
    set g | g in groups && Incomplete(g, protocols, valid)
  }

  ghost predicate Grouped(c: Catalogue, valid: seq<Run>, done: seq<Group>, excluded: set<Group>, first: seq<Anomaly>,
                          anomalies: seq<Anomaly>) {
    excluded == Excluded(done, c.protocols, valid) && anomalies == first + GroupReports(done, c.protocols, valid)
  }

  method ExcludeGroups(c: Catalogue, valid: seq<Run>, first: seq<Anomaly>)
    returns (excluded: set<Group>, anomalies: seq<Anomaly>)
    ensures excluded == Excluded(Groups(c), c.protocols, valid)
    ensures anomalies == first + GroupReports(Groups(c), c.protocols, valid)
  {
    hide Grouped, Flat, MissingOf;
    excluded := {};
    anomalies := first;
    ghost var done: seq<Group> := [];
    AllGrouped(c, valid, done, excluded, first, anomalies);
    Visited(done, c.settings, GroupAtSetting(c));
    for i := 0 to |c.settings|
      invariant done == [] + Flat(c.settings[..i], GroupAtSetting(c))
      invariant Grouped(c, valid, done, excluded, first, anomalies)
    {
      var setting := c.settings[i];
      ghost var atSetting := done;
      Visited(atSetting, c.scenarios, GroupAtScenario(c, setting));
      for j := 0 to |c.scenarios|
        invariant done == atSetting + Flat(c.scenarios[..j], GroupAtScenario(c, setting))
        invariant Grouped(c, valid, done, excluded, first, anomalies)
      {
        var scenario := c.scenarios[j];
        ghost var atScenario := done;
        Visited(atScenario, c.seeds, GroupAtSeed(setting, scenario));
        for k := 0 to |c.seeds|
          invariant done == atScenario + Flat(c.seeds[..k], GroupAtSeed(setting, scenario))
          invariant Grouped(c, valid, done, excluded, first, anomalies)
        {
          var group := Group(setting, scenario, c.seeds[k]);
          GroupedOne(c, valid, done, excluded, first, anomalies, group);
          done := done + [group];
          var missing := MissingOf(group, c.protocols, valid);
          if |missing| == 0 {
            continue;
          }
          excluded := excluded + {group};
          anomalies := anomalies + [IncompleteGroup(group, missing)];
        }
      }
    }
    assert [] + Flat(c.settings, GroupAtSetting(c)) == Groups(c);
    AllGrouped(c, valid, done, excluded, first, anomalies);
  }

  lemma GroupedOne(c: Catalogue, valid: seq<Run>, done: seq<Group>, excluded: set<Group>, first: seq<Anomaly>,
                   anomalies: seq<Anomaly>, g: Group)
    requires Grouped(c, valid, done, excluded, first, anomalies)
    ensures var missing := MissingOf(g, c.protocols, valid);
            if missing == [] then Grouped(c, valid, done + [g], excluded, first, anomalies)
            else Grouped(c, valid, done + [g], excluded + {g}, first, anomalies + [IncompleteGroup(g, missing)])
  {
    hide MissingOf, Flat;
    FlatAppend(done, g, IfIncomplete(c.protocols, valid));
  }

  lemma AllGrouped(c: Catalogue, valid: seq<Run>, done: seq<Group>, excluded: set<Group>, first: seq<Anomaly>,
                   anomalies: seq<Anomaly>)
    ensures Grouped(c, valid, done, excluded, first, anomalies)
       <==> excluded == Excluded(done, c.protocols, valid)
            && anomalies == first + GroupReports(done, c.protocols, valid)
    ensures Grouped(c, valid, [], {}, first, first)
  {
  }

  /** A group is reported exactly if it is expected and lacks a protocol, with exactly the protocols it lacks. */
  lemma GroupReported(groups: seq<Group>, protocols: seq<Text>, valid: seq<Run>, a: Anomaly)
    ensures a in GroupReports(groups, protocols, valid)
       <==> a.IncompleteGroup? && a.group in groups && a.missing == MissingOf(a.group, protocols, valid)
            && a.missing != []
    ensures a.IncompleteGroup? && a in GroupReports(groups, protocols, valid) ==>
              forall p :: p in a.missing
                     <==> p in protocols && Run(a.group.setting, a.group.scenario, p, a.group.seed) !in valid
  {
    hide Flat;
    FlatMembers(groups, IfIncomplete(protocols, valid), a);
    if a.IncompleteGroup? {
      assert a.group in groups && a.missing == MissingOf(a.group, protocols, valid) && a.missing != [] ==>
          a in IfIncomplete(protocols, valid)(a.group);
      forall p
        ensures p in MissingOf(a.group, protocols, valid)
           <==> p in protocols && Run(a.group.setting, a.group.scenario, p, a.group.seed) !in valid
      {
        MissingMembers(a.group, protocols, valid, p);
      }
    }
  }

  lemma MissingMembers(g: Group, protocols: seq<Text>, valid: seq<Run>, p: Text)
    ensures p in MissingOf(g, protocols, valid) <==> p in protocols && Run(g.setting, g.scenario, p, g.seed) !in valid
  {
    hide Flat;
    FlatMembers(protocols, IfMissing(g, valid), p);
    assert Run(g.setting, g.scenario, p, g.seed) !in valid ==> p in IfMissing(g, valid)(p);
  }

  // Exclusion in the other settings.

  predicate AnyExcluded(settings: seq<Text>, excluded: set<Group>, scenario: Scenario, seed: int) {
    exists s :: s in settings && Group(s, scenario, seed) in excluded
  }

  /** Every setting's group of the excluded pairs among `done` is excluded. */
  ghost predicate Widened(settings: seq<Text>, first: set<Group>, done: set<(Scenario, int)>, excluded: set<Group>) {
    forall g :: g in excluded
            <==> g in first || (g.setting in settings && (g.scenario, g.seed) in done
                                && AnyExcluded(settings, first, g.scenario, g.seed))
  }

  lemma WidenOne(settings: seq<Text>, first: set<Group>, done: set<(Scenario, int)>, excluded: set<Group>,
                 scenario: Scenario, seed: int)
    requires Widened(settings, first, done, excluded)
    ensures AnyExcluded(settings, excluded, scenario, seed) == AnyExcluded(settings, first, scenario, seed)
    ensures Widened(settings, first, done + {(scenario, seed)},
                    if AnyExcluded(settings, excluded, scenario, seed)
                    then excluded + (set s | s in settings :: Group(s, scenario, seed)) else excluded)
  {
  }

  method WidenExclusions(c: Catalogue, first: set<Group>) returns (excluded: set<Group>)
    ensures Widened(c.settings, first, set s, n | s in c.scenarios && n in c.seeds :: (s, n), excluded)
  {
    hide Widened, AnyExcluded;
    excluded := first;
    ghost var done: set<(Scenario, int)> := {};
    NothingWidened(c.settings, first);
    for j := 0 to |c.scenarios|
      invariant done == set s, n | s in c.scenarios[..j] && n in c.seeds :: (s, n)
      invariant Widened(c.settings, first, done, excluded)
    {
      var scenario := c.scenarios[j];
      ghost var before := done;
      for k := 0 to |c.seeds|
        invariant done == before + set n | n in c.seeds[..k] :: (scenario, n)
        invariant Widened(c.settings, first, done, excluded)
      {
        var seed := c.seeds[k];
        WidenOne(c.settings, first, done, excluded, scenario, seed);
        assert c.seeds[..k + 1] == c.seeds[..k] + [seed];
        done := done + {(scenario, seed)};
        if !AnyExcluded(c.settings, excluded, scenario, seed) {
          continue;
        }
        excluded := ExcludeEverywhere(c.settings, excluded, scenario, seed);
      }
      assert c.seeds[..|c.seeds|] == c.seeds && c.scenarios[..j + 1] == c.scenarios[..j] + [scenario];
    }
    assert c.scenarios[..|c.scenarios|] == c.scenarios;
  }

  method ExcludeEverywhere(settings: seq<Text>, was: set<Group>, scenario: Scenario, seed: int)
    returns (excluded: set<Group>)
    ensures excluded == was + set s | s in settings :: Group(s, scenario, seed)
  {
    excluded := was;
    for i := 0 to |settings|
      invariant excluded == was + set s | s in settings[..i] :: Group(s, scenario, seed)
    {
      assert settings[..i + 1] == settings[..i] + [settings[i]];
      excluded := excluded + {Group(settings[i], scenario, seed)};
    }
    assert settings[..|settings|] == settings;
  }

  lemma NothingWidened(settings: seq<Text>, first: set<Group>)
    ensures Widened(settings, first, {}, first)
  {
  }

  // The clean entries.

  /** The sort's comparator: by setting, scenario name, protocol, seed. */
  predicate Before(a: Run, b: Run) {
    if a.setting != b.setting then Less(a.setting, b.setting)
    else if a.scenario.name != b.scenario.name then Less(a.scenario.name, b.scenario.name)
    else if a.protocol != b.protocol then Less(a.protocol, b.protocol)
    else a.seed < b.seed
  }

  function Insert(sorted: seq<Run>, run: Run): seq<Run> {
    if sorted == [] || Before(run, sorted[0]) then [run] + sorted else [sorted[0]] + Insert(sorted[1..], run)
  }

  function Sort(runs: seq<Run>): seq<Run> {
    if runs == [] then [] else Insert(Sort(runs[..|runs| - 1]), runs[|runs| - 1])
  }

  function Clean(runs: seq<Run>, excluded: set<Group>): seq<Run> {
    if runs == [] then []
    else (if Group(runs[0].setting, runs[0].scenario, runs[0].seed) in excluded then [] else [runs[0]])
         + Clean(runs[1..], excluded)
  }

  ghost predicate Ascending(runs: seq<Run>) {
    forall i, j :: 0 <= i < j < |runs| ==> Before(runs[i], runs[j])
  }

  ghost predicate NamesKnown(runs: seq<Run>) {
    forall a, b :: a in runs && b in runs && a.scenario.name == b.scenario.name ==> a.scenario == b.scenario
  }

  /** Entries ascend by setting, within a setting by scenario name, within that by protocol, within that by seed. */
  lemma AscendingExactly(entries: seq<Run>, i: nat, j: nat)
    requires Ascending(entries) && i < j < |entries|
    ensures var a, b := entries[i], entries[j];
            && !Less(b.setting, a.setting)
            && (a.setting == b.setting ==> !Less(b.scenario.name, a.scenario.name))
            && (a.setting == b.setting && a.scenario.name == b.scenario.name ==> !Less(b.protocol, a.protocol))
            && (a.setting == b.setting && a.scenario.name == b.scenario.name && a.protocol == b.protocol ==>
                  a.seed < b.seed)
  {
    var a, b := entries[i], entries[j];
    assert Before(a, b);
    LessIsTotal(a.setting, b.setting);
    LessIsTotal(a.scenario.name, b.scenario.name);
    LessIsTotal(a.protocol, b.protocol);
    hide Less, Ascending;
  }

  lemma BeforeIsTotal(a: Run, b: Run)
    requires a.scenario.name == b.scenario.name ==> a.scenario == b.scenario
    ensures a == b || Before(a, b) || Before(b, a)
  {
    LessIsTotal(a.setting, b.setting);
    LessIsTotal(a.scenario.name, b.scenario.name);
    LessIsTotal(a.protocol, b.protocol);
    hide Less;
  }

  lemma BeforeIsTransitive(a: Run, b: Run, c: Run)
    requires Before(a, b) && Before(b, c)
    ensures Before(a, c)
  {
    hide Less;
    LessBothWays(a.setting, b.setting, c.setting);
    LessBothWays(a.scenario.name, b.scenario.name, c.scenario.name);
    LessBothWays(a.protocol, b.protocol, c.protocol);
  }

  lemma LessBothWays(a: Text, b: Text, c: Text)
    ensures Less(a, b) && Less(b, c) ==> Less(a, c) && a != c
  {
    if Less(a, b) && Less(b, c) {
      LessIsTransitive(a, b, c);
      LessIsTotal(a, b);
      LessIsTotal(a, c);
    }
    hide Less;
  }

  lemma {:induction false} InsertMembers(sorted: seq<Run>, run: Run, x: Run)
    ensures x in Insert(sorted, run) <==> x == run || x in sorted
  {
    if sorted != [] && !Before(run, sorted[0]) {
      InsertMembers(sorted[1..], run, x);
      assert x in sorted <==> x == sorted[0] || x in sorted[1..];
    }
    hide Before;
  }

  lemma PrependAscends(x: Run, rest: seq<Run>)
    requires Ascending(rest) && forall y :: y in rest ==> Before(x, y)
    ensures Ascending([x] + rest)
  {
    hide Before;
  }

  lemma AscendingTail(runs: seq<Run>, y: Run)
    requires Ascending(runs) && runs != []
    ensures Ascending(runs[1..]) && (y in runs[1..] ==> Before(runs[0], y))
  {
    hide Before;
  }

  lemma {:induction false} InsertAscends(sorted: seq<Run>, run: Run)
    requires Ascending(sorted) && run !in sorted && NamesKnown(sorted + [run])
    ensures Ascending(Insert(sorted, run))
  {
    hide Before, Ascending;
    if sorted == [] {
      PrependAscends(run, sorted);
    } else if Before(run, sorted[0]) {
      forall y | y in sorted ensures Before(run, y) {
        AscendingTail(sorted, y);
        if y != sorted[0] {
          BeforeIsTransitive(run, sorted[0], y);
        }
      }
      PrependAscends(run, sorted);
    } else {
      assert sorted[0] in sorted + [run] && run in sorted + [run];
      BeforeIsTotal(run, sorted[0]);
      AscendingTail(sorted, run);
      assert forall y :: y in sorted[1..] + [run] ==> y in sorted + [run];
      InsertAscends(sorted[1..], run);
      forall y | y in Insert(sorted[1..], run) ensures Before(sorted[0], y) {
        InsertMembers(sorted[1..], run, y);
        AscendingTail(sorted, y);
      }
      PrependAscends(sorted[0], Insert(sorted[1..], run));
    }
  }

  lemma {:induction false} SortSorts(runs: seq<Run>)
    requires NamesKnown(runs) && Distinct(runs)
    ensures Ascending(Sort(runs))
    ensures forall x :: x in Sort(runs) <==> x in runs
  {
    hide Ascending, Insert;
    if runs == [] {
      NothingAscends();
    } else {
      var init, last := runs[..|runs| - 1], runs[|runs| - 1];
      assert runs == init + [last];
      assert NamesKnown(init);
      SortSorts(init);
      var sorted := Sort(init);
      assert forall x :: x in sorted + [last] ==> x in runs;
      InsertAscends(sorted, last);
      forall x ensures x in Sort(runs) <==> x in runs {
        InsertMembers(sorted, last, x);
      }
    }
  }

  lemma NothingAscends()
    ensures Ascending([])
  {
  }

  lemma {:induction false} CleanKeeps(runs: seq<Run>, excluded: set<Group>)
    requires Ascending(runs)
    ensures Ascending(Clean(runs, excluded))
    ensures forall x :: x in Clean(runs, excluded) <==> x in runs && Group(x.setting, x.scenario, x.seed) !in excluded
  {
    hide Ascending, Before;
    if runs == [] {
      NothingAscends();
    } else {
      AscendingTail(runs, runs[0]);
      CleanKeeps(runs[1..], excluded);
      var rest := Clean(runs[1..], excluded);
      forall y | y in rest ensures Before(runs[0], y) {
        AscendingTail(runs, y);
      }
      PrependAscends(runs[0], rest);
      assert Clean(runs, excluded) == rest || Clean(runs, excluded) == [runs[0]] + rest;
      assert forall x :: x in runs <==> x == runs[0] || x in runs[1..];
    }
  }

  lemma {:induction false} CountedOnce(runs: seq<Run>)
    requires forall x :: Count(runs, x) <= 1
    ensures Distinct(runs)
  {
    if runs != [] {
      var init, last := runs[..|runs| - 1], runs[|runs| - 1];
      assert runs == init + [last];
      forall x ensures Count(init, x) <= 1 && (x == last ==> Count(init, x) == 0) {
        CountAppend(init, last, x);
        assert Count(runs, x) <= 1;
      }
      CountedOnce(init);
      CountMember(init, last);
      assert forall i :: 0 <= i < |init| ==> runs[i] == init[i] && init[i] in init;
    }
    hide Count;
  }

  /** The accepted runs as a list: distinct, and with known names. */
  lemma AcceptedAreSortable(c: Catalogue, files: Files)
    requires WellFormed(c)
    ensures var valid := AcceptedOf(files, Expected(c)); Distinct(valid) && NamesKnown(valid)
    ensures forall run :: run in AcceptedOf(files, Expected(c)) <==> IsExpected(c, run) && Accepted(files, run)
  {
    hide Accepted, Expected, Distinct, Count, AcceptedOf;
    forall run
      ensures Count(AcceptedOf(files, Expected(c)), run) <= 1
      ensures run in AcceptedOf(files, Expected(c)) <==> IsExpected(c, run) && Accepted(files, run)
    {
      EachExpectedOnce(c, run);
      CountAccepted(files, Expected(c), run);
    }
    CountedOnce(AcceptedOf(files, Expected(c)));
  }

  /** A run is kept if every protocol in every setting was accepted for its scenario and seed. */
  ghost predicate Kept(c: Catalogue, files: Files, run: Run) {
    IsExpected(c, run)
    && forall s, p :: s in c.settings && p in c.protocols ==> Accepted(files, Run(s, run.scenario, p, run.seed))
  }

  lemma IncompleteExactly(c: Catalogue, files: Files, valid: seq<Run>, g: Group)
    requires forall run :: run in valid <==> IsExpected(c, run) && Accepted(files, run)
    requires g.setting in c.settings && g.scenario in c.scenarios && g.seed in c.seeds
    ensures Incomplete(g, c.protocols, valid)
       <==> exists p :: p in c.protocols && !Accepted(files, Run(g.setting, g.scenario, p, g.seed))
  {
    hide Accepted, MissingOf;
    if Incomplete(g, c.protocols, valid) {
      var p := MissingOf(g, c.protocols, valid)[0];
      MissingMembers(g, c.protocols, valid, p);
      assert !Accepted(files, Run(g.setting, g.scenario, p, g.seed));
    }
    if p :| p in c.protocols && !Accepted(files, Run(g.setting, g.scenario, p, g.seed)) {
      MissingMembers(g, c.protocols, valid, p);
    }
  }

  /** A run survives exclusion exactly if it is kept. */
  lemma SurvivesExactly(c: Catalogue, files: Files, valid: seq<Run>, excluded: set<Group>, run: Run)
    requires forall r :: r in valid <==> IsExpected(c, r) && Accepted(files, r)
    requires Widened(c.settings, Excluded(Groups(c), c.protocols, valid),
                     set s, n | s in c.scenarios && n in c.seeds :: (s, n), excluded)
    ensures run in valid && Group(run.setting, run.scenario, run.seed) !in excluded <==> Kept(c, files, run)
  {
    hide Accepted, Incomplete, Groups;
    var first := Excluded(Groups(c), c.protocols, valid);
    if IsExpected(c, run) {
      forall s | s in c.settings
        ensures Group(s, run.scenario, run.seed) in first
           <==> exists p :: p in c.protocols && !Accepted(files, Run(s, run.scenario, p, run.seed))
      {
        ExcludedAtFirst(c, files, valid, Group(s, run.scenario, run.seed));
      }
      assert (run.scenario, run.seed) in set s, n | s in c.scenarios && n in c.seeds :: (s, n);
      hide Excluded;
    }
  }

  lemma ExcludedAtFirst(c: Catalogue, files: Files, valid: seq<Run>, g: Group)
    requires forall r :: r in valid <==> IsExpected(c, r) && Accepted(files, r)
    requires g.setting in c.settings && g.scenario in c.scenarios && g.seed in c.seeds
    ensures g in Excluded(Groups(c), c.protocols, valid)
       <==> exists p :: p in c.protocols && !Accepted(files, Run(g.setting, g.scenario, p, g.seed))
  {
    hide Accepted, Incomplete;
    IncompleteExactly(c, files, valid, g);
    GroupMembers(c, g);
    hide Groups;
  }

  method BuildRealKpi(c: Catalogue, files: Files) returns (entries: seq<Run>, anomalies: seq<Anomaly>)
    requires WellFormed(c)
    ensures Ascending(entries)
    ensures forall run :: run in entries <==> Kept(c, files, run)
    ensures anomalies == [Historical] + ReportsOf(files, Expected(c))
                         + GroupReports(Groups(c), c.protocols, AcceptedOf(files, Expected(c)))
  {
    hide *;
    var valid, first := CheckRuns(c, files);
    var excluded;
    excluded, anomalies := ExcludeGroups(c, valid, first);
    excluded := WidenExclusions(c, excluded);
    AcceptedAreSortable(c, files);
    SortSorts(valid);
    CleanKeeps(Sort(valid), excluded);
    forall run
      ensures run in valid && Group(run.setting, run.scenario, run.seed) !in excluded <==> Kept(c, files, run)
    {
      SurvivesExactly(c, files, valid, excluded, run);
    }
    entries := Clean(Sort(valid), excluded);
  }

  /** For each scenario and seed, either every setting and protocol is in `runs` or none is. */
  ghost predicate Balanced(c: Catalogue, runs: set<Run>) {
    forall run, s, p :: run in runs && s in c.settings && p in c.protocols ==> Run(s, run.scenario, p, run.seed) in runs
  }

  /** The kept runs are the largest balanced set of accepted ones. */
  lemma KeptIsLargestBalanced(c: Catalogue, files: Files, kept: set<Run>, other: set<Run>)
    requires forall run :: run in kept <==> Kept(c, files, run)
    requires Balanced(c, other) && forall run :: run in other ==> IsExpected(c, run) && Accepted(files, run)
    ensures Balanced(c, kept) && (forall run :: run in kept ==> IsExpected(c, run) && Accepted(files, run))
    ensures other <= kept
  {
    hide Accepted;
    forall run | run in other ensures Kept(c, files, run) {
      forall s, p | s in c.settings && p in c.protocols ensures Accepted(files, Run(s, run.scenario, p, run.seed)) {
        assert Run(s, run.scenario, p, run.seed) in other;
      }
    }
    forall run | run in kept ensures IsExpected(c, run) && Accepted(files, run) {
      assert Run(run.setting, run.scenario, run.protocol, run.seed) == run;
    }
  }
}
