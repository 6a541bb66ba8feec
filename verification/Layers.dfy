/**
 The layers under one health verdict: content canary, DNS and throughput counters, and the roll-up
 that names the first failing layer (`src/net/canary.rs`, `health_loop` in `src/core/balancer.rs`).
 */
module Layers {
  import opened Basics
  import opened Selection
  import opened HealthMachine

  // ── one canary round over all targets ─────────────────────────────────

  datatype TargetVerdict = Verified | Tampered | Unreachable

  datatype Quorum = Any | Majority | All {
    /** At least one target, strictly more than half, or every one of them. */
    function Required(total: nat): nat {
      Max(1, match this
             case Any => 1
             case Majority => total / 2 + 1
             case All => total)
    }
  }

  datatype CanaryReport = CanaryReport(passed: nat, required: nat, tampered: bool) {
    predicate IsOk() {
      !tampered && passed >= required
    }

    predicate ConclusiveTamper() {
      tampered && passed < required
    }
  }

  function CountVerified(verdicts: seq<TargetVerdict>): nat {
    if |verdicts| == 0 then 0
    else CountVerified(verdicts[..|verdicts| - 1]) + (if verdicts[|verdicts| - 1] == Verified then 1 else 0)
  }

  /** `total` targets were asked; a probe that died leaves no verdict behind. */
  function Summarise(verdicts: seq<TargetVerdict>, total: nat, quorum: Quorum): CanaryReport {
    if total == 0 then CanaryReport(0, 0, false)
    else CanaryReport(CountVerified(verdicts), quorum.Required(total), Tampered in verdicts)
  }

  lemma {:induction false} CountVerifiedBound(verdicts: seq<TargetVerdict>)
    ensures CountVerified(verdicts) <= |verdicts|
    ensures Tampered in verdicts ==> CountVerified(verdicts) < |verdicts|
  {
    if |verdicts| != 0 {
      var init := verdicts[..|verdicts| - 1];
      CountVerifiedBound(init);
      assert verdicts == init + [verdicts[|verdicts| - 1]];
    }
  }

  /** One tampered target is proof by itself under `all`; under `majority` it takes half the targets;
      under `any` no target at all may have verified. */
  lemma TamperIsProofExactly(verdicts: seq<TargetVerdict>, total: nat, quorum: Quorum)
    requires 1 <= total && |verdicts| <= total && Tampered in verdicts
    ensures Summarise(verdicts, total, quorum).ConclusiveTamper() <==>
            match quorum
            case Any => Verified !in verdicts
            case Majority => 2 * CountVerified(verdicts) <= total
            case All => true
  {
    CountVerifiedBound(verdicts);
    NoneVerified(verdicts);
  }

  /** A round is good exactly if no target was tampered with and enough verified: one, more than half, or all of those
      asked, a target that gave no verdict counting against. */
  lemma RoundIsGoodExactly(verdicts: seq<TargetVerdict>, total: nat, quorum: Quorum)
    requires 1 <= total && |verdicts| <= total
    ensures Summarise(verdicts, total, quorum).IsOk() <==>
            && Tampered !in verdicts
            && match quorum
               case Any => Verified in verdicts
               case Majority => 2 * multiset(verdicts)[Verified] > total
               case All => |verdicts| == total && forall v | v in verdicts :: v == Verified
  {
    VerifiedAre(verdicts);
    NoneVerified(verdicts);
  }

  lemma {:induction false} VerifiedAre(verdicts: seq<TargetVerdict>)
    ensures CountVerified(verdicts) == multiset(verdicts)[Verified] <= |verdicts|
    ensures CountVerified(verdicts) == |verdicts| <==> forall v | v in verdicts :: v == Verified
  {
    if |verdicts| != 0 {
      var init := verdicts[..|verdicts| - 1];
      VerifiedAre(init);
      assert verdicts == init + [verdicts[|verdicts| - 1]];
      if forall v | v in verdicts :: v == Verified {
        assert forall v | v in init :: v in verdicts;
        assert verdicts[|verdicts| - 1] in verdicts;
      }
    }
  }

  lemma {:induction false} NoneVerified(verdicts: seq<TargetVerdict>)
    ensures CountVerified(verdicts) == 0 <==> Verified !in verdicts
  {
    if |verdicts| != 0 {
      var init := verdicts[..|verdicts| - 1];
      NoneVerified(init);
      assert verdicts == init + [verdicts[|verdicts| - 1]];
    }
  }

  // ── the counters of the slower layers ─────────────────────────────────

  datatype Aux = Aux(
    dnsFailures: u32,
    canaryFailures: u32,
    canaryOk: bool,
    canaryTampered: bool,
    throughputFailures: u32,
    throughputOk: bool)

  /** Optimistic until measured. */
  const FRESH_AUX := Aux(0, 0, true, false, 0, true)

  datatype CheckConfig = CheckConfig(
    thresholds: Thresholds,
    dnsCheck: bool,
    integrityCheck: bool,
    dnsThreshold: u32,
    canaryEnabled: bool,
    canaryThreshold: u32,
    throughputEnabled: bool,
    throughputThreshold: u32)
  {
    /** Validation rejects zero thresholds, those of a check only if the check is on; the DNS threshold is raised
        to one where it is used. */
    predicate Valid() {
      && thresholds.Valid()
      && (canaryEnabled ==> canaryThreshold >= 1)
      && (canaryEnabled && throughputEnabled ==> throughputThreshold >= 1)
    }
  }

  function CountDns(a: Aux, ok: bool): Aux {
    a.(dnsFailures := if ok then 0 else SaturatingIncrement(a.dnsFailures))
  }

  predicate DnsFailing(a: Aux, threshold: u32) {
    a.dnsFailures >= Max(threshold, 1)
  }

  function RunCanary(a: Aux, report: CanaryReport, threshold: u32): Aux {
    var failures := SaturatingIncrement(a.canaryFailures);
    if report.ConclusiveTamper() then
      a.(canaryFailures := failures, canaryOk := false, canaryTampered := true)
    else if report.IsOk() then
      a.(canaryFailures := 0, canaryOk := true, canaryTampered := false)
    else
      a.(canaryFailures := failures, canaryTampered := false,
         canaryOk := if failures >= threshold then false else a.canaryOk)
  }

  /** `good`: the measurement met the floor, or the link was busy rather than capped. */
  function RunThroughput(a: Aux, good: bool, threshold: u32): Aux {
    if good then a.(throughputFailures := 0, throughputOk := true)
    else
      var failures := SaturatingIncrement(a.throughputFailures);
      a.(throughputFailures := failures,
         throughputOk := if failures >= threshold then false else a.throughputOk)
  }

  // ── their history forms ───────────────────────────────────────────────

  function AfterCanaries(reports: seq<CanaryReport>, threshold: u32): Aux {
    if |reports| == 0 then FRESH_AUX
    else RunCanary(AfterCanaries(reports[..|reports| - 1], threshold), reports[|reports| - 1], threshold)
  }

  /** The rounds since the last good one. */
  function SinceOk(reports: seq<CanaryReport>): seq<CanaryReport> {
    if |reports| == 0 || reports[|reports| - 1].IsOk() then []
    else SinceOk(reports[..|reports| - 1]) + [reports[|reports| - 1]]
  }

  /** The canary is failing exactly when, since its last good round, there was proof or enough failures. */
  lemma {:induction false} CanaryHistory(reports: seq<CanaryReport>, threshold: u32)
    requires threshold >= 1
    ensures var a, since := AfterCanaries(reports, threshold), SinceOk(reports);
            && a.canaryFailures == Min(|since|, U32_MAX)
            && (!a.canaryOk <==> |since| >= threshold || exists k | 0 <= k < |since| :: since[k].ConclusiveTamper())
            && (a.canaryTampered <==> |reports| != 0 && reports[|reports| - 1].ConclusiveTamper())
  {
    if |reports| != 0 {
      var init, last := reports[..|reports| - 1], reports[|reports| - 1];
      CanaryHistory(init, threshold);
      if !last.IsOk() {
        var before, since := SinceOk(init), SinceOk(reports);
        assert since[|before|] == last;
        assert forall k | 0 <= k < |before| :: since[k] == before[k];
      }
    }
  }

  function AfterMeasurements(good: seq<bool>, threshold: u32): Aux {
    if |good| == 0 then FRESH_AUX
    else RunThroughput(AfterMeasurements(good[..|good| - 1], threshold), good[|good| - 1], threshold)
  }

  function AfterDns(answered: seq<bool>): Aux {
    if |answered| == 0 then FRESH_AUX
    else CountDns(AfterDns(answered[..|answered| - 1]), answered[|answered| - 1])
  }

  /** The last `n` outcomes all exist and all failed. */
  ghost predicate LastAllBad(outcomes: seq<bool>, n: nat) {
    n <= |outcomes| && forall k | |outcomes| - n <= k < |outcomes| :: !outcomes[k]
  }

  lemma {:induction false} ThroughputStreak(good: seq<bool>, threshold: u32)
    requires threshold >= 1
    ensures var a := AfterMeasurements(good, threshold);
            && a.throughputFailures == Min(Streak(good, false), U32_MAX)
            && (!a.throughputOk <==> Streak(good, false) >= threshold)
  {
    if |good| != 0 {
      ThroughputStreak(good[..|good| - 1], threshold);
    }
  }

  /** Throttled exactly when the last `threshold` measurements were all too slow. */
  lemma ThroughputHistory(good: seq<bool>, threshold: u32)
    requires threshold >= 1
    ensures !AfterMeasurements(good, threshold).throughputOk <==> LastAllBad(good, threshold)
  {
    ThroughputStreak(good, threshold);
    StreakIsTrailingBlock(good, false, threshold);
  }

  lemma {:induction false} DnsStreak(answered: seq<bool>)
    ensures AfterDns(answered).dnsFailures == Min(Streak(answered, false), U32_MAX)
  {
    if |answered| != 0 {
      DnsStreak(answered[..|answered| - 1]);
    }
  }

  /** DNS counts as failing exactly when the last `max(threshold, 1)` rounds all went unanswered. */
  lemma DnsHistory(answered: seq<bool>, threshold: u32)
    ensures DnsFailing(AfterDns(answered), threshold) <==> LastAllBad(answered, Max(threshold, 1))
  {
    DnsStreak(answered);
    StreakIsTrailingBlock(answered, false, Max(threshold, 1));
  }

  // ── one round of the health loop ──────────────────────────────────────

  /** What the network would answer in one round, and which slow checks their schedules allow. */
  datatype Answers = Answers(
    gateway: bool,
    internet: bool,
    dns: bool,
    hijacked: bool,
    canaryDue: bool,
    canary: CanaryReport,
    throughputDue: bool,
    throughputSpaced: bool,
    throughputGood: bool)

  datatype Provider = Provider(health: Health, aux: Aux)

  const FRESH_PROVIDER := Provider(FRESH, FRESH_AUX)

  predicate DnsProbed(a: Answers, cfg: CheckConfig) {
    cfg.dnsCheck && a.gateway && a.internet
  }

  predicate HijackSeen(a: Answers, cfg: CheckConfig) {
    cfg.integrityCheck && DnsProbed(a, cfg) && a.dns && a.hijacked
  }

  predicate CanaryRuns(a: Answers, cfg: CheckConfig) {
    cfg.canaryEnabled && a.gateway && a.canaryDue
  }

  /** The canary and DNS counters once this round's probes are in. A round that skipped DNS counts as answered. */
  function ProbedAux(aux: Aux, a: Answers, cfg: CheckConfig): Aux {
    var canaried := if CanaryRuns(a, cfg) then RunCanary(aux, a.canary, cfg.canaryThreshold) else aux;
    CountDns(canaried, !DnsProbed(a, cfg) || a.dns)
  }

  /** The first failing layer short of the two that a throttle can starve. */
  function ReachabilityFailure(aux: Aux, a: Answers, cfg: CheckConfig): Option<FailureLayer> {
    if !a.gateway then Some(Gateway)
    else if !a.internet then Some(Internet)
    else if DnsFailing(aux, cfg.dnsThreshold) then Some(Dns)
    else if HijackSeen(a, cfg) then Some(DnsHijack)
    else if aux.canaryTampered then Some(ContentTampered)
    else None
  }

  predicate ThroughputRuns(aux: Aux, a: Answers, cfg: CheckConfig) {
    cfg.canaryEnabled && cfg.throughputEnabled && (a.throughputDue || (!aux.canaryOk && a.throughputSpaced))
  }

  function RollUp(aux: Aux, a: Answers, cfg: CheckConfig): (Aux, Option<FailureLayer>) {
    var probed := ProbedAux(aux, a, cfg);
    match ReachabilityFailure(probed, a, cfg)
    case Some(layer) => (probed, Some(layer))
    case None =>
      var measured := if ThroughputRuns(probed, a, cfg) then RunThroughput(probed, a.throughputGood, cfg.throughputThreshold) else probed;
      (measured, if !measured.throughputOk then Some(Throttled)
                 else if !measured.canaryOk then Some(ContentUnreachable)
                 else None)
  }

  function HealthRound(p: Provider, a: Answers, now: int, cfg: CheckConfig): Provider {
    var (aux, failure) := RollUp(p.aux, a, cfg);
    Provider(Apply(p.health, Round(now, failure.None?, failure), cfg.thresholds), aux)
  }

  datatype TimedAnswers = TimedAnswers(now: int, answers: Answers)

  function HealthRun(p: Provider, rounds: seq<TimedAnswers>, cfg: CheckConfig): Provider {
    if |rounds| == 0 then p
    else
      var last := rounds[|rounds| - 1];
      HealthRound(HealthRun(p, rounds[..|rounds| - 1], cfg), last.answers, last.now, cfg)
  }

  /** A round counts as a success exactly when every layer is good at the end of it. */
  lemma SuccessMeansEveryLayer(aux: Aux, a: Answers, cfg: CheckConfig)
    ensures var (after, failure) := RollUp(aux, a, cfg);
            failure.None? <==>
              && a.gateway && a.internet && !HijackSeen(a, cfg)
              && !DnsFailing(after, cfg.dnsThreshold)
              && !after.canaryTampered && after.canaryOk && after.throughputOk
  {
  }

  lemma {:induction false} HealthRunSane(rounds: seq<TimedAnswers>, cfg: CheckConfig)
    ensures var h := HealthRun(FRESH_PROVIDER, rounds, cfg).health; h.state == Up <==> h.upSince.Some?
  {
    if |rounds| != 0 {
      HealthRunSane(rounds[..|rounds| - 1], cfg);
    }
  }

  /** After any run, wrong content that is proof takes the provider down in the very round that saw it,
      provided the gateway, the internet and DNS still answered; the blame goes to the content unless
      the resolver was caught lying in the same round. */
  lemma ProofTakesDownAtOnce(rounds: seq<TimedAnswers>, a: Answers, now: int, cfg: CheckConfig)
    requires CanaryRuns(a, cfg) && a.canary.ConclusiveTamper() && a.internet
    requires !DnsFailing(ProbedAux(HealthRun(FRESH_PROVIDER, rounds, cfg).aux, a, cfg), cfg.dnsThreshold)
    ensures var h := HealthRun(FRESH_PROVIDER, rounds + [TimedAnswers(now, a)], cfg).health;
            && h.state == Down && h.upSince.None?
            && h.failureLayer == Some(if HijackSeen(a, cfg) then DnsHijack else ContentTampered)
  {
    HealthRunSane(rounds, cfg);
    assert (rounds + [TimedAnswers(now, a)])[..|rounds|] == rounds;
  }

  /** In no run does a provider come up in a round that ends with its canary verdict on tampering set. */
  lemma NeverUpWhileTampered(p: Provider, a: Answers, now: int, cfg: CheckConfig)
    requires p.health.state != Up
    ensures var next := HealthRound(p, a, now, cfg);
            next.aux.canaryTampered ==> next.health.state != Up
  {
  }

  /** The canary's own verdict survives every other layer: after proof, and until a canary round that is
      not proof runs, the provider does not come up again. */
  lemma {:induction false} TamperedStaysOut(p: Provider, rounds: seq<TimedAnswers>, cfg: CheckConfig)
    requires p.aux.canaryTampered && p.health.state != Up
    requires forall k | 0 <= k < |rounds| ::
               CanaryRuns(rounds[k].answers, cfg) ==> rounds[k].answers.canary.ConclusiveTamper()
    ensures var after := HealthRun(p, rounds, cfg);
            after.aux.canaryTampered && after.health.state != Up
  {
    if |rounds| != 0 {
      var init, last := rounds[..|rounds| - 1], rounds[|rounds| - 1];
      TamperedStaysOut(p, init, cfg);
      assert last == rounds[|rounds| - 1];
      NeverUpWhileTampered(HealthRun(p, init, cfg), last.answers, last.now, cfg);
    }
  }

  // ── what is counted is what was answered ──────────────────────────────

  /** The resolvers were asked over a working link and none answered. */
  predicate Unanswered(a: Answers, cfg: CheckConfig) {
    cfg.dnsCheck && a.gateway && a.internet && !a.dns
  }

  function DnsOutcomes(rounds: seq<TimedAnswers>, cfg: CheckConfig): seq<bool> {
    seq(|rounds|, k requires 0 <= k < |rounds| => !Unanswered(rounds[k].answers, cfg))
  }

  /** The canary reports of the rounds in which one ran. */
  function CanaryReports(rounds: seq<TimedAnswers>, cfg: CheckConfig): seq<CanaryReport> {
    if |rounds| == 0 then []
    else
      var a := rounds[|rounds| - 1].answers;
      CanaryReports(rounds[..|rounds| - 1], cfg) + (if cfg.canaryEnabled && a.gateway && a.canaryDue then [a.canary] else [])
  }

  /** The throughput was measured in a round that left `after` behind: every layer that tells a dead link or a lying one
      was good, and a measurement was due, or the canary is failing and the last one lies far enough back. */
  predicate Measured(after: Aux, a: Answers, cfg: CheckConfig) {
    && cfg.canaryEnabled && cfg.throughputEnabled && a.gateway && a.internet
    && after.dnsFailures < Max(cfg.dnsThreshold, 1)
    && !(cfg.integrityCheck && cfg.dnsCheck && a.dns && a.hijacked)
    && !after.canaryTampered
    && (a.throughputDue || (!after.canaryOk && a.throughputSpaced))
  }

  function Measurements(rounds: seq<TimedAnswers>, cfg: CheckConfig): seq<bool> {
    if |rounds| == 0 then []
    else
      var a := rounds[|rounds| - 1].answers;
      Measurements(rounds[..|rounds| - 1], cfg)
      + (if Measured(HealthRun(FRESH_PROVIDER, rounds, cfg).aux, a, cfg) then [a.throughputGood] else [])
  }

  /** The three groups of counters agree. */
  predicate SameCanary(a: Aux, b: Aux) {
    a.canaryFailures == b.canaryFailures && a.canaryOk == b.canaryOk && a.canaryTampered == b.canaryTampered
  }

  predicate SameThroughput(a: Aux, b: Aux) {
    a.throughputFailures == b.throughputFailures && a.throughputOk == b.throughputOk
  }

  /** What one round does to each group. */
  lemma OneRound(p: Provider, a: Answers, now: int, cfg: CheckConfig)
    ensures var before, after := p.aux, HealthRound(p, a, now, cfg).aux;
            && after.dnsFailures == (if Unanswered(a, cfg) then SaturatingIncrement(before.dnsFailures) else 0)
            && SameCanary(after, if cfg.canaryEnabled && a.gateway && a.canaryDue then RunCanary(before, a.canary, cfg.canaryThreshold) else before)
            && SameThroughput(after, if Measured(after, a, cfg) then RunThroughput(before, a.throughputGood, cfg.throughputThreshold) else before)
  {
  }

  /** Over any run from a start, the counters are those of the rounds' own answers. */
  lemma {:induction false} CountersFollowAnswers(rounds: seq<TimedAnswers>, cfg: CheckConfig)
    ensures var aux := HealthRun(FRESH_PROVIDER, rounds, cfg).aux;
            && aux.dnsFailures == Min(Streak(DnsOutcomes(rounds, cfg), false), U32_MAX)
            && SameCanary(aux, AfterCanaries(CanaryReports(rounds, cfg), cfg.canaryThreshold))
            && SameThroughput(aux, AfterMeasurements(Measurements(rounds, cfg), cfg.throughputThreshold))
  {
    hide HealthRound, RunCanary, RunThroughput, Measured, Unanswered;
    if |rounds| != 0 {
      var n := |rounds| - 1;
      CountersFollowAnswers(rounds[..n], cfg);
      var before, last := HealthRun(FRESH_PROVIDER, rounds[..n], cfg), rounds[n];
      OneRound(before, last.answers, last.now, cfg);
      assert DnsOutcomes(rounds, cfg)[..n] == DnsOutcomes(rounds[..n], cfg);
      ReportsNext(rounds, cfg);
      MeasurementsNext(rounds, cfg);
      SameRuns(before.aux, AfterCanaries(CanaryReports(rounds[..n], cfg), cfg.canaryThreshold), last.answers.canary, cfg.canaryThreshold, true);
      SameRuns(before.aux, AfterMeasurements(Measurements(rounds[..n], cfg), cfg.throughputThreshold), last.answers.canary, cfg.throughputThreshold,
               last.answers.throughputGood);
    }
  }

  lemma SameRuns(a: Aux, b: Aux, report: CanaryReport, threshold: u32, good: bool)
    ensures SameCanary(a, b) ==> SameCanary(RunCanary(a, report, threshold), RunCanary(b, report, threshold))
    ensures SameThroughput(a, b) ==> SameThroughput(RunThroughput(a, good, threshold), RunThroughput(b, good, threshold))
  {
  }

  lemma ReportsNext(rounds: seq<TimedAnswers>, cfg: CheckConfig)
    requires |rounds| != 0
    ensures var n, a := |rounds| - 1, rounds[|rounds| - 1].answers;
            var before := AfterCanaries(CanaryReports(rounds[..n], cfg), cfg.canaryThreshold);
            AfterCanaries(CanaryReports(rounds, cfg), cfg.canaryThreshold) ==
            if cfg.canaryEnabled && a.gateway && a.canaryDue then RunCanary(before, a.canary, cfg.canaryThreshold) else before
  {
    hide RunCanary;
    var n, a := |rounds| - 1, rounds[|rounds| - 1].answers;
    var before := CanaryReports(rounds[..n], cfg);
    assert (before + [a.canary])[..|before|] == before;
    assert before + [] == before;
  }

  lemma MeasurementsNext(rounds: seq<TimedAnswers>, cfg: CheckConfig)
    requires |rounds| != 0
    ensures var n, a := |rounds| - 1, rounds[|rounds| - 1].answers;
            var before := AfterMeasurements(Measurements(rounds[..n], cfg), cfg.throughputThreshold);
            AfterMeasurements(Measurements(rounds, cfg), cfg.throughputThreshold) ==
            if Measured(HealthRun(FRESH_PROVIDER, rounds, cfg).aux, a, cfg) then RunThroughput(before, a.throughputGood, cfg.throughputThreshold) else before
  {
    hide RunThroughput, HealthRun, Measured;
    var n, a := |rounds| - 1, rounds[|rounds| - 1].answers;
    var before := Measurements(rounds[..n], cfg);
    assert (before + [a.throughputGood])[..|before|] == before;
    assert before + [] == before;
  }

  /** After any run, DNS counts as failing exactly when the last `max(threshold, 1)` rounds all asked over a working
      link and got no answer. */
  lemma DnsFailsExactly(rounds: seq<TimedAnswers>, cfg: CheckConfig)
    ensures DnsFailing(HealthRun(FRESH_PROVIDER, rounds, cfg).aux, cfg.dnsThreshold) <==>
            var n := Max(cfg.dnsThreshold, 1);
            n <= |rounds| && forall k | |rounds| - n <= k < |rounds| :: Unanswered(rounds[k].answers, cfg)
  {
    hide HealthRun, Unanswered;
    CountersFollowAnswers(rounds, cfg);
    StreakIsTrailingBlock(DnsOutcomes(rounds, cfg), false, Max(cfg.dnsThreshold, 1));
    assert forall k | 0 <= k < |rounds| :: DnsOutcomes(rounds, cfg)[k] == !Unanswered(rounds[k].answers, cfg);
  }

  /** After any run, the canary counts as failing exactly when, among the reports of the rounds in which one ran, there
      was proof or a full threshold of failures since the last good one; as tampering exactly when the last was proof. */
  lemma CanaryFailsExactly(rounds: seq<TimedAnswers>, cfg: CheckConfig)
    requires cfg.canaryThreshold >= 1
    ensures var aux, reports := HealthRun(FRESH_PROVIDER, rounds, cfg).aux, CanaryReports(rounds, cfg);
            var since := SinceOk(reports);
            && (!aux.canaryOk <==> |since| >= cfg.canaryThreshold || exists k | 0 <= k < |since| :: since[k].ConclusiveTamper())
            && (aux.canaryTampered <==> |reports| != 0 && reports[|reports| - 1].ConclusiveTamper())
  {
    hide HealthRun, CanaryReports, AfterCanaries, SinceOk;
    CountersFollowAnswers(rounds, cfg);
    CanaryHistory(CanaryReports(rounds, cfg), cfg.canaryThreshold);
  }

  /** After any run, the link counts as throttled exactly when the last full threshold of measurements was too slow. */
  lemma ThrottledExactly(rounds: seq<TimedAnswers>, cfg: CheckConfig)
    requires cfg.throughputThreshold >= 1
    ensures !HealthRun(FRESH_PROVIDER, rounds, cfg).aux.throughputOk <==> LastAllBad(Measurements(rounds, cfg), cfg.throughputThreshold)
  {
    hide HealthRun, Measurements, AfterMeasurements, LastAllBad;
    CountersFollowAnswers(rounds, cfg);
    ThroughputHistory(Measurements(rounds, cfg), cfg.throughputThreshold);
  }

  // ── from answers to a verdict ─────────────────────────────────────────

  /** The outcomes that a run applied to the health machine. */
  function Applied(rounds: seq<TimedAnswers>, cfg: CheckConfig): (r: seq<Round>)
    ensures |r| == |rounds|
  {
    if |rounds| == 0 then []
    else
      var init, last := rounds[..|rounds| - 1], rounds[|rounds| - 1];
      var failure := RollUp(HealthRun(FRESH_PROVIDER, init, cfg).aux, last.answers, cfg).1;
      Applied(init, cfg) + [Round(last.now, failure.None?, failure)]
  }

  lemma {:induction false} HealthIsApplied(rounds: seq<TimedAnswers>, cfg: CheckConfig)
    ensures HealthRun(FRESH_PROVIDER, rounds, cfg).health == ApplyAll(Applied(rounds, cfg), cfg.thresholds)
  {
    hide Apply, RollUp;
    if |rounds| != 0 {
      var n := |rounds| - 1;
      HealthIsApplied(rounds[..n], cfg);
      assert Applied(rounds, cfg)[..n] == Applied(rounds[..n], cfg);
    }
  }

  lemma {:induction false} AppliedAt(rounds: seq<TimedAnswers>, cfg: CheckConfig, k: nat)
    requires k < |rounds|
    ensures Applied(rounds, cfg)[k] == Applied(rounds[..k + 1], cfg)[k]
  {
    hide RollUp, HealthRun;
    if k + 1 == |rounds| {
      assert rounds[..k + 1] == rounds;
    } else {
      AppliedAt(rounds[..|rounds| - 1], cfg, k);
      assert rounds[..|rounds| - 1][..k + 1] == rounds[..k + 1];
    }
  }

  /** The `k`-th round of a run passed exactly if every layer was good at the end of it. */
  lemma PassedExactly(rounds: seq<TimedAnswers>, cfg: CheckConfig, k: nat)
    requires k < |rounds|
    ensures var a, aux := rounds[k].answers, HealthRun(FRESH_PROVIDER, rounds[..k + 1], cfg).aux;
            Applied(rounds, cfg)[k].success <==>
              && a.gateway && a.internet && !HijackSeen(a, cfg) && !DnsFailing(aux, cfg.dnsThreshold)
              && !aux.canaryTampered && aux.canaryOk && aux.throughputOk
  {
    AppliedAt(rounds, cfg, k);
    assert rounds[..k + 1][..k] == rounds[..k];
    SuccessMeansEveryLayer(HealthRun(FRESH_PROVIDER, rounds[..k], cfg).aux, rounds[k].answers, cfg);
    hide RollUp, DnsFailing, HijackSeen;
  }

  /** However good everything else is, resolvers that stay silent over a working link take a provider down: after
      enough such rounds for DNS to fail, and then for the failures to count. */
  lemma SilentDnsTakesDown(rounds: seq<TimedAnswers>, cfg: CheckConfig)
    requires cfg.thresholds.Valid()
    requires var n := Max(cfg.dnsThreshold, 1) + cfg.thresholds.failure - 1;
             n <= |rounds| && forall k | |rounds| - n <= k < |rounds| :: Unanswered(rounds[k].answers, cfg)
    ensures HealthRun(FRESH_PROVIDER, rounds, cfg).health.state == Down
  {
    hide HealthRun, Unanswered, Applied, ApplyAll, DnsFailing, HijackSeen;
    var applied, t := Applied(rounds, cfg), cfg.thresholds;
    forall k | |rounds| - t.failure <= k < |rounds| ensures !applied[k].success {
      var upTo := rounds[..k + 1];
      forall j | |upTo| - Max(cfg.dnsThreshold, 1) <= j < |upTo| ensures Unanswered(upTo[j].answers, cfg) {
        assert upTo[j] == rounds[j];
      }
      DnsFailsExactly(upTo, cfg);
      PassedExactly(rounds, cfg, k);
    }
    assert DownTrigger(applied, t, |rounds|) && NoUpAfter(applied, t, |rounds|);
    CountersRefineHistory(applied, t, Down);
    HealthIsApplied(rounds, cfg);
  }

  /** Is this layer bad at the end of a round that left `after` behind? */
  predicate Bad(layer: FailureLayer, after: Aux, a: Answers, cfg: CheckConfig) {
    match layer
    case Gateway => !a.gateway
    case Internet => !a.internet
    case Dns => after.dnsFailures >= Max(cfg.dnsThreshold, 1)
    case DnsHijack => cfg.integrityCheck && cfg.dnsCheck && a.gateway && a.internet && a.dns && a.hijacked
    case ContentTampered => after.canaryTampered
    case Throttled => !after.throughputOk
    case ContentUnreachable => !after.canaryOk
  }

  /** The order of causes: a throttle comes before the timeouts it brings about. */
  function Place(layer: FailureLayer): nat {
    match layer
    case Gateway => 0
    case Internet => 1
    case Dns => 2
    case DnsHijack => 3
    case ContentTampered => 4
    case Throttled => 5
    case ContentUnreachable => 6
  }

  lemma BlameChain(aux: Aux, a: Answers, cfg: CheckConfig)
    ensures var (after, failure) := RollUp(aux, a, cfg);
            failure == if Bad(Gateway, after, a, cfg) then Some(Gateway)
                       else if Bad(Internet, after, a, cfg) then Some(Internet)
                       else if Bad(Dns, after, a, cfg) then Some(Dns)
                       else if Bad(DnsHijack, after, a, cfg) then Some(DnsHijack)
                       else if Bad(ContentTampered, after, a, cfg) then Some(ContentTampered)
                       else if Bad(Throttled, after, a, cfg) then Some(Throttled)
                       else if Bad(ContentUnreachable, after, a, cfg) then Some(ContentUnreachable)
                       else None
  {
    hide RunCanary;
  }

  ghost predicate GoodBefore(layer: FailureLayer, after: Aux, a: Answers, cfg: CheckConfig) {
    forall other | Place(other) < Place(layer) :: !Bad(other, after, a, cfg)
  }

  lemma GoodBeforeMeans(layer: FailureLayer, after: Aux, a: Answers, cfg: CheckConfig)
    ensures GoodBefore(layer, after, a, cfg) <==>
            && (Place(layer) > 0 ==> !Bad(Gateway, after, a, cfg))
            && (Place(layer) > 1 ==> !Bad(Internet, after, a, cfg))
            && (Place(layer) > 2 ==> !Bad(Dns, after, a, cfg))
            && (Place(layer) > 3 ==> !Bad(DnsHijack, after, a, cfg))
            && (Place(layer) > 4 ==> !Bad(ContentTampered, after, a, cfg))
            && (Place(layer) > 5 ==> !Bad(Throttled, after, a, cfg))
  {
    hide Bad;
  }

  /** A round blames the first bad layer in the order of causes. */
  lemma BlamesFirstBadLayer(aux: Aux, a: Answers, cfg: CheckConfig, layer: FailureLayer)
    ensures var (after, failure) := RollUp(aux, a, cfg);
            failure == Some(layer) <==> Bad(layer, after, a, cfg) && GoodBefore(layer, after, a, cfg)
  {
    hide RollUp, Bad, GoodBefore;
    BlameChain(aux, a, cfg);
    GoodBeforeMeans(layer, RollUp(aux, a, cfg).0, a, cfg);
  }

  /** One bad round takes a provider that has been passing down exactly if it is proof: an answer that lies, or content
      that was tampered with, over a link whose gateway, internet and DNS work; any other needs as many rounds as the
      failure threshold says. */
  lemma OnlyProofIsConclusive(p: Provider, a: Answers, now: int, cfg: CheckConfig)
    requires p.health.state == Up && p.health.consecutiveFailures == 0 && cfg.thresholds.failure >= 2
    ensures var next := HealthRound(p, a, now, cfg);
            next.health.state == Down <==>
              && a.gateway && a.internet && !Bad(Dns, next.aux, a, cfg)
              && (Bad(DnsHijack, next.aux, a, cfg) || Bad(ContentTampered, next.aux, a, cfg))
  {
  }
}
