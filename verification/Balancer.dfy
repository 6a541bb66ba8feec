/**
 The balancer itself (`src/core/balancer.rs`): the object whose tasks update provider states, the
 active provider and the kernel route in place. Each method is proved to do to the whole state what
 the engine of `Failover` says.
 */
module Balancing {
  import opened Basics
  import opened Selection
  import opened HealthMachine
  import opened Layers
  import opened FlapDamping
  import opened Routing
  import opened Failover
  import TwoPhase

  class Balancer {
    const cfg: Config
    const router: Router
    const flap: FlapTracker
    var providers: map<string, Provider>
    var active: Option<string>
    var activeAdopted: bool
    var forceOverride: Option<string>
    var failbackPending: Option<Pending>
    /** The provider the pin chain was last aimed at. */
    var aim: Option<string>
    /** The operator's pin as the statistics database keeps it. */
    var storedPin: Option<string>
    /** The failover table of the statistics database. */
    var records: seq<Record>

    ghost function View(): Engine
      reads this, flap, router, router.kernel
    {
      Engine(providers, active, activeAdopted, forceOverride, flap.switches, failbackPending,
             router.kernel.routes, router.ownsBootstrap, aim, records)
    }

    /** Not a dry run, one state per configured provider, and a pin that would survive a restart. */
    ghost predicate Valid()
      reads this
    {
      !router.dryRun && providers.Keys == cfg.of.Keys && cfg.Valid() && storedPin == forceOverride
    }

    /** A start at `now`, over the pin and the failover rows an earlier process stored. */
    constructor (cfg: Config, kernel: MainTable, installedBootstrap: bool, pin: Option<string>, stored: seq<Record>, now: int)
      requires cfg.Valid()
      ensures Valid() && this.cfg == cfg && router.kernel == kernel && fresh(router) && fresh(flap)
      ensures View() == Start(cfg, kernel.routes, installedBootstrap, pin, StoredSwitches(stored, now - cfg.flap.window))
    {
      this.cfg := cfg;
      router := new Router(kernel, false, installedBootstrap);
      flap := new FlapTracker.WithHistory(StoredSwitches(stored, now - cfg.flap.window));
      providers := map name | name in cfg.of :: FRESH_PROVIDER;
      var route := Preferred(Listed(kernel.routes));
      var adopted: Option<string> := None;
      if route.Some? && route.value.EffectiveMetric() == 0 {
        adopted := MatchingProvider(cfg, cfg.names, route.value);
      }
      active := adopted;
      activeAdopted := adopted.Some?;
      forceOverride := if pin.Some? && pin.value in cfg.of then pin else None;
      storedPin := if pin.Some? && pin.value in cfg.of then pin else None;
      failbackPending := None;
      aim := None;
      records := [];
    }

    // ── one provider's health loop ──────────────────────────────────────

    method RunCanaryRound(name: string, report: CanaryReport)
      requires name in providers
      modifies this`providers
      ensures providers == old(providers)[name := old(providers[name]).(aux := RunCanary(old(providers[name]).aux, report, cfg.checks.canaryThreshold))]
    {
      var entry := providers[name].aux;
      if report.ConclusiveTamper() {
        entry := entry.(canaryFailures := SaturatingIncrement(entry.canaryFailures), canaryOk := false, canaryTampered := true);
      } else if report.IsOk() {
        entry := entry.(canaryFailures := 0, canaryOk := true, canaryTampered := false);
      } else {
        entry := entry.(canaryFailures := SaturatingIncrement(entry.canaryFailures), canaryTampered := false);
        if entry.canaryFailures >= cfg.checks.canaryThreshold {
          entry := entry.(canaryOk := false);
        }
      }
      providers := providers[name := providers[name].(aux := entry)];
    }

    method RunThroughputRound(name: string, good: bool)
      requires name in providers
      modifies this`providers
      ensures providers == old(providers)[name := old(providers[name]).(aux := RunThroughput(old(providers[name]).aux, good, cfg.checks.throughputThreshold))]
    {
      var entry := providers[name].aux;
      if good {
        entry := entry.(throughputFailures := 0, throughputOk := true);
      } else {
        entry := entry.(throughputFailures := SaturatingIncrement(entry.throughputFailures));
        if entry.throughputFailures >= cfg.checks.throughputThreshold {
          entry := entry.(throughputOk := false);
        }
      }
      providers := providers[name := providers[name].(aux := entry)];
    }

    method CountDnsRound(name: string, ok: bool) returns (failing: bool)
      requires name in providers
      modifies this`providers
      ensures providers == old(providers)[name := old(providers[name]).(aux := CountDns(old(providers[name]).aux, ok))]
      ensures failing == DnsFailing(CountDns(old(providers[name]).aux, ok), cfg.checks.dnsThreshold)
    {
      var entry := providers[name].aux;
      if ok {
        entry := entry.(dnsFailures := 0);
        failing := false;
      } else {
        entry := entry.(dnsFailures := SaturatingIncrement(entry.dnsFailures));
        failing := entry.dnsFailures >= Max(cfg.checks.dnsThreshold, 1);
      }
      providers := providers[name := providers[name].(aux := entry)];
    }

    method ApplyProbeResult(name: string, success: bool, failure: Option<FailureLayer>, now: int)
      requires name in providers
      modifies this`providers
      ensures providers == old(providers)[name := old(providers[name]).(health := Apply(old(providers[name]).health, Round(now, success, failure), cfg.checks.thresholds))]
    {
      var entry := providers[name].health;
      if success {
        entry := entry.(consecutiveFailures := 0, consecutiveSuccesses := SaturatingIncrement(entry.consecutiveSuccesses));
        if entry.state != Up && entry.consecutiveSuccesses >= cfg.checks.thresholds.success {
          entry := entry.(state := Up, upSince := Some(now), failureLayer := None);
        }
      } else {
        var conclusive := failure.Some? && failure.value.IsConclusive();
        entry := entry.(consecutiveSuccesses := 0, consecutiveFailures := SaturatingIncrement(entry.consecutiveFailures));
        if failure.Some? {
          entry := entry.(failureLayer := failure);
        }
        if entry.state != Down && (conclusive || entry.consecutiveFailures >= cfg.checks.thresholds.failure) {
          entry := entry.(state := Down, upSince := None);
        }
      }
      providers := providers[name := providers[name].(health := entry)];
    }

    /** The canary, when due, and the DNS count: what the later layers are judged by. */
    method ProbeSlowLayers(name: string, answers: Answers) returns (dnsProbed: bool, dnsFailing: bool)
      requires name in providers
      modifies this`providers
      ensures var probed := ProbedAux(old(providers[name]).aux, answers, cfg.checks);
              && providers == old(providers)[name := old(providers[name]).(aux := probed)]
              && dnsProbed == DnsProbed(answers, cfg.checks) && dnsFailing == DnsFailing(probed, cfg.checks.dnsThreshold)
    {
      hide RunCanary, CountDns, DnsFailing;
      var checks := cfg.checks;
      if checks.canaryEnabled && answers.gateway && answers.canaryDue {
        RunCanaryRound(name, answers.canary);
      }
      dnsProbed := checks.dnsCheck && answers.gateway && answers.internet;
      dnsFailing := CountDnsRound(name, !dnsProbed || answers.dns);
    }

    /** The first failing layer short of the two that a throttle can starve. */
    method ReachabilityLayer(name: string, answers: Answers, dnsProbed: bool, dnsFailing: bool) returns (failure: Option<FailureLayer>)
      requires name in providers
      requires dnsProbed == DnsProbed(answers, cfg.checks) && dnsFailing == DnsFailing(providers[name].aux, cfg.checks.dnsThreshold)
      ensures failure == ReachabilityFailure(providers[name].aux, answers, cfg.checks)
    {
      hide DnsFailing;
      var hijacked := cfg.checks.integrityCheck && dnsProbed && answers.dns && answers.hijacked;
      if !answers.gateway {
        failure := Some(Gateway);
      } else if !answers.internet {
        failure := Some(Internet);
      } else if dnsFailing {
        failure := Some(Dns);
      } else if hijacked {
        failure := Some(DnsHijack);
      } else if providers[name].aux.canaryTampered {
        failure := Some(ContentTampered);
      } else {
        failure := None;
      }
    }

    /** The probes of one turn of a provider's health loop, rolled up into the first failing layer. */
    method ProbeLayers(name: string, answers: Answers) returns (failure: Option<FailureLayer>)
      requires name in providers
      modifies this`providers
      ensures var (aux, layer) := RollUp(old(providers[name]).aux, answers, cfg.checks);
              && failure == layer
              && providers == old(providers)[name := old(providers[name]).(aux := aux)]
    {
      hide ProbedAux, ReachabilityFailure, RunThroughput, DnsProbed, DnsFailing;
      var checks := cfg.checks;
      var dnsProbed, dnsFailing := ProbeSlowLayers(name, answers);
      failure := ReachabilityLayer(name, answers, dnsProbed, dnsFailing);
      if failure.None? {
        var canaryOk := providers[name].aux.canaryOk;
        if checks.canaryEnabled && checks.throughputEnabled && (answers.throughputDue || (!canaryOk && answers.throughputSpaced)) {
          MeasuringLeavesCanary(providers[name].aux, answers.throughputGood, checks.throughputThreshold);
          RunThroughputRound(name, answers.throughputGood);
        }
        if !providers[name].aux.throughputOk {
          failure := Some(Throttled);
        } else if !canaryOk {
          failure := Some(ContentUnreachable);
        }
      }
    }

    lemma MeasuringLeavesCanary(a: Aux, good: bool, threshold: u32)
      ensures RunThroughput(a, good, threshold).canaryOk == a.canaryOk
    {
    }

    /** One turn of a provider's health loop, up to the reconcile that follows it. */
    method HealthTick(name: string, answers: Answers, now: int)
      requires Valid()
      modifies this`providers
      ensures Valid() && View() == ProbeProvider(cfg, old(View()), name, answers, now)
    {
      hide RollUp, Apply, Config.Valid;
      if name !in providers {
        return;
      }
      var failure := ProbeLayers(name, answers);
      ApplyProbeResult(name, failure.None?, failure, now);
      assert providers == old(providers)[name := HealthRound(old(providers)[name], answers, now, cfg.checks)];
    }

    // ── reconciling ─────────────────────────────────────────────────────

    /** The views in whatever order the hash map yields them. */
    method ReadViews() returns (views: seq<ProviderView>)
      requires Valid()
      ensures SameProviders(Views(cfg, View()), views)
    {
      views := [];
      var remaining := providers.Keys;
      while remaining != {}
        invariant remaining <= providers.Keys
        invariant forall v :: v in views <==> v.name in providers.Keys - remaining && v == ViewOf(cfg, View(), v.name)
      {
        var name :| name in remaining;
        views := views + [ProviderView(name, cfg.of[name].priority, providers[name].health.state, providers[name].health.upSince)];
        remaining := remaining - {name};
      }
      ViewsCoverProviders(cfg, View());
    }

    /** What a reconcile reads before it takes the lock. */
    method ReadSnapshot(now: int) returns (s: Snapshot)
      requires Valid()
      ensures s.(views := Views(cfg, View())) == TakeSnapshot(cfg, View(), now)
      ensures SameProviders(Views(cfg, View()), s.views)
    {
      var forced := forceOverride;
      var failbackStable := flap.EffectiveFailbackNow(now, cfg.flap);
      var views := ReadViews();
      s := Snapshot(forced, now, failbackStable, views);
    }

    /** Aim the pin chain; new connections stay where they were if it cannot be replaced. */
    method Repin(name: string, aimed: bool)
      modifies this`aim
      ensures aim == if cfg.pins && aimed then Some(name) else old(aim)
    {
      if !cfg.pins {
        return;
      }
      if aimed {
        aim := Some(name);
      }
    }

    method ConfirmActive(always: bool, cmds: Commands) returns (ok: bool)
      requires Valid()
      modifies this`activeAdopted, this`aim, router`ownsBootstrap, router.kernel
      ensures Valid() && View() == CommitKeep(cfg, old(View()), always, cmds)
    {
      hide InstallDefault, Config.Valid;
      ok := true;
      if active.Some? && active.value in cfg.of {
        Repin(active.value, cmds.aimed);
      }
      var verifying := activeAdopted;
      activeAdopted := false;
      if active.Some? && active.value in cfg.of {
        var cur := cfg.of[active.value];
        if verifying {
          ok := router.SetDefaultRoute(cur.gateway, cur.interface, cmds.confirm);
          if !ok {
            return;
          }
        }
        if always {
          ok := router.SetDefaultRoute(cur.gateway, cur.interface, cmds.reassert);
        }
      }
    }

    /** The chain first, then the route. */
    method MoveRoute(to: string, cmds: Commands) returns (ok: bool)
      requires Valid() && to in cfg.of
      modifies this`aim, router`ownsBootstrap, router.kernel
      ensures Valid() && ok == cmds.switchOver.replaceOk
      ensures var aimed := Aim(cfg, old(View()), to, cmds.aimed);
              View() == if ok then Install(cfg, aimed, to, cmds.switchOver) else aimed
    {
      hide InstallDefault, Config.Valid;
      Repin(to, cmds.aimed);
      ok := router.SetDefaultRoute(cfg.of[to].gateway, cfg.of[to].interface, cmds.switchOver);
      if !ok {
        FailedInstallChangesNothing(old(router.kernel.routes), old(router.ownsBootstrap), cfg.of[to].gateway, cfg.of[to].interface, cmds.switchOver);
      }
    }

    method SwitchTo(to: string, reason: Reason, at: int, cmds: Commands) returns (ok: bool)
      requires Valid()
      modifies this`active, this`activeAdopted, this`aim, this`records, flap, router`ownsBootstrap, router.kernel
      ensures Valid() && View() == CommitSwitch(cfg, old(View()), to, reason, at, cmds)
    {
      hide Install, Aim, Config.Valid, LastKept;
      if to !in cfg.of {
        return false;
      }
      ok := MoveRoute(to, cmds);
      if !ok {
        return;
      }
      records := records + [Record(at, active, to, Selected(reason))];
      var current := active;
      active := Some(to);
      activeAdopted := false;
      if current.Some? {
        flap.RecordSwitch(at);
      }
    }

    /** What a reconcile does once it holds the lock, on a snapshot that may be stale. */
    method CommitSnapshot(s: Snapshot, always: bool, cmds: Commands) returns (ok: bool)
      requires Valid()
      modifies this`active, this`activeAdopted, this`failbackPending, this`aim, this`records, flap, router, router.kernel
      ensures Valid() && View() == Commit(cfg, old(View()), s, always, cmds)
    {
      hide Decide, CommitKeep, CommitSwitch, Config.Valid;
      var d := Decide(SelectionInput(s.now, active, s.forced, s.views, s.failbackStable));
      failbackPending := PendingOf(d);
      ok := true;
      match d
      case Keep =>
        ok := ConfirmActive(always, cmds);
      case Switch(to, reason) =>
        ok := SwitchTo(to, reason, s.now, cmds);
      case _ =>
    }

    method ReconcileActive(now: int, always: bool, cmds: Commands) returns (ok: bool)
      requires Valid()
      modifies this`active, this`activeAdopted, this`failbackPending, this`aim, this`records, flap, router, router.kernel
      ensures Valid() && View() == Reconcile(cfg, old(View()), now, always, cmds)
    {
      var s := ReadSnapshot(now);
      ghost var e := View();
      ok := CommitSnapshot(s, always, cmds);
      ViewsCoverProviders(cfg, e);
      CommitIgnoresOrder(cfg, e, TakeSnapshot(cfg, e, now), s.views, always, cmds);
      assert TakeSnapshot(cfg, e, now).(views := s.views) == s;
    }

    /** Probe, then reconcile: one event of a sequential run. */
    method ProbeAndReconcile(name: string, answers: Answers, applied: int, now: int, cmds: Commands) returns (ok: bool)
      requires Valid()
      modifies this, flap, router, router.kernel
      ensures Valid() && View() == Step(cfg, old(View()), Probed(name, answers, applied, now, cmds))
    {
      HealthTick(name, answers, applied);
      ok := ReconcileActive(now, false, cmds);
    }

    method ForceTo(name: string, now: int, cmds: Commands) returns (ok: bool)
      requires Valid()
      modifies this, flap, router, router.kernel
      ensures Valid() && View() == Step(cfg, old(View()), ForceProvider(name, now, cmds))
      ensures storedPin == if name in old(providers) then Some(name) else old(storedPin)
    {
      if name !in providers {
        return false;
      }
      forceOverride := Some(name);
      storedPin := Some(name);
      ok := ReconcileActive(now, true, cmds);
    }

    method ReleaseForce(now: int, cmds: Commands) returns (ok: bool)
      requires Valid()
      modifies this, flap, router, router.kernel
      ensures Valid() && View() == Step(cfg, old(View()), ClearForce(now, cmds))
      ensures storedPin == None
    {
      forceOverride := None;
      storedPin := None;
      ok := ReconcileActive(now, true, cmds);
    }

    /** Every default is looked at: is ours there, and does a rival sit at metric 0? */
    method CheckListing(listing: seq<InstalledRoute>, gateway: Address, interface: string) returns (alarmed: bool)
      ensures alarmed == TwoPhase.Alarmed(listing, gateway, interface)
    {
      var oursPresent, rival := false, false;
      for k := 0 to |listing|
        invariant oursPresent <==> exists j | 0 <= j < k :: listing[j].Leads(gateway, interface)
        invariant rival <==> exists j | 0 <= j < k :: listing[j].EffectiveMetric() == 0 && !listing[j].Leads(gateway, interface)
      {
        if listing[k].Leads(gateway, interface) {
          oursPresent := true;
        } else if listing[k].EffectiveMetric() == 0 {
          rival := true;
        }
      }
      alarmed := !oursPresent || rival;
    }

    /** One tick of the route watchdog, under the lock on `active`. */
    method WatchRoute(at: int, readable: bool, sh: Shell)
      requires Valid()
      modifies this`records, router, router.kernel
      ensures Valid() && View() == TwoPhase.WatchdogTick(cfg, old(View()), at, readable, sh)
    {
      hide InstallDefault, TwoPhase.Alarmed, Listed, Config.Valid;
      if active.None? || active.value !in providers || !readable {
        return;
      }
      var expected := cfg.of[active.value];
      var alarmed := CheckListing(Listed(router.kernel.routes), expected.gateway, expected.interface);
      if !alarmed {
        return;
      }
      var ok := router.SetDefaultRoute(expected.gateway, expected.interface, sh);
      if ok {
        records := records + [Record(at, active, active.value, RouteWatchdog)];
      } else {
        FailedInstallChangesNothing(old(router.kernel.routes), old(router.ownsBootstrap), expected.gateway, expected.interface, sh);
      }
    }
  }
}
