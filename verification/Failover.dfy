/**
 The failover engine as a value: what probes, operator commands, reconciling and the watchdog do to
 it (`src/core/balancer.rs`). `Balancer` is the class that does it in place.
 */
module Failover {
  import opened Basics
  import opened Orderings
  import opened Selection
  import opened HealthMachine
  import opened Layers
  import opened FlapDamping
  import opened Routing

  datatype ProviderConfig = ProviderConfig(priority: u32, gateway: Address, interface: string)

  /** Providers by name, with the order in which the configuration lists them; `pins` says whether connections are
      pinned. */
  datatype Config = Config(names: seq<string>, of: map<string, ProviderConfig>, checks: CheckConfig, flap: FlapConfig, pins: bool) {
    /** What validation guarantees here: unique names and priorities, positive thresholds, a cap no lower than the base. */
    ghost predicate Valid() {
      && (forall name :: name in names <==> name in of)
      && AllDiffer(names)
      && (forall a, b | a in of && b in of && a != b :: of[a].priority != of[b].priority)
      && checks.Valid() && flap.threshold >= 1 && flap.base <= flap.max
    }
  }

  datatype Cause = Selected(reason: Reason) | RouteWatchdog

  /** One row of the failover history. */
  datatype Record = Record(at: int, from: Option<string>, to: string, cause: Cause)

  datatype Pending = Pending(candidate: string, stableFor: nat, required: nat)

  datatype Engine = Engine(
    providers: map<string, Provider>,
    active: Option<string>,
    adopted: bool,
    forced: Option<string>,
    flap: seq<int>,
    failbackPending: Option<Pending>,
    table: seq<Route>,
    ownsBootstrap: bool,
    aim: Option<string>,
    records: seq<Record>)

  function PriorityOf(cfg: Config, name: string): nat {
    if name in cfg.of then cfg.of[name].priority else 0
  }

  function HealthOf(e: Engine, name: string): Health {
    if name in e.providers then e.providers[name].health else FRESH
  }

  predicate IsUpIn(e: Engine, name: string) {
    HealthOf(e, name).state == Up
  }

  function ViewOf(cfg: Config, e: Engine, name: string): ProviderView {
    ProviderView(name, PriorityOf(cfg, name), HealthOf(e, name).state, HealthOf(e, name).upSince)
  }

  /** The provider views, in configuration order. */
  function Views(cfg: Config, e: Engine): seq<ProviderView> {
    seq(|cfg.names|, k requires 0 <= k < |cfg.names| => ViewOf(cfg, e, cfg.names[k]))
  }

  // ── reconciling ───────────────────────────────────────────────────────

  /** What a reconciling task reads before it takes the lock on `active`. */
  datatype Snapshot = Snapshot(forced: Option<string>, now: int, failbackStable: nat, views: seq<ProviderView>)

  function TakeSnapshot(cfg: Config, e: Engine, now: int): Snapshot {
    Snapshot(e.forced, now, EffectiveFailback(e.flap, now, cfg.flap), Views(cfg, e))
  }

  /** How the commands of one reconcile fare: re-aiming the pin chain, confirming an adopted route, an operator's
      re-assertion, a switch. */
  datatype Commands = Commands(aimed: bool, confirm: Shell, reassert: Shell, switchOver: Shell) {
    predicate AllOk() {
      confirm.AllOk() && reassert.AllOk() && switchOver.AllOk()
    }
  }

  function Install(cfg: Config, e: Engine, name: string, sh: Shell): Engine {
    if name !in cfg.of then e
    else
      var (table, owns) := InstallDefault(e.table, e.ownsBootstrap, cfg.of[name].gateway, cfg.of[name].interface, sh);
      e.(table := table, ownsBootstrap := owns)
  }

  /** New connections are pinned to `name`, unless the chain could not be replaced. */
  function Aim(cfg: Config, e: Engine, name: string, aimed: bool): Engine {
    if cfg.pins && aimed then e.(aim := Some(name)) else e
  }

  function DecideOn(e: Engine, s: Snapshot): Decision {
    Decide(SelectionInput(s.now, e.active, s.forced, s.views, s.failbackStable))
  }

  function PendingOf(d: Decision): Option<Pending> {
    match d
    case WaitingForFailback(candidate, stableFor, required) => Some(Pending(candidate, stableFor, required))
    case _ => None
  }

  /** Confirm what is active; a failed command ends it early, after the adopted flag is already spent. */
  function CommitKeep(cfg: Config, e: Engine, always: bool, cmds: Commands): Engine {
    if e.active.None? || e.active.value !in cfg.of then e.(adopted := false)
    else
      var owned := Aim(cfg, e, e.active.value, cmds.aimed).(adopted := false);
      var confirmed := if e.adopted then Install(cfg, owned, e.active.value, cmds.confirm) else owned;
      if e.adopted && !cmds.confirm.replaceOk then confirmed
      else if always then Install(cfg, confirmed, e.active.value, cmds.reassert)
      else confirmed
  }

  /** The pin chain is aimed before the route moves, and stays so when the route then does not move. */
  function CommitSwitch(cfg: Config, e: Engine, to: string, reason: Reason, at: int, cmds: Commands): Engine {
    if to !in cfg.of then e
    else
      var aimed := Aim(cfg, e, to, cmds.aimed);
      if !cmds.switchOver.replaceOk then aimed
      else
        var moved := Install(cfg, aimed, to, cmds.switchOver);
        moved.(active := Some(to), adopted := false,
               flap := if e.active.Some? then LastKept(e.flap + [at]) else e.flap,
               records := e.records + [Record(at, e.active, to, Selected(reason))])
  }

  /** The second half of a reconcile, under the lock on `active`, on a snapshot taken earlier. */
  function Commit(cfg: Config, e: Engine, s: Snapshot, always: bool, cmds: Commands): Engine {
    var d := DecideOn(e, s);
    var noted := e.(failbackPending := PendingOf(d));
    match d
    case Keep => CommitKeep(cfg, noted, always, cmds)
    case Switch(to, reason) => CommitSwitch(cfg, noted, to, reason, s.now, cmds)
    case _ => noted
  }

  function Reconcile(cfg: Config, e: Engine, now: int, always: bool, cmds: Commands): Engine {
    Commit(cfg, e, TakeSnapshot(cfg, e, now), always, cmds)
  }

  /** One round of one provider's health loop, short of the reconcile that follows it. */
  function ProbeProvider(cfg: Config, e: Engine, name: string, answers: Answers, now: int): Engine {
    if name in e.providers then
      e.(providers := e.providers[name := HealthRound(e.providers[name], answers, now, cfg.checks)])
    else e
  }

  /** Only the decision depends on the views, and the decision does not depend on their order. */
  lemma CommitIgnoresOrder(cfg: Config, e: Engine, s: Snapshot, shuffled: seq<ProviderView>, always: bool, cmds: Commands)
    requires Distinct(s.views) && SameProviders(s.views, shuffled)
    ensures Commit(cfg, e, s.(views := shuffled), always, cmds) == Commit(cfg, e, s, always, cmds)
  {
    hide Decide, CommitKeep, CommitSwitch;
    DecideIgnoresOrder(SelectionInput(s.now, e.active, s.forced, s.views, s.failbackStable), shuffled);
  }

  // ── starting up ───────────────────────────────────────────────────────

  function MatchingProvider(cfg: Config, names: seq<string>, r: InstalledRoute): Option<string> {
    if |names| == 0 then None
    else if names[0] in cfg.of && r.Leads(cfg.of[names[0]].gateway, cfg.of[names[0]].interface) then Some(names[0])
    else MatchingProvider(cfg, names[1..], r)
  }

  /** The provider whose route the previous run left installed at metric 0, if any. */
  function Adopt(cfg: Config, table: seq<Route>): Option<string> {
    match Preferred(Listed(table))
    case Some(r) => if r.EffectiveMetric() == 0 then MatchingProvider(cfg, cfg.names, r) else None
    case None => None
  }

  /** The engine after a start: the installed route adopted, a stored pin restored if still configured. */
  function Start(cfg: Config, table: seq<Route>, ownsBootstrap: bool, storedPin: Option<string>, history: seq<int>): Engine {
    var active := Adopt(cfg, table);
    Engine(map name | name in cfg.of :: FRESH_PROVIDER, active, active.Some?,
           if storedPin.Some? && storedPin.value in cfg.of then storedPin else None,
           LastKept(Sorted(history)), None, table, ownsBootstrap, None, [])
  }

  // ── the switch history in the database ────────────────────────────────

  /** A row that moved traffic: neither a first installation nor a repair of the same route. */
  predicate IsSwitch(r: Record) {
    r.from.Some? && r.from != Some(r.to)
  }

  function SwitchTimes(records: seq<Record>): seq<int> {
    if |records| == 0 then []
    else SwitchTimes(records[..|records| - 1]) + (if IsSwitch(records[|records| - 1]) then [records[|records| - 1].at] else [])
  }

  /** The switches among the rows from `cutoff` on, in the order of their rows. */
  function SelectedTimes(records: seq<Record>, cutoff: int): seq<int> {
    if |records| == 0 then []
    else
      var last := records[|records| - 1];
      SelectedTimes(records[..|records| - 1], cutoff) + (if last.at >= cutoff && IsSwitch(last) then [last.at] else [])
  }

  /** The query a start runs: the newest 256 of them, newest first. */
  function StoredSwitches(records: seq<Record>, cutoff: int): seq<int> {
    Reversed(LastKept(SelectedTimes(records, cutoff)))
  }

  lemma {:induction false} SelectedAreSince(records: seq<Record>, cutoff: int)
    ensures SelectedTimes(records, cutoff) == Since(SwitchTimes(records), cutoff)
  {
    if |records| != 0 {
      var init, last := records[..|records| - 1], records[|records| - 1];
      SelectedAreSince(init, cutoff);
      SinceAppend(SwitchTimes(init), last.at, cutoff);
      assert SwitchTimes(init) + [] == SwitchTimes(init) && SelectedTimes(init, cutoff) + [] == SelectedTimes(init, cutoff);
    }
  }

  lemma {:induction false} SwitchTimesConcat(a: seq<Record>, b: seq<Record>)
    ensures SwitchTimes(a + b) == SwitchTimes(a) + SwitchTimes(b)
  {
    if |b| == 0 {
      assert a + b == a;
    } else {
      assert (a + b)[..|a + b| - 1] == a + b[..|b| - 1];
      SwitchTimesConcat(a, b[..|b| - 1]);
    }
  }

  // ── sequential runs ───────────────────────────────────────────────────

  /** A probe round or an operator command, each followed by a reconcile at `now`. */
  datatype Event =
    | Probed(name: string, answers: Answers, applied: int, now: int, cmds: Commands)
    | ForceProvider(name: string, now: int, cmds: Commands)
    | ClearForce(now: int, cmds: Commands)

  /** The engine the reconcile of `ev` looks at; `None` when the command is refused. */
  function BeforeReconcile(cfg: Config, e: Engine, ev: Event): Option<Engine> {
    match ev
    case Probed(name, answers, applied, _, _) => Some(ProbeProvider(cfg, e, name, answers, applied))
    case ForceProvider(name, _, _) => if name in e.providers then Some(e.(forced := Some(name))) else None
    case ClearForce(_, _) => Some(e.(forced := None))
  }

  function Step(cfg: Config, e: Engine, ev: Event): Engine {
    match BeforeReconcile(cfg, e, ev)
    case None => e
    case Some(ready) => Reconcile(cfg, ready, ev.now, !ev.Probed?, ev.cmds)
  }

  function Run(cfg: Config, e: Engine, events: seq<Event>): Engine {
    if |events| == 0 then e
    else Step(cfg, Run(cfg, e, events[..|events| - 1]), events[|events| - 1])
  }

  // ── what every step keeps ─────────────────────────────────────────────

  ghost predicate Inv(cfg: Config, e: Engine) {
    && e.providers.Keys == cfg.of.Keys
    && (e.active.Some? ==> e.active.value in cfg.of)
    && (e.active.Some? && HealthOf(e, e.active.value).state == Unknown ==> e.adopted)
    && (forall name | name in e.providers :: e.providers[name].health.state == Up <==> e.providers[name].health.upSince.Some?)
  }

  lemma ViewsCoverProviders(cfg: Config, e: Engine)
    requires cfg.Valid()
    ensures forall v | v in Views(cfg, e) :: v.name in cfg.of && v == ViewOf(cfg, e, v.name)
    ensures forall name | name in cfg.of :: ViewOf(cfg, e, name) in Views(cfg, e)
    ensures Distinct(Views(cfg, e))
  {
    var vs := Views(cfg, e);
    forall v | v in vs ensures v.name in cfg.of && v == ViewOf(cfg, e, v.name) {
      var k :| 0 <= k < |vs| && vs[k] == v;
      assert cfg.names[k] in cfg.names;
    }
    forall name | name in cfg.of ensures ViewOf(cfg, e, name) in vs {
      var k :| 0 <= k < |cfg.names| && cfg.names[k] == name;
      assert vs[k] == ViewOf(cfg, e, name);
    }
  }

  function DecisionAt(cfg: Config, e: Engine, now: int): Decision {
    DecideOn(e, TakeSnapshot(cfg, e, now))
  }

  ghost predicate Outranks(cfg: Config, e: Engine, name: string) {
    name in cfg.of && forall other | other in cfg.of && IsUpIn(e, other) :: cfg.of[name].priority <= cfg.of[other].priority
  }

  /** Whoever is kept or switched to is up; without a pin a switch goes to a provider nothing up outranks. */
  lemma DecisionPicksUp(cfg: Config, e: Engine, now: int)
    requires cfg.Valid()
    ensures var d := DecisionAt(cfg, e, now);
            && (d.Keep? ==> e.active.Some? && e.active.value in cfg.of && IsUpIn(e, e.active.value))
            && (d.Switch? ==> d.to in cfg.of && IsUpIn(e, d.to) && e.active != Some(d.to))
            && (d.Switch? && e.forced.None? ==> Outranks(cfg, e, d.to))
  {
    hide Decide, EffectiveFailback, Views;
    ViewsCoverProviders(cfg, e);
    var s := TakeSnapshot(cfg, e, now);
    DecisionMeaning(SelectionInput(s.now, e.active, s.forced, s.views, s.failbackStable));
    var d := DecisionAt(cfg, e, now);
    if d.Switch? && e.forced.None? {
      var p :| Least(s.views, p) && p.name == d.to;
      forall other | other in cfg.of && IsUpIn(e, other) ensures cfg.of[d.to].priority <= cfg.of[other].priority {
        assert ViewOf(cfg, e, other) in s.views;
        assert CompareRank(p, ViewOf(cfg, e, other)) != Greater;
      }
    }
  }

  /** A failback leaves a healthy provider for a better one that has been up for the window. */
  lemma FailbackMeaning(cfg: Config, e: Engine, now: int, r: string)
    requires cfg.Valid()
    requires DecisionAt(cfg, e, now) == Switch(r, Failback)
    ensures r in cfg.of && IsUpIn(e, r) && e.forced.None?
    ensures e.active.Some? && e.active.value in cfg.of && cfg.of[r].priority < cfg.of[e.active.value].priority
    ensures HealthOf(e, r).upSince.Some?
    ensures now - HealthOf(e, r).upSince.value >= ChronoSpan(EffectiveFailback(e.flap, now, cfg.flap))
  {
    ViewsCoverProviders(cfg, e);
    var s := TakeSnapshot(cfg, e, now);
    var i := SelectionInput(s.now, e.active, s.forced, s.views, s.failbackStable);
    FailbackExactly(i, r);
    var c, p :| FailbackDue(i, c, p) && p.name == r;
  }

  lemma ProbeKeepsSane(p: Provider, answers: Answers, now: int, checks: CheckConfig)
    requires p.health.state == Up <==> p.health.upSince.Some?
    ensures var next := HealthRound(p, answers, now, checks).health;
            && (next.state == Up <==> next.upSince.Some?)
            && (next.state == Unknown ==> p.health.state == Unknown)
            && (next.state == Up && (p.health.state != Up || next.upSince != p.health.upSince) ==> next.upSince == Some(now))
  {
  }

  lemma ProbeKeepsInv(cfg: Config, e: Engine, name: string, answers: Answers, now: int)
    requires Inv(cfg, e)
    ensures Inv(cfg, ProbeProvider(cfg, e, name, answers, now))
  {
    hide HealthRound;
    if name in e.providers {
      ProbeKeepsSane(e.providers[name], answers, now, cfg.checks);
    }
  }

  lemma StartKeepsInv(cfg: Config, table: seq<Route>, ownsBootstrap: bool, storedPin: Option<string>, history: seq<int>)
    ensures Inv(cfg, Start(cfg, table, ownsBootstrap, storedPin, history))
  {
    var r := Preferred(Listed(table));
    if r.Some? {
      MatchIsConfigured(cfg, cfg.names, r.value);
    }
  }

  lemma {:induction false} MatchIsConfigured(cfg: Config, names: seq<string>, r: InstalledRoute)
    ensures MatchingProvider(cfg, names, r).Some? ==> MatchingProvider(cfg, names, r).value in cfg.of
  {
    if |names| != 0 {
      MatchIsConfigured(cfg, names[1..], r);
    }
  }

  /** The effect of one reconcile on what matters between steps. */
  ghost predicate Reconciled(cfg: Config, e: Engine, d: Decision, now: int, switchOk: bool, next: Engine) {
    && next.providers == e.providers && next.forced == e.forced
    && (if d.Switch? && switchOk && d.to in cfg.of
        then next.active == Some(d.to) && !next.adopted && next.records == e.records + [Record(now, e.active, d.to, Selected(d.reason))]
        else next.active == e.active && next.records == e.records && next.adopted == (e.adopted && !d.Keep?))
  }

  lemma InstallKeepsRest(cfg: Config, e: Engine, name: string, sh: Shell)
    ensures var next := Install(cfg, e, name, sh);
            next == e.(table := next.table, ownsBootstrap := next.ownsBootstrap)
  {
    hide InstallDefault;
  }

  lemma KeepEffect(cfg: Config, e: Engine, always: bool, cmds: Commands)
    ensures var next := CommitKeep(cfg, e, always, cmds);
            next == e.(table := next.table, ownsBootstrap := next.ownsBootstrap, aim := next.aim, adopted := false)
  {
    hide Install;
    if e.active.Some? {
      var owned := Aim(cfg, e, e.active.value, cmds.aimed).(adopted := false);
      InstallKeepsRest(cfg, owned, e.active.value, cmds.confirm);
      InstallKeepsRest(cfg, owned, e.active.value, cmds.reassert);
      InstallKeepsRest(cfg, Install(cfg, owned, e.active.value, cmds.confirm), e.active.value, cmds.reassert);
    }
  }

  lemma SwitchEffect(cfg: Config, e: Engine, to: string, reason: Reason, at: int, cmds: Commands)
    ensures var next := CommitSwitch(cfg, e, to, reason, at, cmds);
            if to in cfg.of && cmds.switchOver.replaceOk then
              next == e.(table := next.table, ownsBootstrap := next.ownsBootstrap, aim := next.aim, flap := next.flap,
                         active := Some(to), adopted := false, records := e.records + [Record(at, e.active, to, Selected(reason))])
            else next == e.(aim := next.aim)
  {
    hide Install, LastKept;
    InstallKeepsRest(cfg, Aim(cfg, e, to, cmds.aimed), to, cmds.switchOver);
  }

  lemma CommitEffect(cfg: Config, e: Engine, s: Snapshot, always: bool, cmds: Commands)
    ensures Reconciled(cfg, e, DecideOn(e, s), s.now, cmds.switchOver.replaceOk, Commit(cfg, e, s, always, cmds))
  {
    hide Decide, CommitKeep, CommitSwitch;
    var d := DecideOn(e, s);
    var noted := e.(failbackPending := PendingOf(d));
    KeepEffect(cfg, noted, always, cmds);
    if d.Switch? {
      SwitchEffect(cfg, noted, d.to, d.reason, s.now, cmds);
    }
  }

  lemma ReconcileKeepsInv(cfg: Config, e: Engine, now: int, always: bool, cmds: Commands)
    requires cfg.Valid() && Inv(cfg, e)
    ensures Inv(cfg, Reconcile(cfg, e, now, always, cmds))
    ensures Reconciled(cfg, e, DecisionAt(cfg, e, now), now, cmds.switchOver.replaceOk, Reconcile(cfg, e, now, always, cmds))
  {
    hide Decide, InstallDefault, Commit, Views, EffectiveFailback;
    CommitEffect(cfg, e, TakeSnapshot(cfg, e, now), always, cmds);
    DecisionPicksUp(cfg, e, now);
  }

  lemma StepKeepsInv(cfg: Config, e: Engine, ev: Event)
    requires cfg.Valid() && Inv(cfg, e)
    ensures Inv(cfg, Step(cfg, e, ev))
    ensures var ready := BeforeReconcile(cfg, e, ev);
            ready.Some? ==>
              && Inv(cfg, ready.value)
              && Reconciled(cfg, ready.value, DecisionAt(cfg, ready.value, ev.now), ev.now, ev.cmds.switchOver.replaceOk, Step(cfg, e, ev))
  {
    hide Reconcile, ProbeProvider, DecisionAt;
    if ev.Probed? {
      ProbeKeepsInv(cfg, e, ev.name, ev.answers, ev.applied);
    }
    var ready := BeforeReconcile(cfg, e, ev);
    if ready.Some? {
      ReconcileKeepsInv(cfg, ready.value, ev.now, !ev.Probed?, ev.cmds);
    }
  }

  lemma {:induction false} RunKeepsInv(cfg: Config, e: Engine, events: seq<Event>)
    requires cfg.Valid() && Inv(cfg, e)
    ensures Inv(cfg, Run(cfg, e, events))
  {
    hide Step, Inv;
    if |events| != 0 {
      RunKeepsInv(cfg, e, events[..|events| - 1]);
      StepKeepsInv(cfg, Run(cfg, e, events[..|events| - 1]), events[|events| - 1]);
    }
  }

  // ── safety after every step ───────────────────────────────────────────

  /** Nothing is active because a provider better than every healthy one has no verdict yet. */
  ghost predicate AwaitsBetter(cfg: Config, e: Engine, u: string) {
    && u in cfg.of && HealthOf(e, u).state == Unknown
    && forall name | name in cfg.of && IsUpIn(e, name) :: cfg.of[u].priority < cfg.of[name].priority
  }

  /** Traffic is on a healthy provider whenever there is one, save for the two waits of a start;
      and a healthy pin is always obeyed. */
  ghost predicate Safe(cfg: Config, e: Engine) {
    && ((exists name | name in cfg.of :: IsUpIn(e, name)) ==>
          if e.active.Some? then
            IsUpIn(e, e.active.value) || (e.adopted && HealthOf(e, e.active.value).state == Unknown && e.forced.None?)
          else e.forced.None? && exists u :: AwaitsBetter(cfg, e, u))
    && (e.forced.Some? && e.forced.value in cfg.of && IsUpIn(e, e.forced.value) ==> e.active == e.forced)
  }

  /** The decision, case by case, when something is up. */
  lemma DecisionCovers(cfg: Config, e: Engine, now: int, name: string)
    requires cfg.Valid() && Inv(cfg, e) && name in cfg.of && IsUpIn(e, name)
    ensures var d := DecisionAt(cfg, e, now);
            match d
            case Keep => true
            case Switch(_, _) => true
            case NoHealthyProvider => false
            case WaitingForVerdict(_, _) => e.forced.None? && e.active.Some? && HealthOf(e, e.active.value).state == Unknown
            case WaitingForFailback(_, _, _) => e.forced.None? && e.active.Some? && IsUpIn(e, e.active.value)
            case WaitingForFirstVerdict(u, _) => e.forced.None? && e.active.None? && AwaitsBetter(cfg, e, u)
  {
    hide Decide, EffectiveFailback, Views, Config.Valid;
    ViewsCoverProviders(cfg, e);
    var s := TakeSnapshot(cfg, e, now);
    DecisionMeaning(SelectionInput(s.now, e.active, s.forced, s.views, s.failbackStable));
    assert ViewOf(cfg, e, name) in s.views;
    if DecisionAt(cfg, e, now).WaitingForFirstVerdict? {
      forall other | other in cfg.of && IsUpIn(e, other)
        ensures cfg.of[DecisionAt(cfg, e, now).pending].priority < cfg.of[other].priority
      {
        assert ViewOf(cfg, e, other) in s.views;
      }
    }
  }

  lemma PinIsObeyed(cfg: Config, e: Engine, now: int)
    requires cfg.Valid() && e.forced.Some? && e.forced.value in cfg.of && IsUpIn(e, e.forced.value)
    ensures DecisionAt(cfg, e, now) == if e.active == e.forced then Keep else Switch(e.forced.value, OperatorOverride)
  {
    ViewsCoverProviders(cfg, e);
    assert ViewOf(cfg, e, e.forced.value) in TakeSnapshot(cfg, e, now).views;
  }

  lemma ReconcileIsSafe(cfg: Config, e: Engine, now: int, always: bool, cmds: Commands)
    requires cfg.Valid() && Inv(cfg, e) && cmds.AllOk()
    ensures Safe(cfg, Reconcile(cfg, e, now, always, cmds))
  {
    hide Reconcile, DecisionAt, Config.Valid;
    ReconcileKeepsInv(cfg, e, now, always, cmds);
    DecisionPicksUp(cfg, e, now);
    var next := Reconcile(cfg, e, now, always, cmds);
    if exists name | name in cfg.of :: IsUpIn(next, name) {
      var name :| name in cfg.of && IsUpIn(next, name);
      DecisionCovers(cfg, e, now, name);
      if DecisionAt(cfg, e, now).WaitingForFirstVerdict? {
        assert AwaitsBetter(cfg, next, DecisionAt(cfg, e, now).pending);
      }
    }
    if e.forced.Some? && e.forced.value in cfg.of && IsUpIn(e, e.forced.value) {
      PinIsObeyed(cfg, e, now);
    }
  }

  /** In every run, after every step that reconciled and whose commands succeeded. */
  lemma EveryStepIsSafe(cfg: Config, e: Engine, events: seq<Event>, ev: Event)
    requires cfg.Valid() && Inv(cfg, e) && ev.cmds.AllOk()
    requires ev.ForceProvider? ==> ev.name in cfg.of
    ensures Safe(cfg, Run(cfg, e, events + [ev]))
  {
    hide Reconcile, DecisionAt, Config.Valid, Safe, ProbeProvider;
    assert (events + [ev])[..|events|] == events;
    RunKeepsInv(cfg, e, events);
    var before := Run(cfg, e, events);
    StepKeepsInv(cfg, before, ev);
    ReconcileIsSafe(cfg, BeforeReconcile(cfg, before, ev).value, ev.now, !ev.Probed?, ev.cmds);
  }

  /** Some prefix of the run ended with this provider up. */
  ghost predicate SeenUp(cfg: Config, e: Engine, events: seq<Event>, name: string) {
    exists k | 0 <= k <= |events| :: IsUpIn(Run(cfg, e, events[..k]), name)
  }

  lemma SeenUpGrows(cfg: Config, e: Engine, events: seq<Event>, name: string)
    requires |events| != 0 && SeenUp(cfg, e, events[..|events| - 1], name)
    ensures SeenUp(cfg, e, events, name)
  {
    hide Run;
    var init := events[..|events| - 1];
    var k :| 0 <= k <= |init| && IsUpIn(Run(cfg, e, init[..k]), name);
    assert events[..k] == init[..k];
  }

  /** Once the active provider no longer counts as adopted, this process has itself seen it up. */
  lemma {:induction false} OwnedMeansSeenUp(cfg: Config, e: Engine, events: seq<Event>)
    requires cfg.Valid() && Inv(cfg, e)
    requires e.active.Some? ==> e.adopted
    ensures var now := Run(cfg, e, events);
            !now.adopted && now.active.Some? ==> SeenUp(cfg, e, events, now.active.value)
  {
    hide Step, DecisionAt, Config.Valid, SeenUp, Inv, BeforeReconcile;
    if |events| != 0 {
      var init, ev := events[..|events| - 1], events[|events| - 1];
      OwnedMeansSeenUp(cfg, e, init);
      RunKeepsInv(cfg, e, init);
      OwnedStep(cfg, Run(cfg, e, init), ev);
      var after := Run(cfg, e, events);
      if !after.adopted && after.active.Some? {
        if IsUpIn(after, after.active.value) {
          SeenUpNow(cfg, e, events, after.active.value);
        } else {
          SeenUpGrows(cfg, e, events, after.active.value);
        }
      }
    }
  }

  lemma SeenUpNow(cfg: Config, e: Engine, events: seq<Event>, name: string)
    requires IsUpIn(Run(cfg, e, events), name)
    ensures SeenUp(cfg, e, events, name)
  {
    hide Run;
    assert events[..|events|] == events;
  }

  lemma OwnedStep(cfg: Config, e: Engine, ev: Event)
    requires cfg.Valid() && Inv(cfg, e)
    ensures var next := Step(cfg, e, ev);
            !next.adopted && next.active.Some? && !IsUpIn(next, next.active.value) ==>
              !e.adopted && next.active == e.active
  {
    hide Reconcile, DecisionAt, Config.Valid, Inv, ProbeProvider;
    StepKeepsInv(cfg, e, ev);
    var ready := BeforeReconcile(cfg, e, ev);
    if ready.Some? {
      DecisionPicksUp(cfg, ready.value, ev.now);
      ReadyIsSameChoice(cfg, e, ev);
    }
  }

  lemma ReadyIsSameChoice(cfg: Config, e: Engine, ev: Event)
    requires BeforeReconcile(cfg, e, ev).Some?
    ensures var ready := BeforeReconcile(cfg, e, ev).value;
            && ready.active == e.active && ready.adopted == e.adopted && ready.flap == e.flap
            && ready.records == e.records && ready.table == e.table
            && (!ev.ForceProvider? && e.forced.None? ==> ready.forced.None?)
  {
    hide HealthRound;
  }

  // ── failbacks are spaced out ──────────────────────────────────────────

  /** The step made a failback switch to `r`. */
  predicate FailsBack(cfg: Config, e: Engine, ev: Event, r: string) {
    match BeforeReconcile(cfg, e, ev)
    case None => false
    case Some(ready) => DecisionAt(cfg, ready, ev.now) == Switch(r, Failback) && ev.cmds.switchOver.replaceOk
  }

  /** The failback window in force when `ev` reconciled. */
  function WindowAt(cfg: Config, e: Engine, ev: Event): nat {
    EffectiveFailback(e.flap, ev.now, cfg.flap)
  }

  /** Since `t`: `r` is out, or recovered after `t`, or has not been outranked by what is active. */
  ghost predicate HeldSince(cfg: Config, e: Engine, r: string, t: int) {
    || !IsUpIn(e, r)
    || (HealthOf(e, r).upSince.Some? && HealthOf(e, r).upSince.value >= t)
    || (e.active.Some? && PriorityOf(cfg, e.active.value) <= PriorityOf(cfg, r))
  }

  /** The first instant at which the event does anything. */
  function Begins(ev: Event): int {
    if ev.Probed? then ev.applied else ev.now
  }

  lemma ReadyKeepsHeld(cfg: Config, e: Engine, ev: Event, r: string, t: int)
    requires Inv(cfg, e) && Begins(ev) >= t && HeldSince(cfg, e, r, t)
    requires BeforeReconcile(cfg, e, ev).Some?
    ensures HeldSince(cfg, BeforeReconcile(cfg, e, ev).value, r, t)
  {
    hide HealthRound;
    if ev.Probed? && ev.name in e.providers {
      ProbeKeepsSane(e.providers[ev.name], ev.answers, ev.applied, cfg.checks);
    }
  }

  lemma StepKeepsHeld(cfg: Config, e: Engine, ev: Event, r: string, t: int)
    requires cfg.Valid() && Inv(cfg, e) && e.forced.None? && !ev.ForceProvider? && r in cfg.of
    requires Begins(ev) >= t && HeldSince(cfg, e, r, t)
    ensures HeldSince(cfg, Step(cfg, e, ev), r, t) && Step(cfg, e, ev).forced.None?
  {
    hide Reconcile, DecisionAt, Config.Valid, Inv, ProbeProvider;
    StepKeepsInv(cfg, e, ev);
    ReadyKeepsHeld(cfg, e, ev, r, t);
    ReadyIsSameChoice(cfg, e, ev);
    DecisionPicksUp(cfg, BeforeReconcile(cfg, e, ev).value, ev.now);
  }

  /** Coming back to `r` while held since `t` takes the whole window, counted from `t`. */
  lemma FailbackWaited(cfg: Config, e: Engine, ev: Event, r: string, t: int)
    requires cfg.Valid() && Inv(cfg, e) && Begins(ev) >= t && HeldSince(cfg, e, r, t)
    requires FailsBack(cfg, e, ev, r)
    ensures ev.now - t >= ChronoSpan(WindowAt(cfg, e, ev))
  {
    hide DecisionAt, Config.Valid, Inv, ProbeProvider, EffectiveFailback;
    ReadyKeepsHeld(cfg, e, ev, r, t);
    ReadyIsSameChoice(cfg, e, ev);
    FailbackMeaning(cfg, BeforeReconcile(cfg, e, ev).value, ev.now, r);
  }

  /** Right after a failback to `r` the provider is held. */
  lemma FailbackHolds(cfg: Config, e: Engine, ev: Event, r: string)
    requires cfg.Valid() && Inv(cfg, e) && FailsBack(cfg, e, ev, r)
    ensures r in cfg.of && HeldSince(cfg, Step(cfg, e, ev), r, ev.now)
  {
    hide Reconcile, DecisionAt, Config.Valid, Inv, ProbeProvider;
    StepKeepsInv(cfg, e, ev);
    DecisionPicksUp(cfg, BeforeReconcile(cfg, e, ev).value, ev.now);
  }

  lemma Unpinned(cfg: Config, e: Engine, ev: Event)
    requires cfg.Valid() && Inv(cfg, e) && e.forced.None? && !ev.ForceProvider?
    ensures Step(cfg, e, ev).forced.None?
  {
    hide Reconcile, DecisionAt, Config.Valid, Inv, ProbeProvider;
    StepKeepsInv(cfg, e, ev);
    ReadyIsSameChoice(cfg, e, ev);
  }

  /** A run without a pin, on a clock that never runs backwards. */
  ghost predicate PinFreeRun(cfg: Config, e: Engine, events: seq<Event>) {
    && cfg.Valid() && Inv(cfg, e) && e.forced.None?
    && (forall k | 0 <= k < |events| :: !events[k].ForceProvider? && Begins(events[k]) <= events[k].now)
    && (forall j, k | 0 <= j < k < |events| :: events[j].now <= Begins(events[k]))
  }

  predicate FailsBackAt(cfg: Config, e: Engine, events: seq<Event>, k: nat, r: string)
    requires k < |events|
  {
    FailsBack(cfg, Run(cfg, e, events[..k]), events[k], r)
  }

  lemma RunStep(cfg: Config, e: Engine, events: seq<Event>, k: nat)
    requires k < |events|
    ensures Run(cfg, e, events[..k + 1]) == Step(cfg, Run(cfg, e, events[..k]), events[k])
  {
    hide Step;
    assert events[..k + 1][..k] == events[..k];
  }

  lemma {:induction false} StaysUnpinned(cfg: Config, e: Engine, events: seq<Event>, k: nat)
    requires PinFreeRun(cfg, e, events) && k <= |events|
    ensures Inv(cfg, Run(cfg, e, events[..k])) && Run(cfg, e, events[..k]).forced.None?
  {
    hide Step, Inv, Config.Valid;
    RunKeepsInv(cfg, e, events[..k]);
    if k != 0 {
      StaysUnpinned(cfg, e, events, k - 1);
      RunStep(cfg, e, events, k - 1);
      Unpinned(cfg, Run(cfg, e, events[..k - 1]), events[k - 1]);
    }
  }

  lemma {:induction false} HeldUntil(cfg: Config, e: Engine, events: seq<Event>, r: string, j: nat, k: nat)
    requires PinFreeRun(cfg, e, events) && j < k <= |events| && FailsBackAt(cfg, e, events, j, r)
    ensures r in cfg.of && HeldSince(cfg, Run(cfg, e, events[..k]), r, events[j].now)
  {
    hide Step, Inv, Config.Valid, FailsBack, HeldSince, Run;
    StaysUnpinned(cfg, e, events, k - 1);
    RunStep(cfg, e, events, k - 1);
    if k - 1 == j {
      FailbackHolds(cfg, Run(cfg, e, events[..j]), events[j], r);
    } else {
      HeldUntil(cfg, e, events, r, j, k - 1);
      StepKeepsHeld(cfg, Run(cfg, e, events[..k - 1]), events[k - 1], r, events[j].now);
    }
  }

  /** In every pin-free run, two failbacks to one provider are at least the later one's window apart. */
  lemma FailbacksAreSpaced(cfg: Config, e: Engine, events: seq<Event>, r: string, j: nat, k: nat)
    requires PinFreeRun(cfg, e, events) && j < k < |events|
    requires FailsBackAt(cfg, e, events, j, r) && FailsBackAt(cfg, e, events, k, r)
    ensures events[k].now - events[j].now >= ChronoSpan(WindowAt(cfg, Run(cfg, e, events[..k]), events[k]))
  {
    hide Step, Inv, Config.Valid, FailsBack, HeldSince, Run, WindowAt;
    StaysUnpinned(cfg, e, events, k);
    HeldUntil(cfg, e, events, r, j, k);
    FailbackWaited(cfg, Run(cfg, e, events[..k]), events[k], r, events[j].now);
  }

  /** The instants at which the first `n` steps failed back to `r`. */
  function Failbacks(cfg: Config, e: Engine, events: seq<Event>, n: nat, r: string): seq<int>
    requires n <= |events|
  {
    if n == 0 then []
    else Failbacks(cfg, e, events, n - 1, r) + (if FailsBackAt(cfg, e, events, n - 1, r) then [events[n - 1].now] else [])
  }

  /** The shortest wait any flap history can produce. */
  function ShortestWindow(cfg: Config): nat {
    Min(cfg.flap.base, cfg.flap.max)
  }

  lemma WindowIsLongEnough(cfg: Config, e: Engine, ev: Event)
    requires cfg.flap.max <= CHRONO_MAX
    ensures ChronoSpan(WindowAt(cfg, e, ev)) >= ShortestWindow(cfg)
  {
    hide WindowFor, CountSince, Pow2;
    WindowIsCappedDoubling(CountSince(e.flap, ev.now - ChronoSpan(cfg.flap.window)), cfg.flap);
  }

  lemma {:induction false} LastFailback(cfg: Config, e: Engine, events: seq<Event>, n: nat, r: string) returns (k: nat)
    requires n <= |events| && |Failbacks(cfg, e, events, n, r)| != 0
    ensures var ts := Failbacks(cfg, e, events, n, r);
            k < n && FailsBackAt(cfg, e, events, k, r) && events[k].now == ts[|ts| - 1]
  {
    hide FailsBackAt;
    if FailsBackAt(cfg, e, events, n - 1, r) {
      k := n - 1;
    } else {
      k := LastFailback(cfg, e, events, n - 1, r);
    }
  }

  lemma {:induction false} FailbacksTakeTime(cfg: Config, e: Engine, events: seq<Event>, n: nat, r: string)
    requires PinFreeRun(cfg, e, events) && n <= |events| && cfg.flap.max <= CHRONO_MAX
    ensures var ts := Failbacks(cfg, e, events, n, r);
            |ts| != 0 ==> (|ts| - 1) * ShortestWindow(cfg) <= ts[|ts| - 1] - ts[0]
  {
    hide Step, Inv, Config.Valid, FailsBackAt, Run, WindowAt, ChronoSpan, PinFreeRun;
    if n != 0 {
      FailbacksTakeTime(cfg, e, events, n - 1, r);
      var before := Failbacks(cfg, e, events, n - 1, r);
      if |before| != 0 && FailsBackAt(cfg, e, events, n - 1, r) {
        var k := LastFailback(cfg, e, events, n - 1, r);
        FailbacksAreSpaced(cfg, e, events, r, k, n - 1);
        WindowIsLongEnough(cfg, Run(cfg, e, events[..n - 1]), events[n - 1]);
        OneMore(|before| - 1, ShortestWindow(cfg));
      }
    }
  }

  lemma OneMore(n: int, w: int)
    ensures (n + 1) * w == n * w + w
  {
  }

  /** Hence a pin-free run that spends time T between its first and last failback to a provider makes at
      most 1 + T / min(base, max) of them. */
  lemma FailbacksAreFew(cfg: Config, e: Engine, events: seq<Event>, r: string)
    requires PinFreeRun(cfg, e, events) && cfg.flap.max <= CHRONO_MAX && ShortestWindow(cfg) > 0
    ensures var ts := Failbacks(cfg, e, events, |events|, r);
            |ts| != 0 ==> |ts| <= 1 + (ts[|ts| - 1] - ts[0]) / ShortestWindow(cfg)
  {
    hide PinFreeRun, FailsBackAt;
    FailbacksTakeTime(cfg, e, events, |events|, r);
    var ts := Failbacks(cfg, e, events, |events|, r);
    if |ts| != 0 {
      QuotientBound(|ts| - 1, ShortestWindow(cfg), ts[|ts| - 1] - ts[0]);
    }
  }

  lemma QuotientBound(n: nat, w: nat, span: int)
    requires w > 0 && n * w <= span
    ensures n <= span / w
  {
    var short := n - span / w;
    assert span == (span / w) * w + span % w;
    assert short * w == n * w - (span / w) * w;
    AtLeastOne(short, w);
  }

  lemma AtLeastOne(k: int, w: nat)
    ensures k >= 1 ==> k * w >= w
  {
    if k >= 1 {
      assert k * w == w + (k - 1) * w;
    }
  }

  // ── the window in force, over whole runs and restarts ─────────────────

  lemma SwitchRow(r: Record, records: seq<Record>)
    ensures SwitchTimes(records + [r]) == if IsSwitch(r) then SwitchTimes(records) + [r.at] else SwitchTimes(records)
  {
    assert (records + [r])[..|records|] == records;
  }

  /** A commit on any snapshot counts a switch exactly when it writes one. */
  lemma CommitCountsSwitches(cfg: Config, e: Engine, s: Snapshot, always: bool, cmds: Commands, base: seq<int>)
    requires e.flap == LastKept(base + SwitchTimes(e.records))
    ensures var next := Commit(cfg, e, s, always, cmds);
            next.flap == LastKept(base + SwitchTimes(next.records))
  {
    hide Decide, InstallDefault, LastKept, SwitchTimes;
    DecisionMeaning(SelectionInput(s.now, e.active, s.forced, s.views, s.failbackStable));
    var d := DecideOn(e, s);
    if d.Switch? {
      SwitchRow(Record(s.now, e.active, d.to, Selected(d.reason)), e.records);
      DrainKeepsNewest(base + SwitchTimes(e.records), s.now);
      assert base + SwitchTimes(e.records) + [s.now] == base + (SwitchTimes(e.records) + [s.now]);
    }
  }

  /** Over any run the tracker holds the newest 256 of: what it started with, then every switch recorded. */
  lemma {:induction false} FlapFollowsRecords(cfg: Config, e: Engine, events: seq<Event>)
    requires |e.flap| <= KEPT && e.records == []
    ensures Run(cfg, e, events).flap == LastKept(e.flap + SwitchTimes(Run(cfg, e, events).records))
  {
    hide Commit, TakeSnapshot, LastKept, SwitchTimes, ProbeProvider;
    if |events| == 0 {
      NothingSwitched(e.flap);
    } else {
      var init, ev := events[..|events| - 1], events[|events| - 1];
      FlapFollowsRecords(cfg, e, init);
      var before := Run(cfg, e, init);
      var ready := BeforeReconcile(cfg, before, ev);
      if ready.Some? {
        ReadyIsSameChoice(cfg, before, ev);
        CommitCountsSwitches(cfg, ready.value, TakeSnapshot(cfg, ready.value, ev.now), !ev.Probed?, ev.cmds, e.flap);
      }
    }
  }

  lemma NothingSwitched(base: seq<int>)
    requires |base| <= KEPT
    ensures base == LastKept(base + SwitchTimes([]))
  {
    assert base + [] == base;
  }

  /** The clock at which events reconcile never runs backwards, and starts no earlier than `start`. */
  ghost predicate Forward(events: seq<Event>, start: int) {
    && (forall k | 0 <= k < |events| :: start <= events[k].now)
    && (forall j, k | 0 <= j < k < |events| :: events[j].now <= events[k].now)
  }

  function Latest(events: seq<Event>, start: int): int {
    if |events| == 0 then start else events[|events| - 1].now
  }

  /** Every element lies between the bounds, in order. */
  ghost predicate OrderedWithin(s: seq<int>, lo: int, hi: int) {
    NonDecreasing(s) && forall k | 0 <= k < |s| :: lo <= s[k] <= hi
  }

  lemma StepTimes(cfg: Config, e: Engine, ev: Event)
    ensures var before, after := SwitchTimes(e.records), SwitchTimes(Step(cfg, e, ev).records);
            after == before || after == before + [ev.now]
  {
    hide Commit, EffectiveFailback, Views, Decide, ProbeProvider, SwitchTimes;
    var ready := BeforeReconcile(cfg, e, ev);
    if ready.Some? {
      ReadyIsSameChoice(cfg, e, ev);
      var s := TakeSnapshot(cfg, ready.value, ev.now);
      CommitEffect(cfg, ready.value, s, !ev.Probed?, ev.cmds);
      var d := DecideOn(ready.value, s);
      if d.Switch? {
        SwitchRow(Record(ev.now, ready.value.active, d.to, Selected(d.reason)), ready.value.records);
      }
    }
  }

  lemma {:induction false} SwitchesAreForward(cfg: Config, e: Engine, events: seq<Event>, start: int)
    requires Forward(events, start) && e.records == []
    ensures OrderedWithin(SwitchTimes(Run(cfg, e, events).records), start, Latest(events, start))
  {
    hide Step, SwitchTimes;
    if |events| == 0 {
      assert SwitchTimes([]) == [] by { NothingSwitchedTimes(); }
    } else {
      var init, ev := events[..|events| - 1], events[|events| - 1];
      SwitchesAreForward(cfg, e, init, start);
      var before := Run(cfg, e, init);
      StepTimes(cfg, before, ev);
      if |init| != 0 {
        assert init[|init| - 1] == events[|events| - 2];
      }
      OneLater(SwitchTimes(before.records), start, Latest(init, start), ev.now);
    }
  }

  lemma NothingSwitchedTimes()
    ensures SwitchTimes([]) == []
  {
  }

  lemma OneLater(s: seq<int>, lo: int, hi: int, at: int)
    requires OrderedWithin(s, lo, hi) && lo <= hi <= at
    ensures OrderedWithin(s, lo, at) && OrderedWithin(s + [at], lo, at)
  {
    SortedAppend(s, at);
  }

  /** A daemon started over an earlier history of rows, on a clock that goes forward: after any run of events the
      failback window in force is the one that all switches ever recorded, before the start and since, would give. */
  lemma WindowCountsEverySwitch(cfg: Config, stored: seq<Record>, table: seq<Route>, ownsBootstrap: bool, pin: Option<string>,
                                start: int, events: seq<Event>, ev: Event)
    requires cfg.flap.threshold <= 240 && cfg.flap.window <= CHRONO_MAX
    requires Forward(events + [ev], start)
    requires NonDecreasing(SwitchTimes(stored)) && forall k | 0 <= k < |SwitchTimes(stored)| :: SwitchTimes(stored)[k] <= start
    ensures var e := Start(cfg, table, ownsBootstrap, pin, StoredSwitches(stored, start - cfg.flap.window));
            var now := Run(cfg, e, events);
            WindowAt(cfg, now, ev) == EffectiveFailback(SwitchTimes(stored + now.records), ev.now, cfg.flap)
  {
    hide Run, EffectiveFailback, SwitchTimes, StoredSince, Start, StoredSwitches, Sorted, LastKept, NonDecreasing;
    var restored := StoredSwitches(stored, start - cfg.flap.window);
    var e := Start(cfg, table, ownsBootstrap, pin, restored);
    var now := Run(cfg, e, events);
    var more := SwitchTimes(now.records);
    RestoredFlap(cfg, stored, table, ownsBootstrap, pin, start - cfg.flap.window);
    FlapFollowsRecords(cfg, e, events);
    ForwardPrefix(events, ev, start);
    SwitchesAreForward(cfg, e, events, start);
    ForwardJoin(SwitchTimes(stored), more, start, Latest(events, start));
    RestartKeepsBackoff(SwitchTimes(stored), start, more, ev.now, cfg.flap);
    SwitchTimesConcat(stored, now.records);
  }

  lemma RestoredFlap(cfg: Config, stored: seq<Record>, table: seq<Route>, ownsBootstrap: bool, pin: Option<string>, cutoff: int)
    ensures var e := Start(cfg, table, ownsBootstrap, pin, StoredSwitches(stored, cutoff));
            && e.flap == LastKept(Sorted(StoredSince(SwitchTimes(stored), cutoff)))
            && |e.flap| <= KEPT && e.records == []
  {
    hide SelectedTimes, Since, SwitchTimes, Sorted, Reversed, Adopt;
    SelectedAreSince(stored, cutoff);
  }

  lemma ForwardPrefix(events: seq<Event>, ev: Event, start: int)
    requires Forward(events + [ev], start)
    ensures Forward(events, start) && start <= ev.now
  {
    var all := events + [ev];
    assert all[|events|] == ev;
    forall j, k | 0 <= j < k < |events| ensures events[j].now <= events[k].now {
      assert all[j].now <= all[k].now;
    }
    forall k | 0 <= k < |events| ensures start <= events[k].now {
      assert start <= all[k].now;
    }
  }

  lemma ForwardJoin(a: seq<int>, b: seq<int>, mid: int, hi: int)
    requires NonDecreasing(a) && (forall k | 0 <= k < |a| :: a[k] <= mid) && OrderedWithin(b, mid, hi)
    ensures NonDecreasing(a + b)
  {
  }

  // ── where new connections are pinned ──────────────────────────────────

  /** After a reconcile that kept or switched, with the chain replaced, new connections are pinned to the active
      provider exactly when it did not try a switch that failed: the chain moves before the route does. */
  lemma AimMatchesExactly(cfg: Config, e: Engine, now: int, always: bool, cmds: Commands)
    requires cfg.Valid() && Inv(cfg, e) && cfg.pins && cmds.aimed
    requires DecisionAt(cfg, e, now).Keep? || DecisionAt(cfg, e, now).Switch?
    ensures var next := Reconcile(cfg, e, now, always, cmds);
            next.aim == next.active <==> DecisionAt(cfg, e, now).Keep? || cmds.switchOver.replaceOk
  {
    hide Decide, InstallDefault, Views, EffectiveFailback, Config.Valid, LastKept;
    DecisionPicksUp(cfg, e, now);
  }

  /** A later reconcile that keeps what is active mends it. */
  lemma {:induction false} AimFollowsKeep(cfg: Config, e: Engine, events: seq<Event>, ev: Event)
    requires cfg.Valid() && Inv(cfg, e) && cfg.pins && ev.cmds.aimed
    requires var ready := BeforeReconcile(cfg, Run(cfg, e, events), ev);
             ready.Some? && DecisionAt(cfg, ready.value, ev.now).Keep?
    ensures var now := Run(cfg, e, events + [ev]); now.aim == now.active
  {
    hide Decide, Reconcile, DecisionAt, Config.Valid, ProbeProvider, Inv;
    assert (events + [ev])[..|events|] == events;
    RunKeepsInv(cfg, e, events);
    StepKeepsInv(cfg, Run(cfg, e, events), ev);
    AimMatchesExactly(cfg, BeforeReconcile(cfg, Run(cfg, e, events), ev).value, ev.now, !ev.Probed?, ev.cmds);
  }

  /** Event `k` of the run reconciled to keeping or switching, and so re-aimed the chain. */
  ghost predicate Reaims(cfg: Config, e: Engine, events: seq<Event>, k: nat) {
    && k < |events|
    && var ready := BeforeReconcile(cfg, Run(cfg, e, events[..k]), events[k]);
       ready.Some? && (DecisionAt(cfg, ready.value, events[k].now).Keep? || DecisionAt(cfg, ready.value, events[k].now).Switch?)
  }

  /** Event `k` tried a switch whose route failed. */
  ghost predicate FailsToSwitch(cfg: Config, e: Engine, events: seq<Event>, k: nat) {
    && k < |events|
    && var ready := BeforeReconcile(cfg, Run(cfg, e, events[..k]), events[k]);
       ready.Some? && DecisionAt(cfg, ready.value, events[k].now).Switch? && !events[k].cmds.switchOver.replaceOk
  }

  /** The latest event that re-aimed the chain is one that failed to switch. */
  ghost predicate LastReaimFailed(cfg: Config, e: Engine, events: seq<Event>) {
    exists k: nat :: Reaims(cfg, e, events, k) && FailsToSwitch(cfg, e, events, k) && NoneReaims(cfg, e, events, k + 1)
  }

  ghost predicate NoneReaims(cfg: Config, e: Engine, events: seq<Event>, from: nat) {
    forall m: nat | from <= m < |events| :: !Reaims(cfg, e, events, m)
  }

  lemma EarlierEvent(cfg: Config, e: Engine, events: seq<Event>, k: nat)
    requires k < |events| - 1
    ensures Reaims(cfg, e, events, k) == Reaims(cfg, e, events[..|events| - 1], k)
    ensures FailsToSwitch(cfg, e, events, k) == FailsToSwitch(cfg, e, events[..|events| - 1], k)
  {
    hide Run, BeforeReconcile, DecisionAt;
    var init := events[..|events| - 1];
    assert init[..k] == events[..k] && init[k] == events[k];
  }

  lemma NoneReaimsOfPrefix(cfg: Config, e: Engine, events: seq<Event>, from: nat)
    requires |events| != 0 && from < |events|
    ensures var n := |events| - 1;
            NoneReaims(cfg, e, events, from) <==> !Reaims(cfg, e, events, n) && NoneReaims(cfg, e, events[..n], from)
  {
    hide Reaims, FailsToSwitch;
    var n := |events| - 1;
    if NoneReaims(cfg, e, events, from) {
      forall m: nat | from <= m < n ensures !Reaims(cfg, e, events[..n], m) {
        EarlierEvent(cfg, e, events, m);
      }
    }
    if !Reaims(cfg, e, events, n) && NoneReaims(cfg, e, events[..n], from) {
      forall m: nat | from <= m < |events| ensures !Reaims(cfg, e, events, m) {
        if m < n {
          EarlierEvent(cfg, e, events, m);
        }
      }
    }
  }

  lemma LatestReaim(cfg: Config, e: Engine, events: seq<Event>)
    requires |events| != 0
    ensures var n := |events| - 1;
            LastReaimFailed(cfg, e, events) <==>
            if Reaims(cfg, e, events, n) then FailsToSwitch(cfg, e, events, n) else LastReaimFailed(cfg, e, events[..n])
  {
    hide FailsToSwitch, Run, BeforeReconcile, DecisionAt;
    var n := |events| - 1;
    if LastReaimFailed(cfg, e, events) {
      var k: nat :| Reaims(cfg, e, events, k) && FailsToSwitch(cfg, e, events, k) && NoneReaims(cfg, e, events, k + 1);
      assert k <= n;
      if k < n {
        EarlierEvent(cfg, e, events, k);
        NoneReaimsOfPrefix(cfg, e, events, k + 1);
      }
    }
    if Reaims(cfg, e, events, n) {
      assert NoneReaims(cfg, e, events, n + 1);
    } else if LastReaimFailed(cfg, e, events[..n]) {
      var k: nat :| Reaims(cfg, e, events[..n], k) && FailsToSwitch(cfg, e, events[..n], k) && NoneReaims(cfg, e, events[..n], k + 1);
      EarlierEvent(cfg, e, events, k);
      NoneReaimsOfPrefix(cfg, e, events, k + 1);
    }
  }

  lemma OtherwiseUnmoved(cfg: Config, e: Engine, ev: Event)
    requires cfg.Valid() && Inv(cfg, e)
    requires var ready := BeforeReconcile(cfg, e, ev);
             ready.Some? ==> !DecisionAt(cfg, ready.value, ev.now).Keep? && !DecisionAt(cfg, ready.value, ev.now).Switch?
    ensures var next := Step(cfg, e, ev); next.aim == e.aim && next.active == e.active
  {
    hide Decide, TakeSnapshot, Config.Valid, HealthRound;
  }

  /** Over any run that pins connections and whose re-aims are accepted: new connections are pinned elsewhere than
      the active provider exactly when the latest keep or switch was a switch whose route failed, or there has been
      none and a route was adopted. */
  lemma {:induction false} AimTracksRun(cfg: Config, e: Engine, events: seq<Event>)
    requires cfg.Valid() && Inv(cfg, e) && cfg.pins && e.aim == None
    requires forall k | 0 <= k < |events| :: events[k].cmds.aimed
    ensures var now := Run(cfg, e, events);
            now.aim != now.active <==>
            LastReaimFailed(cfg, e, events) || (NoneReaims(cfg, e, events, 0) && e.active.Some?)
    ensures NoneReaims(cfg, e, events, 0) ==> Run(cfg, e, events).active == e.active
  {
    hide Step, Inv, Config.Valid, BeforeReconcile, DecisionAt, LastReaimFailed, NoneReaims;
    if |events| == 0 {
      NothingReaims(cfg, e);
    } else {
      var n := |events| - 1;
      AimTracksRun(cfg, e, events[..n]);
      RunKeepsInv(cfg, e, events[..n]);
      LatestReaim(cfg, e, events);
      NoneReaimsOfPrefix(cfg, e, events, 0);
      StepAim(cfg, Run(cfg, e, events[..n]), events[n]);
    }
  }

  /** A daemon that does not pin connections never aims the chain. */
  lemma {:induction false} UnpinnedNeverAims(cfg: Config, e: Engine, events: seq<Event>)
    requires !cfg.pins
    ensures Run(cfg, e, events).aim == e.aim
  {
    hide Step;
    if |events| != 0 {
      UnpinnedNeverAims(cfg, e, events[..|events| - 1]);
      UnpinnedStep(cfg, Run(cfg, e, events[..|events| - 1]), events[|events| - 1]);
    }
  }

  lemma UnpinnedStep(cfg: Config, e: Engine, ev: Event)
    requires !cfg.pins
    ensures Step(cfg, e, ev).aim == e.aim
  {
    hide Decide, InstallDefault, TakeSnapshot, HealthRound, LastKept;
  }

  lemma NothingReaims(cfg: Config, e: Engine)
    ensures !LastReaimFailed(cfg, e, []) && NoneReaims(cfg, e, [], 0)
  {
  }

  lemma StepAim(cfg: Config, e: Engine, ev: Event)
    requires cfg.Valid() && Inv(cfg, e) && cfg.pins && ev.cmds.aimed
    ensures var ready, next := BeforeReconcile(cfg, e, ev), Step(cfg, e, ev);
            if ready.Some? && (DecisionAt(cfg, ready.value, ev.now).Keep? || DecisionAt(cfg, ready.value, ev.now).Switch?) then
              next.aim == next.active <==> DecisionAt(cfg, ready.value, ev.now).Keep? || ev.cmds.switchOver.replaceOk
            else next.aim == e.aim && next.active == e.active
  {
    hide DecisionAt, Reconcile, Config.Valid, ProbeProvider, Inv;
    StepKeepsInv(cfg, e, ev);
    var ready := BeforeReconcile(cfg, e, ev);
    if ready.Some? && (DecisionAt(cfg, ready.value, ev.now).Keep? || DecisionAt(cfg, ready.value, ev.now).Switch?) {
      AimMatchesExactly(cfg, ready.value, ev.now, !ev.Probed?, ev.cmds);
    } else {
      OtherwiseUnmoved(cfg, e, ev);
    }
  }

  // ── why the active provider is left ───────────────────────────────────

  /** The views say of each configured provider what the engine says. */
  lemma ViewsShow(cfg: Config, e: Engine, name: string, state: State)
    requires cfg.Valid()
    ensures Shows(Views(cfg, e), name, state) <==> name in cfg.of && HealthOf(e, name).state == state
    ensures HasView(Views(cfg, e), name) <==> name in cfg.of
  {
    hide Views, Config.Valid, Distinct;
    ViewsCoverProviders(cfg, e);
    if name in cfg.of {
      assert ViewOf(cfg, e, name) in Views(cfg, e);
    }
  }

  lemma ViewsRank(cfg: Config, e: Engine, name: string)
    requires cfg.Valid()
    ensures RanksFirst(Views(cfg, e), name) <==> name in cfg.of && IsUpIn(e, name) && Outranks(cfg, e, name)
  {
    hide Views, Distinct;
    ViewsCoverProviders(cfg, e);
    var vs := Views(cfg, e);
    if RanksFirst(vs, name) {
      hide CompareRank;
      var p :| Least(vs, p) && p.name == name;
      LeastIsUp(vs, p);
      forall other | other in cfg.of && IsUpIn(e, other) ensures cfg.of[name].priority <= cfg.of[other].priority {
        assert ViewOf(cfg, e, other) in vs;
      }
    }
    if name in cfg.of && IsUpIn(e, name) && Outranks(cfg, e, name) {
      var p := ViewOf(cfg, e, name);
      forall q | q in vs && q.IsUp() ensures CompareRank(p, q) != Greater {
        assert q == ViewOf(cfg, e, q.name);
        if q.name == name {
          CompareStringsEqual(name, name);
        }
      }
      assert Least(vs, p);
    }
  }

  /** Time to come back to `r`: it is up, nothing up outranks it, it outranks the active provider, which is up too, and
      it has been up for the window. */
  ghost predicate ReturnDue(cfg: Config, e: Engine, now: int, r: string) {
    && e.active.Some? && e.active.value in cfg.of && IsUpIn(e, e.active.value)
    && r in cfg.of && IsUpIn(e, r) && Outranks(cfg, e, r) && cfg.of[r].priority < cfg.of[e.active.value].priority
    && HealthOf(e, r).upSince.Some?
    && now - HealthOf(e, r).upSince.value >= ChronoSpan(EffectiveFailback(e.flap, now, cfg.flap))
  }

  lemma FailbackAtExactly(cfg: Config, e: Engine, now: int, r: string)
    requires cfg.Valid()
    ensures DecisionAt(cfg, e, now) == Switch(r, Failback) <==> e.forced.None? && ReturnDue(cfg, e, now, r)
  {
    hide Decide, EffectiveFailback, Views, Config.Valid, Distinct, Least;
    ViewsCoverProviders(cfg, e);
    var s := TakeSnapshot(cfg, e, now);
    var i := SelectionInput(s.now, e.active, s.forced, s.views, s.failbackStable);
    ViewsRank(cfg, e, r);
    if DecideOn(e, s) == Switch(r, Failback) {
      FailbackIsDue(i, r);
      var c, p :| FailbackDue(i, c, p) && p.name == r;
      LeastIsUp(s.views, p);
      assert RanksFirst(s.views, r);
    }
    if e.forced.None? && ReturnDue(cfg, e, now, r) {
      var p :| Least(s.views, p) && p.name == r;
      LeastIsUp(s.views, p);
      assert FailbackDue(i, ViewOf(cfg, e, e.active.value), p);
      DueIsFailback(i, ViewOf(cfg, e, e.active.value), p);
    }
  }

  /** Every switch from an active provider, when nobody is pinned, has one of two reasons. */
  lemma UnpinnedSwitch(i: SelectionInput)
    requires i.forced.None? && i.current.Some? && Decide(i).Switch?
    ensures Decide(i).reason in {CurrentUnconfigured, CurrentDown, Failback}
  {
    hide BestHealthy, FindByName, FirstUnproven;
  }

  /** After any run, nobody pinned: a step leaves the active provider exactly when its route can be moved and the
      active provider is down while another is up, or a better one has been up for the window. So one without a
      verdict is never left. */
  lemma LeftForCauseExactly(cfg: Config, e: Engine, events: seq<Event>, ev: Event)
    requires cfg.Valid() && Inv(cfg, e)
    requires var before := Run(cfg, e, events);
             before.active.Some? && BeforeReconcile(cfg, before, ev).Some? && BeforeReconcile(cfg, before, ev).value.forced.None?
    ensures var before, after := Run(cfg, e, events), Run(cfg, e, events + [ev]);
            var ready := BeforeReconcile(cfg, before, ev).value;
            after.active != before.active <==>
            && ev.cmds.switchOver.replaceOk
            && ((HealthOf(ready, before.active.value).state == Down && exists name | name in cfg.of :: IsUpIn(ready, name))
                || (exists r :: ReturnDue(cfg, ready, ev.now, r)))
  {
    hide Reconcile, DecisionAt, Config.Valid, ProbeProvider, ReturnDue, Inv;
    assert (events + [ev])[..|events|] == events;
    RunKeepsInv(cfg, e, events);
    var before := Run(cfg, e, events);
    var ready := BeforeReconcile(cfg, before, ev).value;
    StepKeepsInv(cfg, before, ev);
    ReadyIsSameChoice(cfg, before, ev);
    DecisionPicksUp(cfg, ready, ev.now);
    LeavesExactly(cfg, ready, ev.now);
  }

  lemma LeavesExactly(cfg: Config, e: Engine, now: int)
    requires cfg.Valid() && Inv(cfg, e) && e.forced.None? && e.active.Some?
    ensures DecisionAt(cfg, e, now).Switch? <==>
            || (HealthOf(e, e.active.value).state == Down && exists name | name in cfg.of :: IsUpIn(e, name))
            || (exists r :: ReturnDue(cfg, e, now, r))
  {
    hide Decide, EffectiveFailback, Views, Config.Valid, Distinct, ReturnDue, Outranks, RanksFirst, Shows, HasView;
    ViewsCoverProviders(cfg, e);
    var s := TakeSnapshot(cfg, e, now);
    var i := SelectionInput(s.now, e.active, s.forced, s.views, s.failbackStable);
    ViewsShow(cfg, e, e.active.value, Down);
    var d := Decide(i);
    if d.Switch? {
      UnpinnedSwitch(i);
      LeftAtOnceExactly(i, d.to);
      FailbackAtExactly(cfg, e, now, d.to);
      DecisionPicksUp(cfg, e, now);
    }
    if r :| ReturnDue(cfg, e, now, r) {
      FailbackAtExactly(cfg, e, now, r);
    }
    if HealthOf(e, e.active.value).state == Down {
      if name :| name in cfg.of && IsUpIn(e, name) {
        var best := BestInEngine(cfg, e, name);
        LeftAtOnceExactly(i, best);
      }
    }
  }

  lemma BestInEngine(cfg: Config, e: Engine, name: string) returns (best: string)
    requires cfg.Valid() && name in cfg.of && IsUpIn(e, name)
    ensures RanksFirst(Views(cfg, e), best)
  {
    hide Views, Distinct, CompareRank;
    ViewsCoverProviders(cfg, e);
    BestHealthyIsLeast(Views(cfg, e));
    assert ViewOf(cfg, e, name) in Views(cfg, e) && ViewOf(cfg, e, name).IsUp();
    best := BestHealthy(Views(cfg, e)).value.name;
  }

  // ── the operator's pin ────────────────────────────────────────────────

  /** A command the engine accepts, and the pin it leaves. */
  predicate SetsPin(cfg: Config, ev: Event) {
    (ev.ForceProvider? && ev.name in cfg.of) || ev.ClearForce?
  }

  function PinOf(ev: Event): Option<string> {
    if ev.ForceProvider? then Some(ev.name) else None
  }

  lemma StepPins(cfg: Config, e: Engine, ev: Event)
    requires cfg.Valid() && Inv(cfg, e)
    ensures Step(cfg, e, ev).forced == if SetsPin(cfg, ev) then PinOf(ev) else e.forced
  {
    hide Reconcile, DecisionAt, Config.Valid, HealthRound;
    StepKeepsInv(cfg, e, ev);
  }

  lemma {:induction false} NoCommandKeepsPin(cfg: Config, e: Engine, events: seq<Event>)
    requires cfg.Valid() && Inv(cfg, e) && forall k | 0 <= k < |events| :: !SetsPin(cfg, events[k])
    ensures Run(cfg, e, events).forced == e.forced
  {
    hide Step, Inv, Config.Valid, SetsPin;
    if |events| != 0 {
      var n := |events| - 1;
      assert !SetsPin(cfg, events[n]);
      NoCommandKeepsPin(cfg, e, events[..n]);
      RunKeepsInv(cfg, e, events[..n]);
      StepPins(cfg, Run(cfg, e, events[..n]), events[n]);
    }
  }

  lemma {:induction false} RunConcat(cfg: Config, e: Engine, a: seq<Event>, b: seq<Event>)
    ensures Run(cfg, e, a + b) == Run(cfg, Run(cfg, e, a), b)
  {
    hide Step;
    if |b| == 0 {
      assert a + b == a;
    } else {
      RunConcat(cfg, e, a, b[..|b| - 1]);
      assert (a + b)[..|a + b| - 1] == a + b[..|b| - 1];
    }
  }

  /** The pin in force is the one of the latest command, whatever came before. */
  lemma PinIsLatestCommand(cfg: Config, e: Engine, before: seq<Event>, command: Event, later: seq<Event>)
    requires cfg.Valid() && Inv(cfg, e) && SetsPin(cfg, command)
    requires forall k | 0 <= k < |later| :: !SetsPin(cfg, later[k])
    ensures Run(cfg, e, before + [command] + later).forced == PinOf(command)
  {
    hide Step, Inv, Config.Valid, SetsPin;
    RunConcat(cfg, e, before + [command], later);
    assert (before + [command])[..|before|] == before;
    RunKeepsInv(cfg, e, before);
    RunKeepsInv(cfg, e, before + [command]);
    StepPins(cfg, Run(cfg, e, before), command);
    NoCommandKeepsPin(cfg, Run(cfg, e, before + [command]), later);
  }

  /** From the command that pins a provider until the next command: after every step whose commands succeed, the
      pinned provider is active whenever it is up. */
  lemma PinnedIsActive(cfg: Config, e: Engine, before: seq<Event>, command: Event, later: seq<Event>, ev: Event)
    requires cfg.Valid() && Inv(cfg, e) && command.ForceProvider? && command.name in cfg.of
    requires ev.cmds.AllOk() && ev.Probed? && forall k | 0 <= k < |later| :: !SetsPin(cfg, later[k])
    ensures var now := Run(cfg, e, before + [command] + later + [ev]);
            IsUpIn(now, command.name) ==> now.active == Some(command.name)
  {
    hide Run, Inv, Config.Valid;
    assert before + [command] + later + [ev] == before + [command] + (later + [ev]);
    PinIsLatestCommand(cfg, e, before, command, later + [ev]);
    EveryStepIsSafe(cfg, e, before + [command] + later, ev);
  }

  /** A pin an earlier process stored is in force from the start until the next command: after every probe whose
      commands succeed the provider is active whenever it is up. */
  lemma StoredPinIsObeyed(cfg: Config, table: seq<Route>, ownsBootstrap: bool, stored: string, history: seq<int>, events: seq<Event>, ev: Event)
    requires cfg.Valid() && stored in cfg.of && ev.cmds.AllOk() && ev.Probed?
    requires forall k | 0 <= k < |events| :: !SetsPin(cfg, events[k])
    ensures var now := Run(cfg, Start(cfg, table, ownsBootstrap, Some(stored), history), events + [ev]);
            now.forced == Some(stored) && (IsUpIn(now, stored) ==> now.active == Some(stored))
  {
    hide Run, Inv, Config.Valid, Adopt, Sorted, LastKept;
    var start := Start(cfg, table, ownsBootstrap, Some(stored), history);
    StartKeepsInv(cfg, table, ownsBootstrap, Some(stored), history);
    NoCommandKeepsPin(cfg, start, events + [ev]);
    EveryStepIsSafe(cfg, start, events, ev);
  }

  /** A pin whose provider is no longer configured is forgotten. */
  lemma UnknownPinIsForgotten(cfg: Config, table: seq<Route>, ownsBootstrap: bool, stored: string, history: seq<int>, events: seq<Event>)
    requires cfg.Valid() && stored !in cfg.of && forall k | 0 <= k < |events| :: !SetsPin(cfg, events[k])
    ensures Run(cfg, Start(cfg, table, ownsBootstrap, Some(stored), history), events).forced == None
  {
    hide Run, Inv, Config.Valid, Adopt, Sorted, LastKept;
    StartKeepsInv(cfg, table, ownsBootstrap, Some(stored), history);
    NoCommandKeepsPin(cfg, Start(cfg, table, ownsBootstrap, Some(stored), history), events);
  }

  // ── the route a start adopts ──────────────────────────────────────────

  /** `n` is the first name in the configuration whose provider has this next hop and interface. */
  ghost predicate FirstConfigured(cfg: Config, names: seq<string>, r: Route, n: string) {
    exists m: nat ::
      && m < |names| && names[m] == n && n in cfg.of && LeadsTo(r, cfg.of[n].gateway, cfg.of[n].interface)
      && forall l | 0 <= l < m && names[l] in cfg.of :: !LeadsTo(r, cfg.of[names[l]].gateway, cfg.of[names[l]].interface)
  }

  lemma {:induction false} MatchIsFirst(cfg: Config, names: seq<string>, r: Route, n: string)
    requires r.via.Some?
    ensures MatchingProvider(cfg, names, Show(r)) == Some(n) <==> FirstConfigured(cfg, names, r, n)
  {
    if |names| != 0 {
      var rest := names[1..];
      MatchIsFirst(cfg, rest, r, n);
      assert forall l | 0 <= l < |rest| :: rest[l] == names[l + 1];
      if names[0] in cfg.of && LeadsTo(r, cfg.of[names[0]].gateway, cfg.of[names[0]].interface) {
        assert names[0] == n ==> FirstConfigured(cfg, names, r, n);
      } else {
        if FirstConfigured(cfg, rest, r, n) {
          var m: nat :| m < |rest| && rest[m] == n && n in cfg.of && LeadsTo(r, cfg.of[n].gateway, cfg.of[n].interface)
            && forall l | 0 <= l < m && rest[l] in cfg.of :: !LeadsTo(r, cfg.of[rest[l]].gateway, cfg.of[rest[l]].interface);
          assert names[m + 1] == n;
          assert forall l | 1 <= l < m + 1 :: names[l] == rest[l - 1];
        }
      }
    }
  }

  /** A start adopts a provider exactly if the first metric-0 default with a next hop in the table is its own, and it is
      the first such in the configuration. */
  lemma AdoptExactly(cfg: Config, table: seq<Route>, n: string)
    ensures Adopt(cfg, table) == Some(n) <==> exists k: nat :: FirstAtStake(table, k) && FirstConfigured(cfg, cfg.names, table[k], n)
  {
    hide Preferred, Listed, MatchingProvider, FirstConfigured;
    PreferredAtZero(table);
    var p := Preferred(Listed(table));
    if p.Some? && p.value.EffectiveMetric() == 0 {
      var k: nat :| FirstAtStake(table, k) && p.value == Show(table[k]);
      MatchIsFirst(cfg, cfg.names, table[k], n);
      assert forall j: nat :: FirstAtStake(table, j) ==> j == k;
    }
  }

  /** So the route this daemon left installed is adopted again, whatever defaults other metrics hold. */
  lemma OwnRouteIsAdopted(cfg: Config, e: Engine)
    requires cfg.Valid() && e.active.Some? && e.active.value in cfg.of
    requires Settled(e.table, cfg.of[e.active.value].gateway, cfg.of[e.active.value].interface)
    requires forall a, b | a in cfg.of && b in cfg.of && a != b :: (cfg.of[a].gateway, cfg.of[a].interface) != (cfg.of[b].gateway, cfg.of[b].interface)
    ensures Adopt(cfg, e.table) == e.active
  {
    hide Adopt, Config.Valid;
    var n := e.active.value;
    var c := cfg.of[n];
    var some: nat :| some < |e.table| && AtStake(e.table[some]) && LeadsTo(e.table[some], c.gateway, c.interface);
    var k := FirstStake(e.table, some);
    ValidNames(cfg, n);
    var m: nat :| m < |cfg.names| && cfg.names[m] == n;
    FirstName(cfg, e.table[k], n, m);
    AdoptExactly(cfg, e.table, n);
  }

  lemma ValidNames(cfg: Config, n: string)
    requires cfg.Valid()
    ensures (n in cfg.names <==> n in cfg.of) && AllDiffer(cfg.names)
  {
  }

  lemma {:induction false} FirstStake(table: seq<Route>, some: nat) returns (k: nat)
    requires some < |table| && AtStake(table[some])
    ensures FirstAtStake(table, k)
    decreases some
  {
    if j :| 0 <= j < some && AtStake(table[j]) {
      k := FirstStake(table, j);
    } else {
      k := some;
    }
  }

  lemma FirstName(cfg: Config, r: Route, n: string, m: nat)
    requires m < |cfg.names| && cfg.names[m] == n && n in cfg.of && LeadsTo(r, cfg.of[n].gateway, cfg.of[n].interface)
    requires AllDiffer(cfg.names)
    requires forall a, b | a in cfg.of && b in cfg.of && a != b :: (cfg.of[a].gateway, cfg.of[a].interface) != (cfg.of[b].gateway, cfg.of[b].interface)
    ensures FirstConfigured(cfg, cfg.names, r, n)
  {
    forall l | 0 <= l < m && cfg.names[l] in cfg.of
      ensures !LeadsTo(r, cfg.of[cfg.names[l]].gateway, cfg.of[cfg.names[l]].interface)
    {
      assert cfg.names[l] != cfg.names[m];
    }
  }

  // ── what a provider's state stands for ────────────────────────────────

  /** The rounds a run probed of one provider. */
  function RoundsOf(events: seq<Event>, name: string): seq<TimedAnswers> {
    if |events| == 0 then []
    else
      var last := events[|events| - 1];
      RoundsOf(events[..|events| - 1], name) + (if last.Probed? && last.name == name then [TimedAnswers(last.applied, last.answers)] else [])
  }

  /** Over any run, whatever else happens, a provider's state is that of its own rounds. */
  lemma {:induction false} ProviderFollowsRounds(cfg: Config, e: Engine, events: seq<Event>, name: string)
    requires cfg.Valid() && Inv(cfg, e) && name in cfg.of
    ensures var now := Run(cfg, e, events);
            name in now.providers && now.providers[name] == HealthRun(e.providers[name], RoundsOf(events, name), cfg.checks)
  {
    hide Step, Config.Valid, HealthRound;
    if |events| != 0 {
      var n := |events| - 1;
      ProviderFollowsRounds(cfg, e, events[..n], name);
      RunKeepsInv(cfg, e, events[..n]);
      StepProbes(cfg, Run(cfg, e, events[..n]), events[n], name);
      var before := RoundsOf(events[..n], name);
      var ev := events[n];
      if ev.Probed? && ev.name == name {
        assert (before + [TimedAnswers(ev.applied, ev.answers)])[..|before|] == before;
      } else {
        assert before + [] == before;
      }
    }
  }

  lemma StepProbes(cfg: Config, e: Engine, ev: Event, name: string)
    requires cfg.Valid() && Inv(cfg, e) && name in cfg.of
    ensures var next := Step(cfg, e, ev);
            && name in next.providers
            && next.providers[name] == if ev.Probed? && ev.name == name then HealthRound(e.providers[name], ev.answers, ev.applied, cfg.checks) else e.providers[name]
  {
    hide Reconcile, DecisionAt, Config.Valid, HealthRound;
    StepKeepsInv(cfg, e, ev);
  }

  lemma PendingIsDecided(cfg: Config, e: Engine, s: Snapshot, always: bool, cmds: Commands)
    ensures Commit(cfg, e, s, always, cmds).failbackPending == PendingOf(DecideOn(e, s))
  {
    hide Decide, CommitKeep, CommitSwitch;
    var d := DecideOn(e, s);
    var noted := e.(failbackPending := PendingOf(d));
    KeepEffect(cfg, noted, always, cmds);
    if d.Switch? {
      SwitchEffect(cfg, noted, d.to, d.reason, s.now, cmds);
    }
  }

  /** A return to `r` that only lacks time. */
  ghost predicate ReturnPending(cfg: Config, e: Engine, now: int, r: string)
    requires e.active.Some? && e.active.value in cfg.of
  {
    && r in cfg.of && IsUpIn(e, r) && Outranks(cfg, e, r)
    && IsUpIn(e, e.active.value) && cfg.of[r].priority < cfg.of[e.active.value].priority
    && !ReturnDue(cfg, e, now, r)
  }

  lemma PendingFromViews(cfg: Config, e: Engine, now: int, r: string, stableFor: nat)
    requires cfg.Valid() && e.active.Some? && e.active.value in cfg.of
    ensures var s := TakeSnapshot(cfg, e, now);
            (exists c, p :: FailbackPending(SelectionInput(s.now, e.active, s.forced, s.views, s.failbackStable), c, p, stableFor) && p.name == r) <==>
            ReturnPending(cfg, e, now, r) && stableFor == ElapsedWholeSeconds(now, HealthOf(e, r).upSince)
  {
    hide EffectiveFailback, Views, Config.Valid, Distinct, Least, ElapsedWholeSeconds, Outranks;
    ViewsCoverProviders(cfg, e);
    var s := TakeSnapshot(cfg, e, now);
    var i := SelectionInput(s.now, e.active, s.forced, s.views, s.failbackStable);
    ViewsRank(cfg, e, r);
    if c, p :| FailbackPending(i, c, p, stableFor) && p.name == r {
      LeastIsUp(s.views, p);
      assert RanksFirst(s.views, r);
      WholeSeconds(now, p.upSince, stableFor);
    }
    if RanksFirst(s.views, r) && ReturnPending(cfg, e, now, r) && stableFor == ElapsedWholeSeconds(now, HealthOf(e, r).upSince) {
      var p :| Least(s.views, p) && p.name == r;
      LeastIsUp(s.views, p);
      WholeSeconds(now, p.upSince, stableFor);
      assert FailbackPending(i, ViewOf(cfg, e, e.active.value), p, stableFor);
    }
  }

  /** After every reconcile the countdown on show is that of a return that only lacks time, if there is one. */
  lemma CountdownShown(cfg: Config, e: Engine, now: int, always: bool, cmds: Commands, r: string, stableFor: nat, required: nat)
    requires cfg.Valid() && e.active.Some? && e.active.value in cfg.of
    ensures Reconcile(cfg, e, now, always, cmds).failbackPending == Some(Pending(r, stableFor, required)) <==>
            && e.forced.None? && required == EffectiveFailback(e.flap, now, cfg.flap)
            && ReturnPending(cfg, e, now, r) && stableFor == ElapsedWholeSeconds(now, HealthOf(e, r).upSince)
  {
    hide Decide, EffectiveFailback, Views, Config.Valid, Distinct, ReturnPending, FailbackPending, ElapsedWholeSeconds, Commit;
    ViewsCoverProviders(cfg, e);
    var s := TakeSnapshot(cfg, e, now);
    PendingIsDecided(cfg, e, s, always, cmds);
    CountdownExactly(SelectionInput(s.now, e.active, s.forced, s.views, s.failbackStable), r, stableFor, required);
    PendingFromViews(cfg, e, now, r, stableFor);
  }
}
