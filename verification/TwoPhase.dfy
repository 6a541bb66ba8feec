/**
 The engine under concurrent tasks (`reconcile_inner` and `route_watchdog` in `src/core/balancer.rs`).
 A reconciling task reads the pin, the window and the views at three moments, then decides under the
 lock on `active`, so it may commit on a stale view. The watchdog checks and repairs under the same
 lock. Any number of tasks interleave, together with probes, operator commands and outside tools.
 */
module TwoPhase {
  import opened Basics
  import opened Selection
  import opened HealthMachine
  import opened Layers
  import opened FlapDamping
  import opened Routing
  import opened Failover

  datatype Phase =
    | Idle
    | HasPin(forced: Option<string>)
    | HasWindow(forced: Option<string>, now: int, failbackStable: nat)
    | HasViews(snapshot: Snapshot)

  datatype System = System(engine: Engine, tasks: map<nat, Phase>)

  datatype Move =
    | Probe(name: string, answers: Answers, at: int)
    | SetPin(pin: Option<string>)
    | ReadPin(id: nat)
    | ReadWindow(id: nat, now: int)
    | ReadViews(id: nat)
    | Commit(id: nat, always: bool, cmds: Commands)
    | Watchdog(at: int, readable: bool, sh: Shell)
    | OutsideTool(table: seq<Route>)

  function PhaseOf(sys: System, id: nat): Phase {
    if id in sys.tasks then sys.tasks[id] else Idle
  }

  /** Every default is looked at, not just the preferred one; ours counts as present at any metric. */
  predicate Alarmed(listing: seq<InstalledRoute>, gateway: Address, interface: string) {
    || !(exists k | 0 <= k < |listing| :: listing[k].Leads(gateway, interface))
    || (exists k | 0 <= k < |listing| :: listing[k].EffectiveMetric() == 0 && !listing[k].Leads(gateway, interface))
  }

  function WatchdogTick(cfg: Config, e: Engine, at: int, readable: bool, sh: Shell): Engine {
    if e.active.None? || e.active.value !in cfg.of || !readable then e
    else
      var name, c := e.active.value, cfg.of[e.active.value];
      if Alarmed(Listed(e.table), c.gateway, c.interface) && sh.replaceOk then
        Install(cfg, e, name, sh).(records := e.records + [Record(at, Some(name), name, RouteWatchdog)])
      else e
  }

  function Next(cfg: Config, sys: System, m: Move): System {
    var e := sys.engine;
    match m
    case Probe(name, answers, at) => sys.(engine := ProbeProvider(cfg, e, name, answers, at))
    case SetPin(pin) => if pin.Some? && pin.value !in cfg.of then sys else sys.(engine := e.(forced := pin))
    case ReadPin(id) => sys.(tasks := sys.tasks[id := HasPin(e.forced)])
    case ReadWindow(id, now) =>
      (match PhaseOf(sys, id)
       case HasPin(forced) => sys.(tasks := sys.tasks[id := HasWindow(forced, now, EffectiveFailback(e.flap, now, cfg.flap))])
       case _ => sys)
    case ReadViews(id) =>
      (match PhaseOf(sys, id)
       case HasWindow(forced, now, window) => sys.(tasks := sys.tasks[id := HasViews(Snapshot(forced, now, window, Views(cfg, e)))])
       case _ => sys)
    case Commit(id, always, cmds) =>
      (match PhaseOf(sys, id)
       case HasViews(s) => System(Failover.Commit(cfg, e, s, always, cmds), sys.tasks[id := Idle])
       case _ => sys)
    case Watchdog(at, readable, sh) => sys.(engine := WatchdogTick(cfg, e, at, readable, sh))
    case OutsideTool(table) => sys.(engine := e.(table := table))
  }

  function Interleaving(cfg: Config, sys: System, moves: seq<Move>): System {
    if |moves| == 0 then sys
    else Next(cfg, Interleaving(cfg, sys, moves[..|moves| - 1]), moves[|moves| - 1])
  }

  /** One task reads its pin, its window and the views, with nothing in between. */
  function Reads(id: nat, now: int): seq<Move> {
    [ReadPin(id), ReadWindow(id, now), ReadViews(id)]
  }

  lemma {:induction false} Joined(cfg: Config, sys: System, a: seq<Move>, b: seq<Move>)
    ensures Interleaving(cfg, sys, a + b) == Interleaving(cfg, Interleaving(cfg, sys, a), b)
  {
    hide Next;
    if |b| == 0 {
      assert a + b == a;
    } else {
      Joined(cfg, sys, a, b[..|b| - 1]);
      assert (a + b)[..|a + b| - 1] == a + b[..|b| - 1];
    }
  }

  lemma OneMove(cfg: Config, sys: System, m: Move)
    ensures Interleaving(cfg, sys, [m]) == Next(cfg, sys, m)
  {
    hide Next;
    assert [m][..0] == [];
  }

  lemma ThreeMoves(cfg: Config, sys: System, x: Move, y: Move, z: Move)
    ensures Interleaving(cfg, sys, [x, y, z]) == Next(cfg, Next(cfg, Next(cfg, sys, x), y), z)
  {
    hide Next, Interleaving;
    assert [x, y, z] == [x, y] + [z] && [x, y] == [x] + [y];
    Joined(cfg, sys, [x, y], [z]);
    Joined(cfg, sys, [x], [y]);
    OneMove(cfg, sys, x);
    OneMove(cfg, Next(cfg, sys, x), y);
    OneMove(cfg, Next(cfg, Next(cfg, sys, x), y), z);
  }

  lemma ReadsTakeSnapshot(cfg: Config, sys: System, id: nat, now: int)
    ensures Interleaving(cfg, sys, Reads(id, now)) == sys.(tasks := sys.tasks[id := HasViews(TakeSnapshot(cfg, sys.engine, now))])
  {
    hide EffectiveFailback, Views, Interleaving;
    ThreeMoves(cfg, sys, ReadPin(id), ReadWindow(id, now), ReadViews(id));
    var pinned := Next(cfg, sys, ReadPin(id));
    var timed := Next(cfg, pinned, ReadWindow(id, now));
    assert pinned == sys.(tasks := sys.tasks[id := HasPin(sys.engine.forced)]);
    assert timed.tasks == sys.tasks[id := HasWindow(sys.engine.forced, now, EffectiveFailback(sys.engine.flap, now, cfg.flap))];
    assert Next(cfg, timed, ReadViews(id)).tasks == sys.tasks[id := HasViews(TakeSnapshot(cfg, sys.engine, now))];
  }

  ghost predicate KnownViews(cfg: Config, views: seq<ProviderView>) {
    forall v | v in views :: v.name in cfg.of
  }

  ghost predicate SysInv(cfg: Config, sys: System) {
    && (sys.engine.active.Some? ==> sys.engine.active.value in cfg.of)
    && (forall id | id in sys.tasks && sys.tasks[id].HasViews? :: KnownViews(cfg, sys.tasks[id].snapshot.views))
  }

  /** A commit on any snapshot, however stale, keeps or chooses a provider that is up in that snapshot. */
  lemma CommitPicksFromView(cfg: Config, e: Engine, s: Snapshot)
    requires KnownViews(cfg, s.views)
    ensures var d := DecideOn(e, s);
            && (d.Switch? ==> d.to in cfg.of && Shows(s.views, d.to, Up) && e.active != Some(d.to))
            && (d.Keep? ==> e.active.Some? && Shows(s.views, e.active.value, Up))
  {
    hide Decide;
    DecisionMeaning(SelectionInput(s.now, e.active, s.forced, s.views, s.failbackStable));
  }

  lemma NextKeepsInv(cfg: Config, sys: System, m: Move)
    requires cfg.Valid() && SysInv(cfg, sys)
    ensures SysInv(cfg, Next(cfg, sys, m))
  {
    hide Failover.Commit, HealthRound, InstallDefault, EffectiveFailback, Alarmed, Views, Decide;
    match m
    case ReadViews(id) =>
      ViewsCoverProviders(cfg, sys.engine);
    case Commit(id, always, cmds) =>
      if PhaseOf(sys, id).HasViews? {
        var s := PhaseOf(sys, id).snapshot;
        CommitEffect(cfg, sys.engine, s, always, cmds);
        CommitPicksFromView(cfg, sys.engine, s);
      }
    case _ =>
  }

  lemma {:induction false} InterleavingKeepsInv(cfg: Config, sys: System, moves: seq<Move>)
    requires cfg.Valid() && SysInv(cfg, sys)
    ensures SysInv(cfg, Interleaving(cfg, sys, moves))
  {
    hide Next, SysInv;
    if |moves| != 0 {
      InterleavingKeepsInv(cfg, sys, moves[..|moves| - 1]);
      NextKeepsInv(cfg, Interleaving(cfg, sys, moves[..|moves| - 1]), moves[|moves| - 1]);
    }
  }

  // ── the failover history is a chain ───────────────────────────────────

  /** What the row added by a move has to say: it starts where the engine was, a watchdog row stays there,
      and a switch goes somewhere else, to a provider that was up in the view its task had read. */
  ghost predicate RowFits(sys: System, m: Move, r: Record) {
    && r.from == sys.engine.active
    && match r.cause
       case RouteWatchdog => r.from == Some(r.to)
       case Selected(_) =>
         && m.Commit? && PhaseOf(sys, m.id).HasViews?
         && Shows(PhaseOf(sys, m.id).snapshot.views, r.to, Up) && r.from != Some(r.to)
  }

  lemma MoveAddsFittingRow(cfg: Config, sys: System, m: Move)
    requires cfg.Valid() && SysInv(cfg, sys)
    ensures var before, after := sys.engine, Next(cfg, sys, m).engine;
            || (after.records == before.records && after.active == before.active)
            || exists r :: after.records == before.records + [r] && RowFits(sys, m, r) && after.active == Some(r.to)
  {
    hide Failover.Commit, HealthRound, InstallDefault, EffectiveFailback, Alarmed, Views, Decide;
    match m
    case Commit(id, always, cmds) =>
      if PhaseOf(sys, id).HasViews? {
        var s := PhaseOf(sys, id).snapshot;
        CommitEffect(cfg, sys.engine, s, always, cmds);
        CommitPicksFromView(cfg, sys.engine, s);
        var d := DecideOn(sys.engine, s);
        if d.Switch? && cmds.switchOver.replaceOk {
          assert RowFits(sys, m, Record(s.now, sys.engine.active, d.to, Selected(d.reason)));
        }
      }
    case Watchdog(at, readable, sh) =>
      if sys.engine.active.Some? {
        var name := sys.engine.active.value;
        assert RowFits(sys, m, Record(at, Some(name), name, RouteWatchdog));
      }
    case _ =>
  }

  /** Where the first `k` rows end. */
  function EndOf(first: Option<string>, records: seq<Record>, k: nat): Option<string>
    requires k <= |records|
  {
    if k == 0 then first else Some(records[k - 1].to)
  }

  /** Each row starts where the one before it ended; the last one ends at what is active now. */
  ghost predicate Chained(first: Option<string>, records: seq<Record>, active: Option<string>) {
    && (forall k | 0 <= k < |records| :: records[k].from == EndOf(first, records, k))
    && active == EndOf(first, records, |records|)
  }

  /** Under every interleaving, stale commits and watchdog repairs included, the history is one chain. */
  lemma {:induction false} HistoryIsChain(cfg: Config, sys: System, moves: seq<Move>)
    requires cfg.Valid() && SysInv(cfg, sys) && sys.engine.records == []
    ensures var e := Interleaving(cfg, sys, moves).engine; Chained(sys.engine.active, e.records, e.active)
  {
    hide Next, SysInv, RowFits;
    if |moves| != 0 {
      var init, m := moves[..|moves| - 1], moves[|moves| - 1];
      HistoryIsChain(cfg, sys, init);
      InterleavingKeepsInv(cfg, sys, init);
      var before := Interleaving(cfg, sys, init);
      MoveAddsFittingRow(cfg, before, m);
      var after := Next(cfg, before, m).engine;
      if after.records != before.engine.records {
        var r :| after.records == before.engine.records + [r] && RowFits(before, m, r) && after.active == Some(r.to);
        RowStartsAtActive(before, m, r);
        ChainExtends(sys.engine.active, before.engine.records, before.engine.active, r);
      }
    }
  }

  lemma ChainExtends(first: Option<string>, records: seq<Record>, active: Option<string>, r: Record)
    requires Chained(first, records, active) && r.from == active
    ensures Chained(first, records + [r], Some(r.to))
  {
    var longer := records + [r];
    forall k | 0 <= k < |longer| ensures longer[k].from == EndOf(first, longer, k) {
      assert EndOf(first, longer, k) == EndOf(first, records, k);
    }
  }

  lemma RowStartsAtActive(sys: System, m: Move, r: Record)
    requires RowFits(sys, m, r)
    ensures r.from == sys.engine.active
  {
  }

  // ── one owner for the default route ───────────────────────────────────

  /** The kernel's metric-0 defaults all lead to the active provider, and there is one. */
  ghost predicate RouteMatches(cfg: Config, e: Engine) {
    e.active.Some? && e.active.value in cfg.of
    && Settled(e.table, cfg.of[e.active.value].gateway, cfg.of[e.active.value].interface)
  }

  /** The commands either all work or stop at the first. */
  predicate CleanShell(sh: Shell) {
    sh.replaceOk ==> sh.AllOk()
  }

  /** No outside tool, and no installation that gets stuck half-way. */
  predicate Undisturbed(m: Move) {
    && !m.OutsideTool?
    && (m.Commit? ==> CleanShell(m.cmds.confirm) && CleanShell(m.cmds.reassert) && CleanShell(m.cmds.switchOver))
    && (m.Watchdog? ==> CleanShell(m.sh))
  }

  lemma InstallMatchesExactly(cfg: Config, e: Engine, name: string, sh: Shell)
    requires name in cfg.of && CleanShell(sh)
    ensures var c := cfg.of[name];
            Settled(Install(cfg, e, name, sh).table, c.gateway, c.interface) <==> sh.replaceOk || Settled(e.table, c.gateway, c.interface)
  {
    hide Settled, InstallDefault;
    var c := cfg.of[name];
    if sh.replaceOk {
      InstallSettles(e.table, e.ownsBootstrap, c.gateway, c.interface, sh);
    } else {
      FailedInstallChangesNothing(e.table, e.ownsBootstrap, c.gateway, c.interface, sh);
    }
  }

  lemma KeepMatchesExactly(cfg: Config, e: Engine, always: bool, cmds: Commands)
    requires e.active.Some? && e.active.value in cfg.of && CleanShell(cmds.confirm) && CleanShell(cmds.reassert)
    ensures RouteMatches(cfg, CommitKeep(cfg, e, always, cmds)) <==>
            RouteMatches(cfg, e) || (if e.adopted then cmds.confirm.replaceOk else always && cmds.reassert.replaceOk)
  {
    hide Settled, InstallDefault, CleanShell;
    var cur := e.active.value;
    var owned := Aim(cfg, e, cur, cmds.aimed).(adopted := false);
    InstallMatchesExactly(cfg, owned, cur, cmds.confirm);
    var confirmed := if e.adopted then Install(cfg, owned, cur, cmds.confirm) else owned;
    InstallMatchesExactly(cfg, confirmed, cur, cmds.reassert);
  }

  lemma SwitchMatchesExactly(cfg: Config, e: Engine, to: string, reason: Reason, at: int, cmds: Commands)
    requires to in cfg.of && CleanShell(cmds.switchOver)
    ensures RouteMatches(cfg, CommitSwitch(cfg, e, to, reason, at, cmds)) <==> RouteMatches(cfg, e) || cmds.switchOver.replaceOk
  {
    hide Settled, InstallDefault, CleanShell, LastKept;
    InstallMatchesExactly(cfg, Aim(cfg, e, to, cmds.aimed), to, cmds.switchOver);
  }

  // ── when the table matches, over every interleaving ───────────────────

  /** The commit installs a route: that of a switch, of an adopted provider it confirms, or of one an operator has
      re-asserted. A confirmation that fails ends it before the re-assertion. */
  predicate CommitInstalls(e: Engine, s: Snapshot, always: bool, cmds: Commands) {
    match DecideOn(e, s)
    case Keep => if e.adopted then cmds.confirm.replaceOk else always && cmds.reassert.replaceOk
    case Switch(_, _) => cmds.switchOver.replaceOk
    case _ => false
  }

  predicate TickInstalls(cfg: Config, e: Engine, readable: bool, sh: Shell) {
    && e.active.Some? && e.active.value in cfg.of && readable && sh.replaceOk
    && Alarmed(Listed(e.table), cfg.of[e.active.value].gateway, cfg.of[e.active.value].interface)
  }

  predicate Installs(cfg: Config, sys: System, m: Move) {
    match m
    case Commit(id, always, cmds) =>
      PhaseOf(sys, id).HasViews? && CommitInstalls(sys.engine, PhaseOf(sys, id).snapshot, always, cmds)
    case Watchdog(_, readable, sh) => TickInstalls(cfg, sys.engine, readable, sh)
    case _ => false
  }

  /** A commit leaves a matching table exactly when it found one or installed a route, whatever was in it. */
  lemma CommitMatchesExactly(cfg: Config, e: Engine, s: Snapshot, always: bool, cmds: Commands)
    requires KnownViews(cfg, s.views) && (e.active.Some? ==> e.active.value in cfg.of)
    requires CleanShell(cmds.confirm) && CleanShell(cmds.reassert) && CleanShell(cmds.switchOver)
    ensures RouteMatches(cfg, Failover.Commit(cfg, e, s, always, cmds)) <==> RouteMatches(cfg, e) || CommitInstalls(e, s, always, cmds)
  {
    hide Settled, CommitKeep, CommitSwitch, Decide, CleanShell;
    CommitPicksFromView(cfg, e, s);
    var d := DecideOn(e, s);
    var noted := e.(failbackPending := PendingOf(d));
    if d.Keep? {
      KeepMatchesExactly(cfg, noted, always, cmds);
    } else if d.Switch? {
      SwitchMatchesExactly(cfg, noted, d.to, d.reason, s.now, cmds);
    }
  }

  /** A tick of the watchdog likewise. */
  lemma TickMatchesExactly(cfg: Config, e: Engine, at: int, readable: bool, sh: Shell)
    requires CleanShell(sh)
    ensures RouteMatches(cfg, WatchdogTick(cfg, e, at, readable, sh)) <==> RouteMatches(cfg, e) || TickInstalls(cfg, e, readable, sh)
  {
    hide Settled, InstallDefault, Alarmed, CleanShell, Listed;
    if e.active.Some? && e.active.value in cfg.of {
      InstallMatchesExactly(cfg, e, e.active.value, sh);
    }
  }

  lemma MoveMatchesExactly(cfg: Config, sys: System, m: Move)
    requires cfg.Valid() && SysInv(cfg, sys) && Undisturbed(m)
    ensures RouteMatches(cfg, Next(cfg, sys, m).engine) <==> RouteMatches(cfg, sys.engine) || Installs(cfg, sys, m)
  {
    hide Settled, Failover.Commit, WatchdogTick, CommitInstalls, TickInstalls, HealthRound, EffectiveFailback, Views, CleanShell, Config.Valid;
    match m
    case Commit(id, always, cmds) =>
      if PhaseOf(sys, id).HasViews? {
        CommitMatchesExactly(cfg, sys.engine, PhaseOf(sys, id).snapshot, always, cmds);
      }
    case Watchdog(at, readable, sh) =>
      TickMatchesExactly(cfg, sys.engine, at, readable, sh);
    case _ =>
  }

  ghost predicate InstallsAt(cfg: Config, sys: System, moves: seq<Move>, k: nat) {
    k < |moves| && Installs(cfg, Interleaving(cfg, sys, moves[..k]), moves[k])
  }

  lemma EarlierInstall(cfg: Config, sys: System, moves: seq<Move>, k: nat)
    requires k < |moves| - 1
    ensures InstallsAt(cfg, sys, moves, k) == InstallsAt(cfg, sys, moves[..|moves| - 1], k)
  {
    hide Installs, Interleaving;
    var init := moves[..|moves| - 1];
    assert init[..k] == moves[..k] && init[k] == moves[k];
  }

  /** After every interleaving of tasks, stale or not, the table matches whenever the lock on `active` is free,
      exactly if it matched at first or some move since has installed a route, as long as nothing outside disturbs it. */
  lemma {:induction false} RouteMatchesExactly(cfg: Config, sys: System, moves: seq<Move>)
    requires cfg.Valid() && SysInv(cfg, sys) && forall k | 0 <= k < |moves| :: Undisturbed(moves[k])
    ensures RouteMatches(cfg, Interleaving(cfg, sys, moves).engine) <==>
            RouteMatches(cfg, sys.engine) || exists k: nat :: InstallsAt(cfg, sys, moves, k)
  {
    hide Next, SysInv, RouteMatches, Undisturbed, Installs, Config.Valid;
    if |moves| != 0 {
      var n := |moves| - 1;
      assert Undisturbed(moves[n]);
      RouteMatchesExactly(cfg, sys, moves[..n]);
      InterleavingKeepsInv(cfg, sys, moves[..n]);
      MoveMatchesExactly(cfg, Interleaving(cfg, sys, moves[..n]), moves[n]);
      if k: nat :| InstallsAt(cfg, sys, moves[..n], k) {
        EarlierInstall(cfg, sys, moves, k);
      }
      if k: nat :| InstallsAt(cfg, sys, moves, k) {
        if k < n {
          EarlierInstall(cfg, sys, moves, k);
        }
      }
      assert Installs(cfg, Interleaving(cfg, sys, moves[..n]), moves[n]) == InstallsAt(cfg, sys, moves, n);
    }
  }

  /** So once the table matches nothing the daemon does makes it differ. */
  lemma RouteStaysMatched(cfg: Config, sys: System, moves: seq<Move>)
    requires cfg.Valid() && SysInv(cfg, sys) && RouteMatches(cfg, sys.engine)
    requires forall k | 0 <= k < |moves| :: Undisturbed(moves[k])
    ensures RouteMatches(cfg, Interleaving(cfg, sys, moves).engine)
  {
    RouteMatchesExactly(cfg, sys, moves);
  }

  /** A switch, a confirmed adoption, an operator's re-assertion: each installation that succeeds makes the
      table match, whatever was in it. */
  lemma CommitMakesMatch(cfg: Config, e: Engine, s: Snapshot, always: bool, cmds: Commands)
    requires KnownViews(cfg, s.views) && (e.active.Some? ==> e.active.value in cfg.of) && cmds.AllOk()
    requires DecideOn(e, s).Switch? || (DecideOn(e, s).Keep? && (always || e.adopted))
    ensures RouteMatches(cfg, Failover.Commit(cfg, e, s, always, cmds))
  {
    hide Decide, RouteMatches;
    CommitMatchesExactly(cfg, e, s, always, cmds);
  }

  // ── confirming an adopted route ───────────────────────────────────────

  /** Confirming an adopted provider spends the adopted flag and, as far as the table goes, does something exactly
      when its command works. */
  lemma ConfirmationExactly(cfg: Config, e: Engine, s: Snapshot, always: bool, cmds: Commands)
    requires KnownViews(cfg, s.views) && (e.active.Some? ==> e.active.value in cfg.of) && DecideOn(e, s).Keep? && e.adopted
    requires CleanShell(cmds.confirm) && CleanShell(cmds.reassert) && CleanShell(cmds.switchOver)
    ensures var next := Failover.Commit(cfg, e, s, always, cmds);
            && !next.adopted && next.active == e.active
            && (RouteMatches(cfg, next) <==> RouteMatches(cfg, e) || cmds.confirm.replaceOk)
  {
    hide Decide, RouteMatches, Failover.Commit, CleanShell;
    CommitMatchesExactly(cfg, e, s, always, cmds);
    CommitEffect(cfg, e, s, always, cmds);
  }

  predicate FailsToConfirm(sys: System, m: Move) {
    && m.Commit? && PhaseOf(sys, m.id).HasViews? && sys.engine.adopted
    && DecideOn(sys.engine, PhaseOf(sys, m.id).snapshot).Keep? && !m.cmds.confirm.replaceOk
  }

  ghost predicate FailsToConfirmAt(cfg: Config, sys: System, moves: seq<Move>, k: nat) {
    k < |moves| && FailsToConfirm(Interleaving(cfg, sys, moves[..k]), moves[k])
  }

  /** The active provider is this process's own choice. */
  predicate Owned(e: Engine) {
    e.active.Some? && !e.adopted
  }

  lemma MoveOwns(cfg: Config, sys: System, m: Move)
    requires cfg.Valid() && SysInv(cfg, sys) && !Owned(sys.engine) && Owned(Next(cfg, sys, m).engine)
    ensures Installs(cfg, sys, m) || FailsToConfirm(sys, m)
  {
    hide Failover.Commit, Decide, HealthRound, EffectiveFailback, Views, Alarmed, InstallDefault, Config.Valid;
    if m.Commit? && PhaseOf(sys, m.id).HasViews? {
      CommitEffect(cfg, sys.engine, PhaseOf(sys, m.id).snapshot, m.always, m.cmds);
    }
  }

  /** What was not this process's own choice becomes so by an installation or by a confirmation that fails. */
  lemma {:induction false} OwnedByMove(cfg: Config, sys: System, moves: seq<Move>)
    requires cfg.Valid() && SysInv(cfg, sys) && !Owned(sys.engine) && Owned(Interleaving(cfg, sys, moves).engine)
    ensures exists k: nat :: InstallsAt(cfg, sys, moves, k) || FailsToConfirmAt(cfg, sys, moves, k)
  {
    hide Next, SysInv, Installs, FailsToConfirm, Config.Valid;
    var n := |moves| - 1;
    var before := Interleaving(cfg, sys, moves[..n]);
    if Owned(before.engine) {
      OwnedByMove(cfg, sys, moves[..n]);
      var k: nat :| InstallsAt(cfg, sys, moves[..n], k) || FailsToConfirmAt(cfg, sys, moves[..n], k);
      EarlierInstall(cfg, sys, moves, k);
      assert moves[..n][..k] == moves[..k];
      assert InstallsAt(cfg, sys, moves, k) || FailsToConfirmAt(cfg, sys, moves, k);
    } else {
      InterleavingKeepsInv(cfg, sys, moves[..n]);
      MoveOwns(cfg, before, moves[n]);
      assert InstallsAt(cfg, sys, moves, n) || FailsToConfirmAt(cfg, sys, moves, n);
    }
  }

  /** From a start over any table, under every interleaving of tasks, stale or not, as long as nothing outside
      disturbs it: the table matches exactly if it did at the start or some move has installed a route since. Once the
      active provider is this process's own choice that is so, unless a confirmation failed. */
  lemma OwnedRouteIsInstalled(cfg: Config, table: seq<Route>, ownsBootstrap: bool, pin: Option<string>, history: seq<int>, moves: seq<Move>)
    requires cfg.Valid() && forall k | 0 <= k < |moves| :: Undisturbed(moves[k])
    ensures var start := System(Start(cfg, table, ownsBootstrap, pin, history), map[]);
            var now := Interleaving(cfg, start, moves);
            && SysInv(cfg, now)
            && (RouteMatches(cfg, now.engine) <==>
                RouteMatches(cfg, start.engine) || exists k: nat :: InstallsAt(cfg, start, moves, k))
            && (Owned(now.engine) ==>
                RouteMatches(cfg, now.engine) || exists k: nat :: FailsToConfirmAt(cfg, start, moves, k))
  {
    hide InstallsAt, FailsToConfirmAt, RouteMatches, Undisturbed, Config.Valid, Interleaving, Adopt, Sorted, LastKept;
    var start := System(Start(cfg, table, ownsBootstrap, pin, history), map[]);
    StartKeepsInv(cfg, table, ownsBootstrap, pin, history);
    InterleavingKeepsInv(cfg, start, moves);
    RouteMatchesExactly(cfg, start, moves);
    if Owned(Interleaving(cfg, start, moves).engine) {
      OwnedByMove(cfg, start, moves);
    }
  }

  // ── an adopted route whose confirmation fails ─────────────────────────

  /** One provider, no slow checks, thresholds of one. */
  const LONE := Config(["a"], map["a" := ProviderConfig(0, 1, "wan")],
                       CheckConfig(Thresholds(1, 1), false, false, 0, false, 0, false, 0), FlapConfig(0, 1, 0, 0), false)

  /** Our own route at metric 0, and a rival beside it. */
  const RIVALLED: seq<Route> := [OurRoute(1, "wan"), Route(Some(2), "lan", 0, None)]

  const REFUSED := Shell(false, 0, true, {})

  /** The provider passes a round, and the confirmation that follows fails. */
  function Unconfirmed(answers: Answers): seq<Move> {
    [Probe("a", answers, 0)] + Reads(0, 0) + [Commit(0, false, Commands(true, REFUSED, REFUSED, REFUSED))]
  }

  lemma LoneIsAdopted()
    ensures LONE.Valid() && Adopt(LONE, RIVALLED) == Some("a")
  {
    var ours, rival := InstalledRoute(1, "wan", None, STATIC), InstalledRoute(2, "lan", None, None);
    assert Listed(RIVALLED[1..]) == [rival];
    assert Listed(RIVALLED) == [ours, rival];
    assert [ours, rival][..1] == [ours] && [ours][..0] == [];
    assert Preferred([ours]) == Some(ours);
    assert Preferred([ours, rival]) == Some(ours);
  }

  lemma LoneIsKept(e: Engine, now: int)
    requires e.active == Some("a") && e.forced == None && IsUpIn(e, "a")
    ensures DecideOn(e, TakeSnapshot(LONE, e, now)) == Keep
  {
    hide EffectiveFailback;
    var v := ViewOf(LONE, e, "a");
    assert Views(LONE, e) == [v];
    assert [v][..0] == [];
    assert BestHealthy([v]) == Some(v);
  }

  lemma RivalIsUnmatched(e: Engine)
    requires e.active == Some("a") && e.table == RIVALLED
    ensures !RouteMatches(LONE, e)
  {
    assert AtStake(RIVALLED[1]) && !LeadsTo(RIVALLED[1], 1, "wan");
  }

  /** From a start over our metric-0 route and a rival, once the provider passes its checks but the confirming command
      fails: the daemon counts the route as its own while the rival is still there. No move of it was disturbed. The
      next tick of the watchdog whose commands work puts that right. */
  lemma FailedConfirmationLeavesRival(answers: Answers, at: int, sh: Shell)
    requires answers.gateway && answers.internet && sh.AllOk()
    ensures var now := Interleaving(LONE, System(Start(LONE, RIVALLED, false, None, []), map[]), Unconfirmed(answers)).engine;
            && (forall k | 0 <= k < |Unconfirmed(answers)| :: Undisturbed(Unconfirmed(answers)[k]))
            && Owned(now) && !RouteMatches(LONE, now) && RouteMatches(LONE, WatchdogTick(LONE, now, at, true, sh))
  {
    hide RouteMatches, WatchdogTick, Interleaving, TakeSnapshot, Failover.Commit, CommitInstalls, Decide, Adopt, Config.Valid;
    LoneIsAdopted();
    var start := System(Start(LONE, RIVALLED, false, None, []), map[]);
    StartKeepsInv(LONE, RIVALLED, false, None, []);
    var cmds := Commands(true, REFUSED, REFUSED, REFUSED);
    var probed := Next(LONE, start, Probe("a", answers, 0));
    ProbedOnce(start.engine, answers);
    var s := TakeSnapshot(LONE, probed.engine, 0);
    var read := probed.(tasks := probed.tasks[0 := HasViews(s)]);
    Joined(LONE, start, [Probe("a", answers, 0)] + Reads(0, 0), [Commit(0, false, cmds)]);
    Joined(LONE, start, [Probe("a", answers, 0)], Reads(0, 0));
    OneMove(LONE, start, Probe("a", answers, 0));
    ReadsTakeSnapshot(LONE, probed, 0, 0);
    OneMove(LONE, read, Commit(0, false, cmds));
    LoneIsKept(probed.engine, 0);
    LoneViews(probed.engine);
    ConfirmationExactly(LONE, probed.engine, s, false, cmds);
    RivalIsUnmatched(probed.engine);
    RefusedKeepsTable(probed.engine, s, cmds);
    var now := Failover.Commit(LONE, probed.engine, s, false, cmds);
    WatchdogRepairsExactly(LONE, now, at, sh);
    assert AtStake(RIVALLED[0]);
  }

  lemma LoneViews(e: Engine)
    ensures KnownViews(LONE, TakeSnapshot(LONE, e, 0).views)
  {
    hide EffectiveFailback;
  }

  lemma ProbedOnce(e: Engine, answers: Answers)
    requires answers.gateway && answers.internet && e.providers == map["a" := FRESH_PROVIDER]
    ensures var probed := ProbeProvider(LONE, e, "a", answers, 0);
            IsUpIn(probed, "a") && probed == e.(providers := probed.providers)
  {
  }

  lemma RefusedKeepsTable(e: Engine, s: Snapshot, cmds: Commands)
    requires e.active == Some("a") && e.adopted && DecideOn(e, s) == Keep && !cmds.confirm.replaceOk
    ensures Failover.Commit(LONE, e, s, false, cmds).table == e.table
  {
    hide Decide;
    FailedInstallChangesNothing(e.table, e.ownsBootstrap, 1, "wan", cmds.confirm);
  }

  // ── what the watchdog repairs ─────────────────────────────────────────

  /** No default with a next hop at metric 0 is left, but one of ours survives at some other metric. */
  ghost predicate OursOnlyElsewhere(table: seq<Route>, gateway: Address, interface: string) {
    && (forall k | 0 <= k < |table| :: !AtStake(table[k]))
    && (exists k | 0 <= k < |table| :: LeadsTo(table[k], gateway, interface))
  }

  lemma {:induction false} ListingShowsTable(table: seq<Route>, r: InstalledRoute)
    ensures r in Listed(table) <==> exists k | 0 <= k < |table| :: table[k].via.Some? && Show(table[k]) == r
  {
    if |table| != 0 {
      ListingShowsTable(table[1..], r);
      assert forall k | 1 <= k < |table| :: table[k] == table[1..][k - 1];
      assert forall k | 0 <= k < |table| - 1 :: table[1..][k] == table[k + 1];
    }
  }

  lemma ListedIndex(table: seq<Route>, k: nat)
    requires k < |table| && table[k].via.Some?
    ensures exists n | 0 <= n < |Listed(table)| :: Listed(table)[n] == Show(table[k])
  {
    hide Listed;
    ListingShowsTable(table, Show(table[k]));
  }

  lemma TableIndex(table: seq<Route>, n: nat)
    requires n < |Listed(table)|
    ensures exists k | 0 <= k < |table| :: table[k].via.Some? && Show(table[k]) == Listed(table)[n]
  {
    hide Listed;
    ListingShowsTable(table, Listed(table)[n]);
  }

  lemma PresentExactly(table: seq<Route>, gateway: Address, interface: string)
    ensures (exists n | 0 <= n < |Listed(table)| :: Listed(table)[n].Leads(gateway, interface)) <==>
            exists k | 0 <= k < |table| :: LeadsTo(table[k], gateway, interface)
  {
    hide Listed;
    if k :| 0 <= k < |table| && LeadsTo(table[k], gateway, interface) {
      ListedIndex(table, k);
    }
    if n :| 0 <= n < |Listed(table)| && Listed(table)[n].Leads(gateway, interface) {
      TableIndex(table, n);
    }
  }

  lemma RivalExactly(table: seq<Route>, gateway: Address, interface: string)
    ensures (exists n | 0 <= n < |Listed(table)| :: Listed(table)[n].EffectiveMetric() == 0 && !Listed(table)[n].Leads(gateway, interface)) <==>
            exists k | 0 <= k < |table| :: AtStake(table[k]) && !LeadsTo(table[k], gateway, interface)
  {
    hide Listed;
    if k :| 0 <= k < |table| && AtStake(table[k]) && !LeadsTo(table[k], gateway, interface) {
      ListedIndex(table, k);
    }
    if n :| 0 <= n < |Listed(table)| && Listed(table)[n].EffectiveMetric() == 0 && !Listed(table)[n].Leads(gateway, interface) {
      TableIndex(table, n);
    }
  }

  /** The alarm, in terms of the table. */
  lemma AlarmExactly(table: seq<Route>, gateway: Address, interface: string)
    ensures Alarmed(Listed(table), gateway, interface) <==>
            || !(exists k | 0 <= k < |table| :: LeadsTo(table[k], gateway, interface))
            || (exists k | 0 <= k < |table| :: AtStake(table[k]) && !LeadsTo(table[k], gateway, interface))
  {
    hide Listed, LeadsTo, AtStake, InstalledRoute.Leads, InstalledRoute.EffectiveMetric;
    PresentExactly(table, gateway, interface);
    RivalExactly(table, gateway, interface);
  }

  /** After a tick whose commands succeed the table matches again, for every table an outside tool can leave
      behind but one kind: since presence ignores the metric, a table without any metric-0 next hop but
      with our route at another metric raises no alarm. */
  lemma WatchdogRepairsExactly(cfg: Config, e: Engine, at: int, sh: Shell)
    requires e.active.Some? && e.active.value in cfg.of && sh.AllOk()
    ensures RouteMatches(cfg, WatchdogTick(cfg, e, at, true, sh)) <==>
            !OursOnlyElsewhere(e.table, cfg.of[e.active.value].gateway, cfg.of[e.active.value].interface)
  {
    var c := cfg.of[e.active.value];
    AlarmExactly(e.table, c.gateway, c.interface);
    if Alarmed(Listed(e.table), c.gateway, c.interface) {
      hide InstallDefault;
      InstallMatchesExactly(cfg, e, e.active.value, sh);
    }
  }
}
