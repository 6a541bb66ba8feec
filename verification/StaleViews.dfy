/**
 Failbacks when tasks interleave (`reconcile_inner` in `src/core/balancer.rs`): views are read before the lock on
 `active` is taken, so a commit may act on views that are older than the last switch. Then two failbacks may follow
 each other at once; as long as views are not that old, they are the window apart.
 */
module StaleViews {
  import opened Basics
  import opened Selection
  import opened HealthMachine
  import opened Layers
  import opened FlapDamping
  import opened Routing
  import opened Failover
  import opened TwoPhase

  /** Move `k` is a commit that fails back to `r`. */
  ghost predicate FailsBackIn(cfg: Config, sys: System, moves: seq<Move>, k: nat, r: string) {
    && k < |moves| && moves[k].Commit? && moves[k].cmds.switchOver.replaceOk
    && var before := Interleaving(cfg, sys, moves[..k]);
       && PhaseOf(before, moves[k].id).HasViews?
       && DecideOn(before.engine, PhaseOf(before, moves[k].id).snapshot) == Switch(r, Failback)
  }

  /** What its task had read. */
  function SnapshotAt(cfg: Config, sys: System, moves: seq<Move>, k: nat): Snapshot
    requires k < |moves| && moves[k].Commit? && PhaseOf(Interleaving(cfg, sys, moves[..k]), moves[k].id).HasViews?
  {
    PhaseOf(Interleaving(cfg, sys, moves[..k]), moves[k].id).snapshot
  }

  // ── a stale view undoes the wait ──────────────────────────────────────

  /** Two tasks read the same views; one fails back to `a`, which dies, so that a third task leaves it again; then the
      other of the two commits. */
  function Overtaken(a: string, answers: Answers, now: int, at: int, cmds: Commands): seq<Move> {
    Reads(0, now) + Reads(1, now) + [Commit(0, false, cmds)] + [Probe(a, answers, at)] + Reads(2, at)
    + [Commit(2, false, cmds)] + [Commit(1, false, cmds)]
  }

  /** Two providers, the better one back for as long as the window asks. */
  ghost predicate FailbackIsOpen(cfg: Config, e: Engine, a: string, b: string, now: int) {
    && cfg.Valid() && cfg.names == [a, b] && a in cfg.of && b in cfg.of && cfg.of[a].priority < cfg.of[b].priority
    && e.providers.Keys == cfg.of.Keys && e.active == Some(b) && e.forced == None && IsUpIn(e, a) && IsUpIn(e, b)
    && HealthOf(e, a).upSince.Some?
    && now - HealthOf(e, a).upSince.value >= ChronoSpan(EffectiveFailback(e.flap, now, cfg.flap))
  }

  lemma OpenFailsBack(cfg: Config, e: Engine, a: string, b: string, now: int)
    requires FailbackIsOpen(cfg, e, a, b, now)
    ensures DecideOn(e, TakeSnapshot(cfg, e, now)) == Switch(a, Failback)
  {
    hide EffectiveFailback, Config.Valid;
    var va, vb := ViewOf(cfg, e, a), ViewOf(cfg, e, b);
    assert Views(cfg, e) == [va, vb];
    TwoViews(va, vb);
  }

  lemma TwoViews(va: ProviderView, vb: ProviderView)
    requires va.priority < vb.priority && vb.IsUp()
    ensures BestHealthy([va, vb]) == Some(if va.IsUp() then va else vb)
  {
    assert [va, vb][..1] == [va] && [va][..0] == [];
    assert BestHealthy([va]) == if va.IsUp() then Some(va) else None;
  }

  lemma DownIsLeft(cfg: Config, e: Engine, a: string, b: string, now: int)
    requires cfg.names == [a, b] && a != b && a in cfg.of && b in cfg.of && cfg.of[a].priority < cfg.of[b].priority
    requires e.active == Some(a) && e.forced == None && HealthOf(e, a).state == Down && IsUpIn(e, b)
    ensures DecideOn(e, TakeSnapshot(cfg, e, now)) == Switch(b, CurrentDown)
  {
    hide EffectiveFailback;
    var va, vb := ViewOf(cfg, e, a), ViewOf(cfg, e, b);
    assert Views(cfg, e) == [va, vb];
    TwoViews(va, vb);
  }

  lemma GoesDown(cfg: Config, e: Engine, a: string, b: string, answers: Answers, at: int)
    requires a in e.providers && b in e.providers && a != b && IsUpIn(e, a)
    requires cfg.checks.thresholds.failure == 1 && !answers.gateway
    ensures var probed := ProbeProvider(cfg, e, a, answers, at);
            HealthOf(probed, a).state == Down && HealthOf(probed, b) == HealthOf(e, b)
            && probed.active == e.active && probed.forced == e.forced
  {
  }

  /** One more move at the end. */
  lemma JoinOne(cfg: Config, sys: System, a: seq<Move>, m: Move)
    ensures Interleaving(cfg, sys, a + [m]) == Next(cfg, Interleaving(cfg, sys, a), m)
  {
    Joined(cfg, sys, a, [m]);
    OneMove(cfg, Interleaving(cfg, sys, a), m);
  }

  lemma CommitMoves(cfg: Config, sys: System, id: nat, s: Snapshot, cmds: Commands, to: string, reason: Reason)
    requires PhaseOf(sys, id) == HasViews(s) && DecideOn(sys.engine, s) == Switch(to, reason)
    requires to in cfg.of && cmds.switchOver.replaceOk
    ensures var next := Next(cfg, sys, Commit(id, false, cmds));
            && next.tasks == sys.tasks[id := Idle] && next.engine.active == Some(to)
            && next.engine.providers == sys.engine.providers && next.engine.forced == sys.engine.forced
  {
    hide Failover.Commit, Decide;
    CommitEffect(cfg, sys.engine, s, false, cmds);
  }

  /** The states the interleaving goes through: after both reads, after the first failback, after the provider died. */
  lemma UpToTheLoss(cfg: Config, sys: System, a: string, b: string, answers: Answers, now: int, at: int, cmds: Commands)
    requires FailbackIsOpen(cfg, sys.engine, a, b, now) && cmds.switchOver.replaceOk
    requires cfg.checks.thresholds.failure == 1 && !answers.gateway
    ensures var s := TakeSnapshot(cfg, sys.engine, now);
            var read := Interleaving(cfg, sys, Reads(0, now) + Reads(1, now));
            var lost := Interleaving(cfg, sys, Reads(0, now) + Reads(1, now) + [Commit(0, false, cmds)] + [Probe(a, answers, at)]);
            && read.engine == sys.engine && PhaseOf(read, 0) == HasViews(s) && PhaseOf(read, 1) == HasViews(s)
            && PhaseOf(lost, 1) == HasViews(s) && lost.engine.active == Some(a) && lost.engine.forced == None
            && HealthOf(lost.engine, a).state == Down && IsUpIn(lost.engine, b)
  {
    hide Interleaving, EffectiveFailback, Decide, Config.Valid, ProbeProvider, HealthOf, TakeSnapshot, Failover.Commit;
    var s := TakeSnapshot(cfg, sys.engine, now);
    var first := Interleaving(cfg, sys, Reads(0, now));
    Joined(cfg, sys, Reads(0, now), Reads(1, now));
    ReadsTakeSnapshot(cfg, sys, 0, now);
    ReadsTakeSnapshot(cfg, first, 1, now);
    var both := Reads(0, now) + Reads(1, now);
    var read := Interleaving(cfg, sys, both);
    OpenFailsBack(cfg, sys.engine, a, b, now);
    CommitMoves(cfg, read, 0, s, cmds, a, Failback);
    JoinOne(cfg, sys, both, Commit(0, false, cmds));
    JoinOne(cfg, sys, both + [Commit(0, false, cmds)], Probe(a, answers, at));
    var back := Next(cfg, read, Commit(0, false, cmds));
    SameHealth(sys.engine, back.engine, a);
    SameHealth(sys.engine, back.engine, b);
    GoesDown(cfg, back.engine, a, b, answers, at);
  }

  lemma SameHealth(e: Engine, other: Engine, name: string)
    requires e.providers == other.providers
    ensures HealthOf(e, name) == HealthOf(other, name)
  {
  }

  /** Whatever the window, the same provider is failed back to twice on one reading of the clock, although it died in
      between. */
  lemma StaleViewFailsBackAtOnce(cfg: Config, sys: System, a: string, b: string, answers: Answers, now: int, at: int, cmds: Commands)
    requires FailbackIsOpen(cfg, sys.engine, a, b, now) && cmds.switchOver.replaceOk
    requires cfg.checks.thresholds.failure == 1 && !answers.gateway
    ensures var moves := Overtaken(a, answers, now, at, cmds);
            && FailsBackIn(cfg, sys, moves, 6, a) && FailsBackIn(cfg, sys, moves, 12, a)
            && SnapshotAt(cfg, sys, moves, 6).now == SnapshotAt(cfg, sys, moves, 12).now == now
            && HealthOf(Interleaving(cfg, sys, moves[..12]).engine, a).state == Down
  {
    hide Interleaving, EffectiveFailback, Decide, Config.Valid, ProbeProvider, HealthOf, Failover.Commit, Views, TakeSnapshot;
    var moves := Overtaken(a, answers, now, at, cmds);
    var both, commit := Reads(0, now) + Reads(1, now), Commit(0, false, cmds);
    var toLoss := both + [commit] + [Probe(a, answers, at)];
    assert moves[..6] == both && moves[..12] == toLoss + Reads(2, at) + [Commit(2, false, cmds)];
    UpToTheLoss(cfg, sys, a, b, answers, now, at, cmds);
    OpenFailsBack(cfg, sys.engine, a, b, now);
    SnapshotNow(cfg, sys.engine, now);
    var lost := Interleaving(cfg, sys, toLoss);
    Joined(cfg, sys, toLoss, Reads(2, at));
    ReadsTakeSnapshot(cfg, lost, 2, at);
    DownIsLeft(cfg, lost.engine, a, b, at);
    JoinOne(cfg, sys, toLoss + Reads(2, at), Commit(2, false, cmds));
    var late := Interleaving(cfg, sys, toLoss + Reads(2, at));
    CommitMoves(cfg, late, 2, TakeSnapshot(cfg, lost.engine, at), cmds, b, CurrentDown);
    SameHealth(late.engine, Interleaving(cfg, sys, moves[..12]).engine, a);
  }

  lemma SnapshotNow(cfg: Config, e: Engine, now: int)
    ensures TakeSnapshot(cfg, e, now).now == now
  {
    hide EffectiveFailback, Views;
  }

  // ── views no older than the last switch ───────────────────────────────

  /** The tasks whose views were read after the active provider last changed, one move on. */
  function FreshAfter(cfg: Config, sys: System, m: Move, upToDate: set<nat>): set<nat> {
    if Next(cfg, sys, m).engine.active != sys.engine.active then {}
    else
      match m
      case ReadPin(id) => upToDate - {id}
      case ReadViews(id) => if PhaseOf(sys, id).HasWindow? then upToDate + {id} else upToDate
      case _ => upToDate
  }

  /** Those tasks after a run. */
  function Fresh(cfg: Config, sys: System, moves: seq<Move>): set<nat> {
    if |moves| == 0 then {}
    else
      var init, m := moves[..|moves| - 1], moves[|moves| - 1];
      FreshAfter(cfg, Interleaving(cfg, sys, init), m, Fresh(cfg, sys, init))
  }

  /** If move `k` changes the active provider, it acts on fresh views. */
  ghost predicate ActsOnFresh(cfg: Config, sys: System, moves: seq<Move>, k: nat)
    requires k < |moves|
  {
    var before := Interleaving(cfg, sys, moves[..k]);
    Next(cfg, before, moves[k]).engine.active == before.engine.active
    || (moves[k].Commit? && moves[k].id in Fresh(cfg, sys, moves[..k]))
  }

  /** Nobody is pinned, in the engine or in what a task has read. */
  ghost predicate NoPins(sys: System) {
    && sys.engine.forced == None
    && forall id | id in sys.tasks ::
         match sys.tasks[id]
         case Idle => true
         case HasPin(forced) => forced == None
         case HasWindow(forced, _, _) => forced == None
         case HasViews(s) => s.forced == None
  }

  predicate SetsPin(m: Move) {
    m.SetPin? && m.pin.Some?
  }

  /** Up since before `t`. */
  predicate UpSinceBefore(state: State, upSince: Option<int>, t: int) {
    state == Up && !(upSince.Some? && upSince.value >= t)
  }

  predicate OldUp(e: Engine, r: string, t: int) {
    UpSinceBefore(HealthOf(e, r).state, HealthOf(e, r).upSince, t)
  }

  predicate NotOutranked(cfg: Config, e: Engine, r: string) {
    e.active.Some? && PriorityOf(cfg, e.active.value) <= PriorityOf(cfg, r)
  }

  /** Nothing has let `r` come back since `t`, in the engine or in views a task has read. */
  ghost predicate Held(cfg: Config, e: Engine, r: string, t: int) {
    OldUp(e, r, t) ==> NotOutranked(cfg, e, r)
  }

  ghost predicate ShowsHeld(cfg: Config, e: Engine, s: Snapshot, r: string, t: int) {
    && Distinct(s.views) && (forall v | v in s.views :: v.priority == PriorityOf(cfg, v.name))
    && exists v :: v in s.views && v.name == r
         && (UpSinceBefore(v.state, v.upSince, t) ==> NotOutranked(cfg, e, r))
         && (OldUp(e, r, t) ==> v.state == Up)
  }

  ghost predicate AllHeld(cfg: Config, sys: System, upToDate: set<nat>, r: string, t: int) {
    && Held(cfg, sys.engine, r, t)
    && forall id | id in upToDate && PhaseOf(sys, id).HasViews? :: ShowsHeld(cfg, sys.engine, PhaseOf(sys, id).snapshot, r, t)
  }

  lemma ProbeKeepsOld(cfg: Config, e: Engine, name: string, answers: Answers, at: int, r: string, t: int)
    requires at >= t && OldUp(ProbeProvider(cfg, e, name, answers, at), r, t)
    ensures OldUp(e, r, t)
  {
    hide RollUp;
  }

  lemma ProbeKeepsHeld(cfg: Config, e: Engine, name: string, answers: Answers, at: int, s: Snapshot, r: string, t: int)
    requires at >= t
    ensures var probed := ProbeProvider(cfg, e, name, answers, at);
            && (Held(cfg, e, r, t) ==> Held(cfg, probed, r, t))
            && (ShowsHeld(cfg, e, s, r, t) ==> ShowsHeld(cfg, probed, s, r, t))
  {
    hide HealthRound, OldUp, Distinct;
    var probed := ProbeProvider(cfg, e, name, answers, at);
    assert probed.active == e.active;
    if OldUp(probed, r, t) {
      ProbeKeepsOld(cfg, e, name, answers, at, r, t);
    }
  }

  lemma ViewsShowHeld(cfg: Config, e: Engine, s: Snapshot, r: string, t: int)
    requires cfg.Valid() && Held(cfg, e, r, t) && r in cfg.of && s.views == Views(cfg, e)
    ensures ShowsHeld(cfg, e, s, r, t)
  {
    hide Distinct, Config.Valid;
    ViewsCoverProviders(cfg, e);
    assert ViewOf(cfg, e, r) in s.views;
  }

  /** A switch on fresh views leaves `r` held: if it is up for long, the views showed it, and the switch went to a
      provider at least as good. */
  lemma FreshSwitchHolds(cfg: Config, e: Engine, s: Snapshot, next: Engine, to: string, r: string, t: int)
    requires s.forced == None && DecideOn(e, s).Switch? && DecideOn(e, s).to == to
    requires ShowsHeld(cfg, e, s, r, t) && next.providers == e.providers && next.active == Some(to)
    ensures Held(cfg, next, r, t)
  {
    hide Decide, Distinct;
    DecisionMeaning(SelectionInput(s.now, e.active, s.forced, s.views, s.failbackStable));
    var p :| Least(s.views, p) && p.name == to;
    LeastIsUp(s.views, p);
    SameHealth(e, next, r);
  }

  /** Coming back on fresh views takes the whole window, counted from `t`. */
  lemma FreshFailbackWaited(cfg: Config, e: Engine, s: Snapshot, r: string, t: int)
    requires ShowsHeld(cfg, e, s, r, t) && DecideOn(e, s) == Switch(r, Failback)
    ensures s.now - t >= ChronoSpan(s.failbackStable)
  {
    hide Decide, Distinct;
    var i := SelectionInput(s.now, e.active, s.forced, s.views, s.failbackStable);
    FailbackIsDue(i, r);
    var c, p :| FailbackDue(i, c, p) && p.name == r;
    LeastIsUp(s.views, p);
    SameName(s.views, p, r);
  }

  lemma SameName(ps: seq<ProviderView>, p: ProviderView, r: string)
    requires Distinct(ps) && p in ps && p.name == r
    ensures forall v | v in ps && v.name == r :: v == p
  {
  }

  lemma SameActiveSameHeld(cfg: Config, e: Engine, next: Engine, s: Snapshot, r: string, t: int)
    requires next.active == e.active && next.providers == e.providers
    ensures Held(cfg, e, r, t) == Held(cfg, next, r, t) && ShowsHeld(cfg, e, s, r, t) == ShowsHeld(cfg, next, s, r, t)
  {
    hide Distinct;
    SameHealth(e, next, r);
  }

  lemma MoveKeepsNoPins(cfg: Config, sys: System, m: Move)
    requires NoPins(sys) && !SetsPin(m)
    ensures NoPins(Next(cfg, sys, m))
  {
    hide Failover.Commit, HealthRound, Decide, EffectiveFailback, Views, InstallDefault, Alarmed;
    if m.Commit? && PhaseOf(sys, m.id).HasViews? {
      CommitEffect(cfg, sys.engine, PhaseOf(sys, m.id).snapshot, m.always, m.cmds);
    }
  }

  /** What a move leaves alone. */
  lemma QuietMove(cfg: Config, sys: System, m: Move)
    requires !m.Commit? && !m.Probe?
    ensures var next := Next(cfg, sys, m);
            && next.engine.active == sys.engine.active && next.engine.providers == sys.engine.providers
            && forall id | id in next.tasks && next.tasks[id].HasViews? ::
                 (id in sys.tasks && next.tasks[id] == sys.tasks[id])
                 || (m == ReadViews(id) && PhaseOf(sys, id).HasWindow? && next.tasks[id].snapshot.views == Views(cfg, sys.engine))
  {
    hide EffectiveFailback, Views, InstallDefault, Alarmed;
  }

  lemma CommitStep(cfg: Config, sys: System, m: Move)
    requires m.Commit?
    ensures var next := Next(cfg, sys, m);
            && next.engine.providers == sys.engine.providers
            && (forall id | id in next.tasks && next.tasks[id].HasViews? :: id in sys.tasks && next.tasks[id] == sys.tasks[id])
            && (next.engine.active != sys.engine.active ==>
                PhaseOf(sys, m.id).HasViews? && var d := DecideOn(sys.engine, PhaseOf(sys, m.id).snapshot);
                d.Switch? && next.engine.active == Some(d.to))
  {
    hide Failover.Commit, Decide;
    if PhaseOf(sys, m.id).HasViews? {
      CommitEffect(cfg, sys.engine, PhaseOf(sys, m.id).snapshot, m.always, m.cmds);
    }
  }

  lemma MoveKeepsHeld(cfg: Config, sys: System, m: Move, upToDate: set<nat>, r: string, t: int)
    requires cfg.Valid() && NoPins(sys) && !SetsPin(m) && r in cfg.of && (m.Probe? ==> m.at >= t)
    requires AllHeld(cfg, sys, upToDate, r, t)
    requires Next(cfg, sys, m).engine.active != sys.engine.active ==> m.Commit? && m.id in upToDate
    ensures AllHeld(cfg, Next(cfg, sys, m), FreshAfter(cfg, sys, m, upToDate), r, t)
  {
    hide Next, Held, ShowsHeld, Config.Valid, Decide, HealthRound;
    var next := Next(cfg, sys, m);
    var after := FreshAfter(cfg, sys, m, upToDate);
    if m.Probe? {
      ProbeMove(cfg, sys, m);
      forall id | id in after && PhaseOf(next, id).HasViews? ensures ShowsHeld(cfg, next.engine, PhaseOf(next, id).snapshot, r, t) {
        ProbeKeepsHeld(cfg, sys.engine, m.name, m.answers, m.at, PhaseOf(sys, id).snapshot, r, t);
      }
      ProbeKeepsHeld(cfg, sys.engine, m.name, m.answers, m.at, Snapshot(None, 0, 0, []), r, t);
    } else if m.Commit? {
      CommitStep(cfg, sys, m);
      if next.engine.active != sys.engine.active {
        var s := PhaseOf(sys, m.id).snapshot;
        FreshSwitchHolds(cfg, sys.engine, s, next.engine, DecideOn(sys.engine, s).to, r, t);
      } else {
        SameActiveSameHeld(cfg, sys.engine, next.engine, Snapshot(None, 0, 0, []), r, t);
        forall id | id in after && PhaseOf(next, id).HasViews? ensures ShowsHeld(cfg, next.engine, PhaseOf(next, id).snapshot, r, t) {
          SameActiveSameHeld(cfg, sys.engine, next.engine, PhaseOf(next, id).snapshot, r, t);
        }
      }
    } else {
      QuietMove(cfg, sys, m);
      SameActiveSameHeld(cfg, sys.engine, next.engine, Snapshot(None, 0, 0, []), r, t);
      forall id | id in after && PhaseOf(next, id).HasViews? ensures ShowsHeld(cfg, next.engine, PhaseOf(next, id).snapshot, r, t) {
        var s := PhaseOf(next, id).snapshot;
        SameActiveSameHeld(cfg, sys.engine, next.engine, s, r, t);
        if m == ReadViews(id) && PhaseOf(sys, id).HasWindow? {
          ViewsShowHeld(cfg, sys.engine, s, r, t);
        }
      }
    }
  }

  lemma ProbeMove(cfg: Config, sys: System, m: Move)
    requires m.Probe?
    ensures var next := Next(cfg, sys, m);
            && next.tasks == sys.tasks && next.engine == ProbeProvider(cfg, sys.engine, m.name, m.answers, m.at)
            && next.engine.active == sys.engine.active
  {
    hide HealthRound;
  }

  // ── the clock ─────────────────────────────────────────────────────────

  predicate Timed(m: Move) {
    m.Probe? || m.ReadWindow?
  }

  function TimeOf(m: Move): int
    requires Timed(m)
  {
    if m.Probe? then m.at else m.now
  }

  /** The latest reading of the clock. */
  function Clock(moves: seq<Move>, start: int): int {
    if |moves| == 0 then start
    else if Timed(moves[|moves| - 1]) then TimeOf(moves[|moves| - 1])
    else Clock(moves[..|moves| - 1], start)
  }

  /** The clock never runs backwards. */
  ghost predicate ForwardClock(moves: seq<Move>, start: int) {
    forall k | 0 <= k < |moves| && Timed(moves[k]) :: Clock(moves[..k], start) <= TimeOf(moves[k])
  }

  lemma {:induction false} ClockGrows(moves: seq<Move>, start: int, j: nat, k: nat)
    requires ForwardClock(moves, start) && j <= k <= |moves|
    ensures Clock(moves[..j], start) <= Clock(moves[..k], start)
  {
    if j < k {
      ClockGrows(moves, start, j, k - 1);
      assert moves[..k][..k - 1] == moves[..k - 1] && moves[..k][k - 1] == moves[k - 1];
    }
  }

  /** What tasks have read of the clock is no later than `now`. */
  ghost predicate ReadBy(sys: System, now: int) {
    forall id | id in sys.tasks ::
      (sys.tasks[id].HasWindow? ==> sys.tasks[id].now <= now) && (sys.tasks[id].HasViews? ==> sys.tasks[id].snapshot.now <= now)
  }

  lemma MoveKeepsReadBy(cfg: Config, sys: System, m: Move, before: int, after: int)
    requires ReadBy(sys, before) && before <= after && (Timed(m) ==> after == TimeOf(m))
    ensures ReadBy(Next(cfg, sys, m), after)
  {
    hide Failover.Commit, HealthRound, EffectiveFailback, Views, InstallDefault, Alarmed, Decide;
  }

  // ── over whole interleavings ──────────────────────────────────────────

  /** An interleaving without pins, on a clock that goes forward. */
  ghost predicate PinFree(cfg: Config, sys: System, moves: seq<Move>, start: int) {
    && cfg.Valid() && SysInv(cfg, sys) && NoPins(sys) && ReadBy(sys, start) && ForwardClock(moves, start)
    && forall k | 0 <= k < |moves| :: !SetsPin(moves[k])
  }

  lemma NextAt(cfg: Config, sys: System, moves: seq<Move>, k: nat)
    requires k < |moves|
    ensures Interleaving(cfg, sys, moves[..k + 1]) == Next(cfg, Interleaving(cfg, sys, moves[..k]), moves[k])
    ensures Fresh(cfg, sys, moves[..k + 1]) == FreshAfter(cfg, Interleaving(cfg, sys, moves[..k]), moves[k], Fresh(cfg, sys, moves[..k]))
  {
    hide Next, FreshAfter;
    assert moves[..k + 1][..k] == moves[..k];
  }

  lemma {:induction false} StaysPinFree(cfg: Config, sys: System, moves: seq<Move>, start: int, k: nat)
    requires PinFree(cfg, sys, moves, start) && k <= |moves|
    ensures var now := Interleaving(cfg, sys, moves[..k]);
            SysInv(cfg, now) && NoPins(now) && ReadBy(now, Clock(moves[..k], start))
  {
    hide Next, SysInv, NoPins, ReadBy, SetsPin, Config.Valid;
    InterleavingKeepsInv(cfg, sys, moves[..k]);
    if k == 0 {
      assert moves[..0] == [];
    } else {
      StaysPinFree(cfg, sys, moves, start, k - 1);
      NextAt(cfg, sys, moves, k - 1);
      ClockGrows(moves, start, k - 1, k);
      var before := Interleaving(cfg, sys, moves[..k - 1]);
      assert !SetsPin(moves[k - 1]);
      MoveKeepsNoPins(cfg, before, moves[k - 1]);
      MoveKeepsReadBy(cfg, before, moves[k - 1], Clock(moves[..k - 1], start), Clock(moves[..k], start));
    }
  }

  lemma FailbackHoldsAt(cfg: Config, sys: System, moves: seq<Move>, j: nat, r: string, t: int)
    requires j < |moves| && cfg.Valid() && SysInv(cfg, Interleaving(cfg, sys, moves[..j])) && FailsBackIn(cfg, sys, moves, j, r)
    ensures r in cfg.of && AllHeld(cfg, Interleaving(cfg, sys, moves[..j + 1]), Fresh(cfg, sys, moves[..j + 1]), r, t)
  {
    hide Interleaving, Fresh, Failover.Commit, Decide, Config.Valid, ShowsHeld;
    NextAt(cfg, sys, moves, j);
    var before := Interleaving(cfg, sys, moves[..j]);
    var s := PhaseOf(before, moves[j].id).snapshot;
    CommitPicksFromView(cfg, before.engine, s);
    CommitEffect(cfg, before.engine, s, moves[j].always, moves[j].cmds);
  }

  lemma {:induction false} HeldUntilMove(cfg: Config, sys: System, moves: seq<Move>, start: int, r: string, j: nat, k: nat)
    requires PinFree(cfg, sys, moves, start) && j < k <= |moves| && FailsBackIn(cfg, sys, moves, j, r)
    requires forall m | j < m < k :: ActsOnFresh(cfg, sys, moves, m)
    ensures r in cfg.of
    ensures AllHeld(cfg, Interleaving(cfg, sys, moves[..k]), Fresh(cfg, sys, moves[..k]), r, SnapshotAt(cfg, sys, moves, j).now)
  {
    hide Interleaving, Fresh, Next, FreshAfter, AllHeld, NoPins, SetsPin, DecideOn, Config.Valid, SysInv;
    var t := SnapshotAt(cfg, sys, moves, j).now;
    StaysPinFree(cfg, sys, moves, start, j);
    if k == j + 1 {
      FailbackHoldsAt(cfg, sys, moves, j, r, t);
    } else {
      HeldUntilMove(cfg, sys, moves, start, r, j, k - 1);
      StaysPinFree(cfg, sys, moves, start, k - 1);
      NextAt(cfg, sys, moves, k - 1);
      ClockGrows(moves, start, j, k - 1);
      assert ActsOnFresh(cfg, sys, moves, k - 1) && !SetsPin(moves[k - 1]);
      ReadBefore(Interleaving(cfg, sys, moves[..j]), moves[j].id, Clock(moves[..j], start));
      MoveKeepsHeld(cfg, Interleaving(cfg, sys, moves[..k - 1]), moves[k - 1], Fresh(cfg, sys, moves[..k - 1]), r, t);
    }
  }

  lemma ReadBefore(sys: System, id: nat, now: int)
    requires ReadBy(sys, now) && PhaseOf(sys, id).HasViews?
    ensures PhaseOf(sys, id).snapshot.now <= now
  {
  }

  /** Over every interleaving without pins in which, after the first of two failbacks to one provider, switches act on
      views read since the switch before them: the two are at least the later one's window apart, on the clock as the
      tasks had read it. */
  lemma FreshFailbacksAreSpaced(cfg: Config, sys: System, moves: seq<Move>, start: int, r: string, j: nat, k: nat)
    requires PinFree(cfg, sys, moves, start) && j < k < |moves|
    requires FailsBackIn(cfg, sys, moves, j, r) && FailsBackIn(cfg, sys, moves, k, r)
    requires forall m | j < m <= k :: ActsOnFresh(cfg, sys, moves, m)
    ensures SnapshotAt(cfg, sys, moves, k).now - SnapshotAt(cfg, sys, moves, j).now >= ChronoSpan(SnapshotAt(cfg, sys, moves, k).failbackStable)
  {
    hide Interleaving, Fresh, Config.Valid, SysInv, ShowsHeld, Decide;
    HeldUntilMove(cfg, sys, moves, start, r, j, k);
    StaysPinFree(cfg, sys, moves, start, k);
    var before, s := Interleaving(cfg, sys, moves[..k]), SnapshotAt(cfg, sys, moves, k);
    assert ActsOnFresh(cfg, sys, moves, k);
    SwitchActs(cfg, before, moves[k], r);
    FreshFailbackWaited(cfg, before.engine, s, r, SnapshotAt(cfg, sys, moves, j).now);
  }

  lemma SwitchActs(cfg: Config, sys: System, m: Move, r: string)
    requires cfg.Valid() && SysInv(cfg, sys) && m.Commit? && m.cmds.switchOver.replaceOk && PhaseOf(sys, m.id).HasViews?
    requires DecideOn(sys.engine, PhaseOf(sys, m.id).snapshot) == Switch(r, Failback)
    ensures Next(cfg, sys, m).engine.active != sys.engine.active
  {
    hide Failover.Commit, Decide, Config.Valid;
    CommitPicksFromView(cfg, sys.engine, PhaseOf(sys, m.id).snapshot);
    CommitEffect(cfg, sys.engine, PhaseOf(sys, m.id).snapshot, m.always, m.cmds);
  }
}
