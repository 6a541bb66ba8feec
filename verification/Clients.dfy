/**
 LAN clients: per-client counters and their sampling (`src/net/clients.rs`), and the loop that turns
 samples into presence sessions and traffic rows (`src/core/balancer.rs`, `src/obs/stats.rs`).
 */
module Clients {
  import opened Basics
  import Selection
  import U = Uplinks

  type Counters = U.IfCounters

  type Ip = u32

  const DAY: int := 24 * 3600 * Selection.SECOND

  datatype ClientConfig = ClientConfig(offlineAfterSecs: nat, persistEverySecs: nat, maxTracked: nat)

  function OfflineAfter(cfg: ClientConfig): int {
    cfg.offlineAfterSecs * Selection.SECOND
  }

  function PersistEvery(cfg: ClientConfig): int {
    Max(cfg.persistEverySecs, 1) * Selection.SECOND
  }

  // ── one client ────────────────────────────────────────────────────────

  datatype ClientState = ClientState(online: bool, lastSeen: int, session: Option<nat>, pending: Counters, pendingSince: int)

  datatype Session = Session(started: int, ended: Option<int>)

  /** What is known of one client: its live state and its rows in the database. */
  datatype Account = Account(live: Option<ClientState>, sessions: seq<Session>, samples: seq<Counters>)

  /** What one round of sampling saw of a client. */
  datatype Sighting = Sighting(delta: Counters, seen: bool)

  function Fresh(now: int): ClientState {
    ClientState(false, now, None, U.NOTHING, now)
  }

  function Touch(e: Option<ClientState>, s: Sighting, now: int): ClientState {
    var c := if e.Some? then e.value else Fresh(now);
    var c := c.(pending := c.pending.Plus(s.delta));
    if s.seen then c.(lastSeen := now, online := true) else c
  }

  function TouchAll(e: Option<ClientState>, ss: seq<Sighting>, now: int): Option<ClientState> {
    if |ss| == 0 then e else Some(Touch(TouchAll(e, ss[..|ss| - 1], now), ss[|ss| - 1], now))
  }

  predicate IsOnline(e: Option<ClientState>) {
    e.Some? && e.value.online
  }

  predicate GoesOffline(cfg: ClientConfig, c: ClientState, now: int) {
    c.online && now - c.lastSeen > OfflineAfter(cfg)
  }

  predicate IsDue(cfg: ClientConfig, c: ClientState, now: int) {
    now - c.pendingSince >= PersistEvery(cfg)
  }

  function Sweep(cfg: ClientConfig, c: ClientState, now: int): ClientState {
    var presence := if GoesOffline(cfg, c, now) then c.(online := false, session := None) else c;
    if IsDue(cfg, c, now) then presence.(pending := U.NOTHING, pendingSince := now) else presence
  }

  predicate IsForgotten(cfg: ClientConfig, c: ClientState, now: int) {
    !Sweep(cfg, c, now).online && now - c.lastSeen > DAY
  }

  /** Ends a session, if it is there and still open. */
  function Close(sessions: seq<Session>, id: nat, at: int): seq<Session> {
    if id < |sessions| && sessions[id].ended.None? then sessions[id := sessions[id].(ended := Some(at))] else sessions
  }

  function ClosedBy(cfg: ClientConfig, c: ClientState, sessions: seq<Session>, now: int): seq<Session> {
    if GoesOffline(cfg, c, now) && c.session.Some? then Close(sessions, c.session.value, c.lastSeen) else sessions
  }

  function FlushedBy(cfg: ClientConfig, c: ClientState, samples: seq<Counters>, now: int): seq<Counters> {
    if IsDue(cfg, c, now) && c.pending != U.NOTHING then samples + [c.pending] else samples
  }

  /** One tick for one client: sightings, then the sweep, then the database. */
  function TickClient(cfg: ClientConfig, a: Account, ss: seq<Sighting>, now: int): Account {
    match TouchAll(a.live, ss, now)
    case None => a
    case Some(c) =>
      var joins := !IsOnline(a.live) && c.online;
      var swept := Sweep(cfg, c, now);
      var sessions := ClosedBy(cfg, c, a.sessions, now);
      Account(if IsForgotten(cfg, c, now) then None else Some(if joins then swept.(session := Some(|sessions|)) else swept),
              if joins then sessions + [Session(now, None)] else sessions,
              FlushedBy(cfg, c, a.samples, now))
  }

  /** The last session left open, if any. */
  function OpenSession(sessions: seq<Session>, n: nat): (r: Option<nat>)
    requires n <= |sessions|
    ensures match r
            case None => forall i | 0 <= i < n :: sessions[i].ended.Some?
            case Some(k) => k < n && sessions[k].ended.None? && forall i | k < i < n :: sessions[i].ended.Some?
  {
    if n == 0 then None else if sessions[n - 1].ended.None? then Some(n - 1) else OpenSession(sessions, n - 1)
  }

  /** A new process takes up a session left open, and starts with nothing pending. */
  function Resume(a: Account, now: int): Account {
    var open := OpenSession(a.sessions, |a.sessions|);
    a.(live := if open.Some? then Some(ClientState(true, now, open, U.NOTHING, now)) else None)
  }

  /** Everything pending is written out at shutdown. */
  function FlushClient(a: Account, now: int): Account {
    if a.live.Some? && a.live.value.pending != U.NOTHING
    then a.(live := Some(a.live.value.(pending := U.NOTHING, pendingSince := now)), samples := a.samples + [a.live.value.pending])
    else a
  }

  // ── sessions ──────────────────────────────────────────────────────────

  datatype Occasion = Ticked(sightings: seq<Sighting>) | Restarted | ShutDown

  predicate WellBefore(cfg: ClientConfig, a: Session, b: Session) {
    a.ended.Some? && b.started - a.ended.value > OfflineAfter(cfg)
  }

  /** Every session but the last has ended, no earlier than it began, and more than the grace period before
      any later one began. */
  ghost predicate Separate(cfg: ClientConfig, sessions: seq<Session>) {
    && (forall i | 0 <= i < |sessions| :: sessions[i].ended.Some? ==> sessions[i].started <= sessions[i].ended.value)
    && (forall i, j | 0 <= i < j < |sessions| :: WellBefore(cfg, sessions[i], sessions[j]))
  }

  predicate LastIsOpen(sessions: seq<Session>) {
    |sessions| != 0 && sessions[|sessions| - 1].ended.None?
  }

  /** An open session is the live one's; a closed history ended more than the grace period ago. */
  ghost predicate InStep(cfg: ClientConfig, a: Account, clock: int) {
    && Separate(cfg, a.sessions)
    && (IsOnline(a.live) <==> LastIsOpen(a.sessions))
    && (a.live.Some? ==> a.live.value.lastSeen <= clock)
    && (IsOnline(a.live) ==>
        && a.live.value.session == Some(|a.sessions| - 1)
        && a.sessions[|a.sessions| - 1].started <= a.live.value.lastSeen)
    && (!LastIsOpen(a.sessions) ==>
        forall i | 0 <= i < |a.sessions| :: clock - a.sessions[i].ended.value > OfflineAfter(cfg))
  }

  lemma {:induction false} TouchAllMeaning(e: Option<ClientState>, ss: seq<Sighting>, now: int)
    ensures var r := TouchAll(e, ss, now);
            && (r.None? <==> e.None? && |ss| == 0)
            && (e.Some? ==> r.value.session == e.value.session && r.value.pendingSince == e.value.pendingSince
                            && (r.value.lastSeen == now || r.value.lastSeen == e.value.lastSeen))
            && (e.None? && r.Some? ==> r.value.session == None && r.value.pendingSince == now && r.value.lastSeen == now)
            && (r.Some? && r.value.online && !IsOnline(e) ==> r.value.lastSeen == now)
            && (IsOnline(e) ==> r.value.online)
  {
    if |ss| != 0 {
      TouchAllMeaning(e, ss[..|ss| - 1], now);
    }
  }

  ghost predicate Seen(ss: seq<Sighting>) {
    exists k :: 0 <= k < |ss| && ss[k].seen
  }

  lemma SeenNext(ss: seq<Sighting>)
    requires |ss| != 0
    ensures Seen(ss) <==> Seen(ss[..|ss| - 1]) || ss[|ss| - 1].seen
  {
    var init := ss[..|ss| - 1];
    if k :| 0 <= k < |init| && init[k].seen {
      assert ss[k].seen;
    }
    if k :| 0 <= k < |ss| && ss[k].seen {
      assert k < |init| ==> init[k].seen;
    }
  }

  lemma {:induction false} TouchedExactly(e: Option<ClientState>, ss: seq<Sighting>, now: int)
    ensures var r := TouchAll(e, ss, now);
            r.Some? ==>
              && (r.value.online <==> IsOnline(e) || Seen(ss))
              && r.value.lastSeen == if Seen(ss) || e.None? then now else e.value.lastSeen
  {
    if |ss| != 0 {
      TouchedExactly(e, ss[..|ss| - 1], now);
      SeenNext(ss);
    }
  }

  /** One tick's presence, for a client in step: it is online afterwards exactly if it was seen in this tick, or was
      online and seen within the grace period; coming online opens a session now, going offline ends the open one when
      the client was last seen; and it is forgotten exactly if it has been gone for more than a day. */
  lemma PresenceExactly(cfg: ClientConfig, a: Account, clock: int, ss: seq<Sighting>, now: int)
    requires InStep(cfg, a, clock) && clock <= now
    ensures var after, n := TickClient(cfg, a, ss, now), |a.sessions|;
            && (IsOnline(after.live) <==> Seen(ss) || (IsOnline(a.live) && now - a.live.value.lastSeen <= OfflineAfter(cfg)))
            && (!IsOnline(a.live) && Seen(ss) ==> after.sessions == a.sessions + [Session(now, None)])
            && (IsOnline(a.live) && !IsOnline(after.live) ==>
                n != 0 && after.sessions == a.sessions[..n - 1] + [Session(a.sessions[n - 1].started, Some(a.live.value.lastSeen))])
            && (IsOnline(a.live) == IsOnline(after.live) ==> after.sessions == a.sessions)
            && (after.live.None? <==>
                if a.live.None? then |ss| == 0
                else !Seen(ss) && !IsOnline(after.live) && now - a.live.value.lastSeen > 24 * 3600 * 1_000_000_000)
  {
    hide TouchAll, Seen, Separate;
    TouchAllMeaning(a.live, ss, now);
    TouchedExactly(a.live, ss, now);
    if |ss| == 0 {
      NobodySeen();
    }
    if IsOnline(a.live) {
      var n := |a.sessions|;
      assert a.sessions[n - 1 := Session(a.sessions[n - 1].started, Some(a.live.value.lastSeen))] ==
             a.sessions[..n - 1] + [Session(a.sessions[n - 1].started, Some(a.live.value.lastSeen))];
    }
  }

  lemma NobodySeen()
    ensures !Seen([])
  {
  }

  lemma TickStaysInStep(cfg: ClientConfig, a: Account, clock: int, ss: seq<Sighting>, now: int)
    requires InStep(cfg, a, clock) && clock <= now
    ensures InStep(cfg, TickClient(cfg, a, ss, now), now)
  {
    hide TouchAll;
    TouchAllMeaning(a.live, ss, now);
    if TouchAll(a.live, ss, now).Some? {
      var c := TouchAll(a.live, ss, now).value;
      assert c.lastSeen <= now;
    }
  }

  lemma {:induction false} OpenSessionIsLast(cfg: ClientConfig, sessions: seq<Session>)
    requires Separate(cfg, sessions)
    ensures OpenSession(sessions, |sessions|) == if LastIsOpen(sessions) then Some(|sessions| - 1) else None
  {
    if |sessions| != 0 && !LastIsOpen(sessions) {
      NoneOpen(sessions, |sessions|);
    }
  }

  lemma {:induction false} NoneOpen(sessions: seq<Session>, n: nat)
    requires n <= |sessions| && forall i | 0 <= i < n :: sessions[i].ended.Some?
    ensures OpenSession(sessions, n) == None
  {
    if n != 0 {
      NoneOpen(sessions, n - 1);
    }
  }

  function Proceed(cfg: ClientConfig, a: Account, o: Occasion, now: int): Account {
    match o
    case Ticked(sightings) => TickClient(cfg, a, sightings, now)
    case Restarted => Resume(a, now)
    case ShutDown => FlushClient(a, now)
  }

  ghost predicate InOrder(times: seq<int>, clock: int) {
    && (forall i | 0 <= i < |times| :: clock <= times[i])
    && NonDecreasing(times)
  }

  function ProceedAll(cfg: ClientConfig, a: Account, os: seq<Occasion>, times: seq<int>): Account
    requires |os| == |times|
  {
    if |os| == 0 then a
    else Proceed(cfg, ProceedAll(cfg, a, os[..|os| - 1], times[..|os| - 1]), os[|os| - 1], times[|os| - 1])
  }

  lemma ProceedStaysInStep(cfg: ClientConfig, a: Account, clock: int, o: Occasion, now: int)
    requires InStep(cfg, a, clock) && clock <= now
    ensures InStep(cfg, Proceed(cfg, a, o, now), now)
  {
    hide TickClient;
    match o {
      case Ticked(sightings) => TickStaysInStep(cfg, a, clock, sightings, now);
      case Restarted => OpenSessionIsLast(cfg, a.sessions);
      case ShutDown =>
    }
  }

  /** In every run, restarts and shutdowns included, a client's sessions are ordered and disjoint, at most the
      last one is open, each ends no earlier than it began, and the next begins more than the grace period
      after it ended. */
  lemma {:induction false} SessionsStaySeparate(cfg: ClientConfig, a: Account, clock: int, os: seq<Occasion>, times: seq<int>)
    requires InStep(cfg, a, clock) && |os| == |times| && InOrder(times, clock)
    ensures InStep(cfg, ProceedAll(cfg, a, os, times), if |os| == 0 then clock else times[|os| - 1])
  {
    hide InStep, Proceed;
    if |os| != 0 {
      var n := |os| - 1;
      SessionsStaySeparate(cfg, a, clock, os[..n], times[..n]);
      ProceedStaysInStep(cfg, ProceedAll(cfg, a, os[..n], times[..n]), if n == 0 then clock else times[n - 1], os[n], times[n]);
    }
  }

  /** So whatever happens to a client the database has never seen, from any clock on. */
  lemma NewClientStaysSeparate(cfg: ClientConfig, clock: int, os: seq<Occasion>, times: seq<int>)
    requires |os| == |times| && InOrder(times, clock)
    ensures var a := ProceedAll(cfg, Account(None, [], []), os, times);
            && Separate(cfg, a.sessions) && (IsOnline(a.live) <==> LastIsOpen(a.sessions))
  {
    hide ProceedAll;
    SessionsStaySeparate(cfg, Account(None, [], []), clock, os, times);
  }

  /** Sessions pruned by age; what stays keeps its order and its gaps. */
  function Pruned(sessions: seq<Session>, cutoff: int): seq<Session> {
    if |sessions| == 0 then []
    else
      var rest := Pruned(sessions[1..], cutoff);
      if sessions[0].ended.Some? && sessions[0].ended.value < cutoff then rest else [sessions[0]] + rest
  }

  /** Every session still open, or ended no earlier than the cutoff, is kept, and no other. */
  lemma {:induction false} PrunedExactly(sessions: seq<Session>, cutoff: int, r: Session)
    ensures multiset(Pruned(sessions, cutoff))[r] ==
            if r.ended.None? || r.ended.value >= cutoff then multiset(sessions)[r] else 0
  {
    if |sessions| != 0 {
      PrunedExactly(sessions[1..], cutoff, r);
      assert sessions == [sessions[0]] + sessions[1..];
    }
  }

  lemma {:induction false} PrunedAreOld(sessions: seq<Session>, cutoff: int, k: nat)
    requires k < |Pruned(sessions, cutoff)|
    ensures exists i :: 0 <= i < |sessions| && sessions[i] == Pruned(sessions, cutoff)[k]
  {
    var rest := Pruned(sessions[1..], cutoff);
    var drops := sessions[0].ended.Some? && sessions[0].ended.value < cutoff;
    if !drops && k == 0 {
      assert sessions[0] == Pruned(sessions, cutoff)[0];
    } else {
      var j := if drops then k else k - 1;
      PrunedAreOld(sessions[1..], cutoff, j);
      var i :| 0 <= i < |sessions[1..]| && sessions[1..][i] == rest[j];
      assert sessions[i + 1] == Pruned(sessions, cutoff)[k];
    }
  }

  lemma TailSeparate(cfg: ClientConfig, sessions: seq<Session>)
    requires |sessions| != 0 && Separate(cfg, sessions)
    ensures Separate(cfg, sessions[1..])
  {
    var tail := sessions[1..];
    forall i, j | 0 <= i < j < |tail|
      ensures WellBefore(cfg, tail[i], tail[j])
    {
      assert WellBefore(cfg, sessions[i + 1], sessions[j + 1]);
    }
  }

  lemma HeadSeparate(cfg: ClientConfig, head: Session, rest: seq<Session>)
    requires Separate(cfg, rest) && (head.ended.Some? ==> head.started <= head.ended.value)
    requires forall k | 0 <= k < |rest| :: WellBefore(cfg, head, rest[k])
    ensures Separate(cfg, [head] + rest)
  {
    var s := [head] + rest;
    forall i, j | 0 <= i < j < |s| ensures WellBefore(cfg, s[i], s[j]) {
      assert s[j] == rest[j - 1];
      if i != 0 {
        assert WellBefore(cfg, rest[i - 1], rest[j - 1]);
      }
    }
  }

  lemma {:induction false} PruningKeepsSeparate(cfg: ClientConfig, sessions: seq<Session>, cutoff: int)
    requires Separate(cfg, sessions)
    ensures Separate(cfg, Pruned(sessions, cutoff))
  {
    if |sessions| != 0 {
      var rest := Pruned(sessions[1..], cutoff);
      TailSeparate(cfg, sessions);
      PruningKeepsSeparate(cfg, sessions[1..], cutoff);
      forall k | 0 <= k < |rest|
        ensures WellBefore(cfg, sessions[0], rest[k])
      {
        PrunedAreOld(sessions[1..], cutoff, k);
        var i :| 0 <= i < |sessions[1..]| && sessions[1..][i] == rest[k];
        assert sessions[i + 1] == rest[k];
      }
      HeadSeparate(cfg, sessions[0], rest);
    }
  }

  // ── counters of one client ────────────────────────────────────────────

  /** The kernel's counters for a client, while it has rules, and the counters last read. */
  datatype Line = Line(rule: Option<Counters>, prev: Option<Counters>)

  /** One round of sampling for one client: it may get its rules, some traffic may pass, the counters are read
      (a read that fails comes back empty), and each neighbour entry that carries its address is reported. */
  datatype Round = Round(entries: seq<bool>, install: bool, grew: Counters, readOk: bool)

  function RuleAfter(l: Line, r: Round): Option<Counters> {
    var rule := if l.rule.None? && r.install then Some(U.NOTHING) else l.rule;
    if rule.Some? then Some(rule.value.Plus(r.grew)) else None
  }

  function CountersRead(l: Line, r: Round): Counters {
    if r.readOk then U.OrNothing(RuleAfter(l, r)) else U.NOTHING
  }

  function FirstDelta(prev: Option<Counters>, curr: Counters): Counters {
    if prev.Some? then U.OrNothing(U.Delta(prev.value, curr)) else curr
  }

  function SightingFor(reachable: bool, delta: Counters): Sighting {
    Sighting(delta, reachable || delta != U.NOTHING)
  }

  /** Sightings of the first `n` entries: the growth goes to the first. */
  function Sightings(prev: Option<Counters>, curr: Counters, entries: seq<bool>): seq<Sighting> {
    if |entries| == 0 then []
    else
      var before := Sightings(prev, curr, entries[..|entries| - 1]);
      var last := if |entries| == 1 then prev else Some(curr);
      before + [SightingFor(entries[|entries| - 1], FirstDelta(last, curr))]
  }

  function LineAfter(l: Line, r: Round): Line {
    Line(RuleAfter(l, r), if |r.entries| == 0 then l.prev else Some(CountersRead(l, r)))
  }

  /** A client's books, the traffic its rules have counted since the process took its baseline, and what has
      become of the part that never reaches a row. */
  datatype Ledger = Ledger(line: Line, account: Account, counted: Counters,
                           recounted: Counters, unread: Counters, dropped: Counters)

  datatype Entry = Sampled(round: Round) | Flushed

  function RoundSightings(l: Line, r: Round): seq<Sighting> {
    Sightings(l.prev, CountersRead(l, r), r.entries)
  }

  predicate Forgets(cfg: ClientConfig, live: Option<ClientState>, ss: seq<Sighting>, now: int) {
    TouchAll(live, ss, now).Some? && IsForgotten(cfg, TouchAll(live, ss, now).value, now)
  }

  /** What a forgotten client's bucket still held. */
  function LeftPending(cfg: ClientConfig, live: Option<ClientState>, ss: seq<Sighting>, now: int): Counters
    requires Forgets(cfg, live, ss, now)
  {
    Sweep(cfg, TouchAll(live, ss, now).value, now).pending
  }

  function Unread(l: Line): Counters {
    FirstDelta(l.prev, U.OrNothing(l.rule))
  }

  function Record(cfg: ClientConfig, g: Ledger, e: Entry, now: int): Ledger {
    match e
    case Flushed => g.(account := FlushClient(g.account, now))
    case Sampled(r) =>
      var ss, line := RoundSightings(g.line, r), LineAfter(g.line, r);
      var forgets := Forgets(cfg, g.account.live, ss, now);
      Ledger(if forgets then Line(None, None) else line,
             TickClient(cfg, g.account, ss, now),
             if line.rule.Some? then g.counted.Plus(r.grew) else g.counted,
             if !r.readOk && |r.entries| != 0 then g.recounted.Plus(U.OrNothing(g.line.prev)) else g.recounted,
             if forgets then g.unread.Plus(Unread(line)) else g.unread,
             if forgets then g.dropped.Plus(LeftPending(cfg, g.account.live, ss, now)) else g.dropped)
  }

  function RecordAll(cfg: ClientConfig, g: Ledger, es: seq<Entry>, times: seq<int>): Ledger
    requires |es| == |times|
  {
    if |es| == 0 then g
    else Record(cfg, RecordAll(cfg, g, es[..|es| - 1], times[..|es| - 1]), es[|es| - 1], times[|es| - 1])
  }

  function Sum(rows: seq<Counters>): Counters {
    if |rows| == 0 then U.NOTHING else Sum(rows[..|rows| - 1]).Plus(rows[|rows| - 1])
  }

  function PendingOf(live: Option<ClientState>): Counters {
    if live.Some? then live.value.pending else U.NOTHING
  }

  /** Rows and pending bucket. */
  function Held(a: Account): Counters {
    Sum(a.samples).Plus(PendingOf(a.live))
  }

  /** Everything the rules counted, and everything counted again, is in a row, pending, waiting to be read, or
      accounted for as lost. */
  ghost predicate Accounted(g: Ledger, base: Counters) {
    && U.OrNothing(g.line.prev).Reaches(U.OrNothing(g.line.rule))
    && base.Plus(g.counted).Plus(g.recounted) == Held(g.account).Plus(Unread(g.line)).Plus(g.unread).Plus(g.dropped)
  }

  lemma SumAppended(rows: seq<Counters>, row: Counters)
    ensures Sum(rows + [row]) == Sum(rows).Plus(row)
  {
    assert (rows + [row])[..|rows|] == rows;
  }

  function Deltas(ss: seq<Sighting>): Counters {
    if |ss| == 0 then U.NOTHING else Deltas(ss[..|ss| - 1]).Plus(ss[|ss| - 1].delta)
  }

  lemma {:induction false} TouchedPending(e: Option<ClientState>, ss: seq<Sighting>, now: int)
    ensures PendingOf(TouchAll(e, ss, now)) == PendingOf(e).Plus(Deltas(ss))
  {
    hide U.IfCounters.Plus;
    if |ss| == 0 {
      U.PlusNothing(PendingOf(e));
    } else {
      TouchedPending(e, ss[..|ss| - 1], now);
      U.PlusSwaps(PendingOf(e), Deltas(ss[..|ss| - 1]), ss[|ss| - 1].delta);
      U.PlusNothing(ss[|ss| - 1].delta);
    }
  }

  /** When a tick writes a row: the bucket is full of age, and something is in it; then all of it goes, this tick's
      traffic included. */
  lemma RowExactly(cfg: ClientConfig, a: Account, ss: seq<Sighting>, now: int)
    ensures var after, total := TickClient(cfg, a, ss, now), PendingOf(a.live).Plus(Deltas(ss));
            var due := a.live.Some? && now - a.live.value.pendingSince >= Max(cfg.persistEverySecs, 1) * Selection.SECOND;
            && after.samples == (if due && total != U.NOTHING then a.samples + [total] else a.samples)
            && (after.live.Some? ==> after.live.value.pending == if due then U.NOTHING else total)
  {
    hide TouchAll, U.IfCounters.Plus, Deltas, ClosedBy;
    TouchAllMeaning(a.live, ss, now);
    TouchedPending(a.live, ss, now);
    if a.live.None? && |ss| == 0 {
      NoDeltas();
      U.PlusNothing(U.NOTHING);
    }
  }

  lemma NoDeltas()
    ensures Deltas([]) == U.NOTHING
  {
  }

  /** The sweep moves a bucket to a row whole, or leaves it. */
  lemma SweepHolds(cfg: ClientConfig, c: ClientState, samples: seq<Counters>, now: int)
    ensures Sum(FlushedBy(cfg, c, samples, now)).Plus(Sweep(cfg, c, now).pending) == Sum(samples).Plus(c.pending)
  {
    hide U.IfCounters.Plus, Sum;
    SumAppended(samples, c.pending);
    U.PlusNothing(Sum(samples + [c.pending]));
  }

  /** One tick: the bucket takes in what was sighted; what leaves it is a row, or is dropped with the client. */
  lemma TickHolds(cfg: ClientConfig, a: Account, ss: seq<Sighting>, now: int)
    ensures var dropped := if Forgets(cfg, a.live, ss, now) then LeftPending(cfg, a.live, ss, now) else U.NOTHING;
            Held(TickClient(cfg, a, ss, now)).Plus(dropped) == Held(a).Plus(Deltas(ss))
  {
    hide TouchAll, U.IfCounters.Plus, Deltas, ClosedBy, Sweep, FlushedBy, Sum, IsForgotten;
    TouchedPending(a.live, ss, now);
    TouchAllMeaning(a.live, ss, now);
    var touched := TouchAll(a.live, ss, now);
    U.PlusSwaps(Sum(a.samples), PendingOf(a.live), Deltas(ss));
    U.PlusNothing(Held(TickClient(cfg, a, ss, now)));
    if touched.Some? {
      SweepHolds(cfg, touched.value, a.samples, now);
      U.PlusNothing(Sum(FlushedBy(cfg, touched.value, a.samples, now)));
    }
  }

  lemma {:induction false} SightedDeltas(prev: Option<Counters>, curr: Counters, entries: seq<bool>)
    ensures Deltas(Sightings(prev, curr, entries)) == if |entries| == 0 then U.NOTHING else FirstDelta(prev, curr)
  {
    hide U.IfCounters.Plus;
    if |entries| != 0 {
      var n := |entries| - 1;
      SightedDeltas(prev, curr, entries[..n]);
      var ss := Sightings(prev, curr, entries);
      assert ss[..|ss| - 1] == Sightings(prev, curr, entries[..n]);
      U.PlusNothing(FirstDelta(prev, curr));
      assert FirstDelta(Some(curr), curr) == U.NOTHING by { NoGrowth(curr); }
    }
  }

  /** A round sees a client exactly if its neighbour entry is reachable, or its counters moved. */
  lemma {:induction false} SeenExactly(prev: Option<Counters>, curr: Counters, entries: seq<bool>)
    ensures Seen(Sightings(prev, curr, entries)) <==> true in entries || (|entries| != 0 && FirstDelta(prev, curr) != U.NOTHING)
  {
    hide FirstDelta;
    if |entries| != 0 {
      var n := |entries| - 1;
      SeenExactly(prev, curr, entries[..n]);
      SeenNext(Sightings(prev, curr, entries));
      SightingsNext(prev, curr, entries);
      NoGrowthLeft(curr);
      assert entries == entries[..n] + [entries[n]];
    }
  }

  lemma SightingsNext(prev: Option<Counters>, curr: Counters, entries: seq<bool>)
    requires |entries| != 0
    ensures var ss, n := Sightings(prev, curr, entries), |entries| - 1;
            |ss| != 0 && ss[..|ss| - 1] == Sightings(prev, curr, entries[..n])
            && ss[|ss| - 1] == SightingFor(entries[n], FirstDelta(if n == 0 then prev else Some(curr), curr))
  {
    hide FirstDelta;
  }

  lemma NoGrowth(c: Counters)
    ensures U.Delta(c, c) == Some(U.NOTHING)
  {
  }

  lemma FirstDeltaFits(prev: Option<Counters>, curr: Counters)
    ensures U.OrNothing(prev).Reaches(curr) ==> U.OrNothing(prev).Plus(FirstDelta(prev, curr)) == curr
    ensures !U.OrNothing(prev).Reaches(curr) ==> FirstDelta(prev, curr) == U.NOTHING
  {
    hide U.Delta;
  }

  lemma ReadAlgebra(p: Counters, rule: Counters, waiting: Counters, grew: Counters)
    requires p.Plus(waiting) == rule
    ensures p.Reaches(rule.Plus(grew))
    ensures forall x: Counters :: p.Plus(x) == rule.Plus(grew) ==> x == waiting.Plus(grew)
    ensures waiting.Plus(grew).Plus(p) == rule.Plus(grew) && rule.Plus(grew).Reaches(rule.Plus(grew))
    ensures U.NOTHING.Reaches(rule.Plus(grew)) && (p.Reaches(U.NOTHING) ==> p == U.NOTHING)
  {
  }

  /** One read: what was waiting, plus what passed, plus what a failed read puts back, is sighted or still
      waiting. */
  lemma ReadHolds(l: Line, r: Round)
    requires U.OrNothing(l.prev).Reaches(U.OrNothing(l.rule))
    ensures var after := LineAfter(l, r);
            && U.OrNothing(after.prev).Reaches(U.OrNothing(after.rule))
            && Unread(l).Plus(if after.rule.Some? then r.grew else U.NOTHING)
               .Plus(if !r.readOk && |r.entries| != 0 then U.OrNothing(l.prev) else U.NOTHING) ==
               Unread(after).Plus(Deltas(RoundSightings(l, r)))
  {
    hide U.IfCounters.Plus, U.IfCounters.Reaches, U.Delta, FirstDelta, Deltas, Sightings;
    var after, curr := LineAfter(l, r), CountersRead(l, r);
    var p, rule := U.OrNothing(l.prev), U.OrNothing(l.rule);
    var grew := if after.rule.Some? then r.grew else U.NOTHING;
    SightedDeltas(l.prev, curr, r.entries);
    FirstDeltaFits(l.prev, rule);
    U.PlusNothing(rule);
    U.PlusNothing(r.grew);
    assert U.OrNothing(after.rule) == rule.Plus(grew);
    ReadAlgebra(p, rule, Unread(l), grew);
    FirstDeltaFits(l.prev, rule.Plus(grew));
    FirstDeltaFits(l.prev, U.NOTHING);
    FirstDeltaFits(Some(rule.Plus(grew)), rule.Plus(grew));
    NoGrowthLeft(rule.Plus(grew));
    FirstDeltaFits(Some(U.NOTHING), rule.Plus(grew));
    U.PlusNothing(p);
    U.PlusNothing(FirstDelta(l.prev, U.NOTHING));
    U.PlusNothing(Unread(l).Plus(grew));
    U.PlusNothing(FirstDelta(l.prev, rule.Plus(grew)));
    U.PlusNothing(FirstDelta(Some(U.NOTHING), rule.Plus(grew)));
  }

  lemma NoGrowthLeft(c: Counters)
    ensures FirstDelta(Some(c), c) == U.NOTHING
  {
    NoGrowth(c);
  }

  lemma Regroup(base: Counters, counted: Counters, recounted: Counters, held: Counters, waiting: Counters, lost: Counters, dropped: Counters,
                grew: Counters, again: Counters, sighted: Counters, held': Counters, waiting': Counters, dropping: Counters)
    requires base.Plus(counted).Plus(recounted) == held.Plus(waiting).Plus(lost).Plus(dropped)
    requires waiting.Plus(grew).Plus(again) == waiting'.Plus(sighted)
    requires held'.Plus(dropping) == held.Plus(sighted)
    ensures base.Plus(counted.Plus(grew)).Plus(recounted.Plus(again)) == held'.Plus(waiting').Plus(lost).Plus(dropped.Plus(dropping))
  {
  }

  lemma MoveLost(held: Counters, waiting: Counters, lost: Counters, dropped: Counters)
    ensures held.Plus(waiting).Plus(lost).Plus(dropped) == held.Plus(U.NOTHING).Plus(lost.Plus(waiting)).Plus(dropped)
  {
  }

  lemma FlushHolds(a: Account, now: int)
    ensures Held(FlushClient(a, now)) == Held(a)
  {
    hide U.IfCounters.Plus, Sum;
    if a.live.Some? {
      SumAppended(a.samples, a.live.value.pending);
      U.PlusNothing(Sum(a.samples).Plus(a.live.value.pending));
    }
  }

  lemma RoundAccounted(cfg: ClientConfig, g: Ledger, base: Counters, r: Round, now: int)
    requires Accounted(g, base)
    ensures Accounted(Record(cfg, g, Sampled(r), now), base)
  {
    hide U.IfCounters.Plus, U.IfCounters.Reaches, Held, Unread, TickClient, Forgets, LeftPending, LineAfter, RoundSightings, U.Delta;
    var ss, line := RoundSightings(g.line, r), LineAfter(g.line, r);
    ReadHolds(g.line, r);
    TickHolds(cfg, g.account, ss, now);
    var forgets := Forgets(cfg, g.account.live, ss, now);
    var grew := if line.rule.Some? then r.grew else U.NOTHING;
    var again := if !r.readOk && |r.entries| != 0 then U.OrNothing(g.line.prev) else U.NOTHING;
    var dropping := if forgets then LeftPending(cfg, g.account.live, ss, now) else U.NOTHING;
    var account := TickClient(cfg, g.account, ss, now);
    Regroup(base, g.counted, g.recounted, Held(g.account), Unread(g.line), g.unread, g.dropped,
            grew, again, Deltas(ss), Held(account), Unread(line), dropping);
    MoveLost(Held(account), Unread(line), g.unread, g.dropped.Plus(dropping));
    U.PlusNothing(g.counted);
    U.PlusNothing(g.recounted);
    U.PlusNothing(g.dropped);
    EmptyLine();
  }

  lemma EmptyLine()
    ensures Unread(Line(None, None)) == U.NOTHING && U.NOTHING.Reaches(U.NOTHING)
  {
  }

  /** Client byte conservation, over every run of one process: whatever order packets, samples with the client
      present or absent, failed reads, flushes and forgetting come in, the kernel's growth since the baseline
      plus what failed reads made it count again equals rows, pending bytes, bytes not read yet, bytes whose
      rules were removed unread, and bytes dropped with a forgotten client. */
  lemma {:induction false} ClientBytesAccounted(cfg: ClientConfig, g: Ledger, base: Counters, es: seq<Entry>, times: seq<int>)
    requires |es| == |times| && Accounted(g, base)
    ensures Accounted(RecordAll(cfg, g, es, times), base)
  {
    hide Accounted, Record;
    if |es| != 0 {
      var n := |es| - 1;
      ClientBytesAccounted(cfg, g, base, es[..n], times[..n]);
      RecordAccounted(cfg, RecordAll(cfg, g, es[..n], times[..n]), base, es[n], times[n]);
    }
  }

  lemma RecordAccounted(cfg: ClientConfig, g: Ledger, base: Counters, e: Entry, now: int)
    requires Accounted(g, base)
    ensures Accounted(Record(cfg, g, e, now), base)
  {
    hide FlushClient, U.IfCounters.Plus, Held;
    match e {
      case Sampled(r) => RoundAccounted(cfg, g, base, r, now);
      case Flushed => FlushHolds(g.account, now);
    }
  }

  /** A process starts its books at the counters it finds: whatever the rules had counted before is not
      credited to any interval. */
  lemma AdoptionIsBaseline(found: Option<Counters>, a: Account)
    ensures Accounted(Ledger(Line(found, found), a, U.NOTHING, U.NOTHING, U.NOTHING, U.NOTHING), Held(a))
  {
    hide Held, U.IfCounters.Plus;
    NoGrowthLeft(U.OrNothing(found));
    EmptyLine();
    U.PlusNothing(Held(a));
  }

  /** A read that fails comes back empty, and is taken for a reading of zero: the next good read then sights
      everything the rules ever counted once more. */
  lemma FailedReadCountsAgain(counted: Counters, reachable: bool)
    requires counted != U.NOTHING
    ensures var line := Line(Some(counted), Some(counted));
            var failed, good := Round([reachable], false, U.NOTHING, false), Round([reachable], false, U.NOTHING, true);
            && Deltas(RoundSightings(line, failed)) == U.NOTHING
            && Deltas(RoundSightings(LineAfter(line, failed), good)) == counted
  {
    hide U.IfCounters.Plus, Sightings, Deltas;
    var line := Line(Some(counted), Some(counted));
    var failed, good := Round([reachable], false, U.NOTHING, false), Round([reachable], false, U.NOTHING, true);
    U.PlusNothing(counted);
    SightedDeltas(line.prev, CountersRead(line, failed), failed.entries);
    SightedDeltas(Some(U.NOTHING), counted, good.entries);
    FromZero(counted);
  }

  /** A failed read that found a baseline to lose. */
  predicate Recounts(g: Ledger, e: Entry) {
    e.Sampled? && !e.round.readOk && |e.round.entries| != 0 && U.OrNothing(g.line.prev) != U.NOTHING
  }

  lemma RecountStep(cfg: ClientConfig, g: Ledger, e: Entry, now: int)
    ensures g.recounted.Reaches(Record(cfg, g, e, now).recounted)
    ensures Record(cfg, g, e, now).recounted == g.recounted <==> !Recounts(g, e)
  {
    hide TickClient, LineAfter, RoundSightings, Forgets, LeftPending, Unread;
    if e.Sampled? {
      GrowsExactly(g.recounted, U.OrNothing(g.line.prev));
    }
  }

  lemma GrowsExactly(a: Counters, b: Counters)
    ensures a.Reaches(a.Plus(b)) && (a.Plus(b) == a <==> b == U.NOTHING)
  {
  }

  ghost predicate NoneRecounts(cfg: ClientConfig, g: Ledger, es: seq<Entry>, times: seq<int>)
    requires |es| == |times|
  {
    forall k | 0 <= k < |es| :: !Recounts(RecordAll(cfg, g, es[..k], times[..k]), es[k])
  }

  lemma NoneRecountsExtends(cfg: ClientConfig, g: Ledger, es: seq<Entry>, times: seq<int>)
    requires |es| == |times| && |es| != 0
    ensures var n := |es| - 1;
            NoneRecounts(cfg, g, es, times) <==>
            NoneRecounts(cfg, g, es[..n], times[..n]) && !Recounts(RecordAll(cfg, g, es[..n], times[..n]), es[n])
  {
    hide RecordAll, Recounts;
    var n := |es| - 1;
    forall k | 0 <= k < n ensures es[..n][..k] == es[..k] && times[..n][..k] == times[..k] && es[..n][k] == es[k] {
    }
  }

  /** Over every run nothing is counted twice, and the books balance without the recount term, exactly when every
      failed read that reported the client found no baseline, or one of zero. */
  lemma {:induction false} CountedOnceExactly(cfg: ClientConfig, g: Ledger, es: seq<Entry>, times: seq<int>)
    requires |es| == |times|
    ensures var end := RecordAll(cfg, g, es, times);
            && g.recounted.Reaches(end.recounted)
            && (end.recounted == g.recounted <==> NoneRecounts(cfg, g, es, times))
  {
    hide Record, Recounts, U.IfCounters.Reaches;
    AlwaysReaches(g.recounted);
    if |es| != 0 {
      var n := |es| - 1;
      CountedOnceExactly(cfg, g, es[..n], times[..n]);
      RecountStep(cfg, RecordAll(cfg, g, es[..n], times[..n]), es[n], times[n]);
      hide NoneRecounts;
      NoneRecountsExtends(cfg, g, es, times);
      Sandwich(g.recounted, RecordAll(cfg, g, es[..n], times[..n]).recounted, RecordAll(cfg, g, es, times).recounted);
    }
  }

  lemma AlwaysReaches(a: Counters)
    ensures a.Reaches(a)
  {
  }

  lemma Sandwich(a: Counters, b: Counters, c: Counters)
    requires a.Reaches(b) && b.Reaches(c)
    ensures a.Reaches(c) && (a == c <==> a == b && b == c)
  {
  }

  /** So from an adopted baseline, the kernel's growth is exactly rows, pending, unread, removed and dropped bytes
      if and only if no read failed on a counter worth losing. */
  lemma BytesBalanceExactly(cfg: ClientConfig, found: Option<Counters>, a: Account, es: seq<Entry>, times: seq<int>)
    requires |es| == |times|
    ensures var start := Ledger(Line(found, found), a, U.NOTHING, U.NOTHING, U.NOTHING, U.NOTHING);
            var end := RecordAll(cfg, start, es, times);
            (Held(a).Plus(end.counted) == Held(end.account).Plus(Unread(end.line)).Plus(end.unread).Plus(end.dropped)) <==>
            NoneRecounts(cfg, start, es, times)
  {
    hide Held, U.IfCounters.Plus, RecordAll, NoneRecounts, Unread;
    var start := Ledger(Line(found, found), a, U.NOTHING, U.NOTHING, U.NOTHING, U.NOTHING);
    AdoptionIsBaseline(found, a);
    ClientBytesAccounted(cfg, start, Held(a), es, times);
    CountedOnceExactly(cfg, start, es, times);
    var end := RecordAll(cfg, start, es, times);
    GrowsExactly(Held(a).Plus(end.counted), end.recounted);
  }

  lemma FromZero(c: Counters)
    ensures U.Delta(U.NOTHING, c) == Some(c) && (U.Delta(c, U.NOTHING).None? || c == U.NOTHING)
  {
  }

  // ── what forgetting can cost ──────────────────────────────────────────

  /** The persist interval is no longer than a client stays known once it is silent. */
  predicate PersistsInTime(cfg: ClientConfig) {
    Max(cfg.persistEverySecs, 1) <= Max(24 * 3600, cfg.offlineAfterSecs)
  }

  /** A bucket that holds something was opened no later than the client was last seen, and if the client is
      offline that was longer ago than the grace period. */
  ghost predicate Timely(cfg: ClientConfig, live: Option<ClientState>, clock: int) {
    live.Some? ==>
      && live.value.lastSeen <= clock && live.value.pendingSince <= clock
      && (live.value.pending != U.NOTHING ==>
          && live.value.pendingSince <= live.value.lastSeen
          && (live.value.online || clock - live.value.lastSeen > OfflineAfter(cfg)))
  }

  ghost predicate MovingIsSeen(ss: seq<Sighting>) {
    forall i | 0 <= i < |ss| :: ss[i].delta != U.NOTHING ==> ss[i].seen
  }

  lemma {:induction false} SightingsMove(prev: Option<Counters>, curr: Counters, entries: seq<bool>)
    ensures MovingIsSeen(Sightings(prev, curr, entries))
  {
    hide FirstDelta;
    if |entries| != 0 {
      SightingsMove(prev, curr, entries[..|entries| - 1]);
    }
  }

  lemma TouchTimely(cfg: ClientConfig, e: Option<ClientState>, s: Sighting, clock: int, now: int)
    requires Timely(cfg, e, clock) && (s.delta != U.NOTHING ==> s.seen) && clock <= now
    ensures Timely(cfg, Some(Touch(e, s, now)), now)
  {
    hide U.IfCounters.Plus;
    U.PlusNothing(PendingOf(e));
  }

  lemma {:induction false} TouchedTimely(cfg: ClientConfig, e: Option<ClientState>, ss: seq<Sighting>, clock: int, now: int)
    requires Timely(cfg, e, clock) && MovingIsSeen(ss) && clock <= now
    ensures Timely(cfg, TouchAll(e, ss, now), now)
  {
    hide Touch;
    if |ss| != 0 {
      TouchedTimely(cfg, e, ss[..|ss| - 1], clock, now);
      assert ss[|ss| - 1].delta != U.NOTHING ==> ss[|ss| - 1].seen;
      TouchTimely(cfg, TouchAll(e, ss[..|ss| - 1], now), ss[|ss| - 1], now, now);
    }
  }

  lemma ForgottenIsFlushed(cfg: ClientConfig, c: ClientState, now: int)
    requires PersistsInTime(cfg) && Timely(cfg, Some(c), now) && IsForgotten(cfg, c, now)
    ensures Sweep(cfg, c, now).pending == U.NOTHING
  {
    if c.pending != U.NOTHING {
      assert now - c.lastSeen > OfflineAfter(cfg) && now - c.lastSeen > DAY;
    }
  }

  lemma RecordTimely(cfg: ClientConfig, g: Ledger, e: Entry, clock: int, now: int)
    requires Timely(cfg, g.account.live, clock) && clock <= now
    ensures Timely(cfg, Record(cfg, g, e, now).account.live, now)
    ensures PersistsInTime(cfg) && g.dropped == U.NOTHING ==> Record(cfg, g, e, now).dropped == U.NOTHING
  {
    hide TouchAll, Sightings, U.IfCounters.Plus, U.Delta, Unread, LineAfter, ClosedBy, FlushedBy, CountersRead, PersistsInTime;
    U.PlusNothing(U.NOTHING);
    if e.Sampled? {
      var ss := RoundSightings(g.line, e.round);
      SightingsMove(g.line.prev, CountersRead(g.line, e.round), e.round.entries);
      TouchedTimely(cfg, g.account.live, ss, clock, now);
      if PersistsInTime(cfg) && Forgets(cfg, g.account.live, ss, now) {
        ForgottenIsFlushed(cfg, TouchAll(g.account.live, ss, now).value, now);
      }
    }
  }

  lemma {:induction false} NothingDropped(cfg: ClientConfig, g: Ledger, clock: int, es: seq<Entry>, times: seq<int>)
    requires |es| == |times| && InOrder(times, clock) && Timely(cfg, g.account.live, clock)
    requires PersistsInTime(cfg) && g.dropped == U.NOTHING
    ensures var end := RecordAll(cfg, g, es, times);
            end.dropped == U.NOTHING && Timely(cfg, end.account.live, if |es| == 0 then clock else times[|es| - 1])
  {
    hide Record, PersistsInTime, Timely;
    if |es| != 0 {
      var n := |es| - 1;
      NothingDropped(cfg, g, clock, es[..n], times[..n]);
      RecordTimely(cfg, RecordAll(cfg, g, es[..n], times[..n]), es[n], if n == 0 then clock else times[n - 1], times[n]);
    }
  }

  const NEW_LEDGER := Ledger(Line(None, None), Account(None, [], []), U.NOTHING, U.NOTHING, U.NOTHING, U.NOTHING)

  const ONE_BYTE := U.IfCounters(1, 1, 0, 0)

  /** A client seen once, with traffic, and then never again. */
  function SeenOnce(): seq<Entry> {
    [Sampled(Round([true], true, ONE_BYTE, true)), Sampled(Round([], false, U.NOTHING, true))]
  }

  lemma SeenOnceIsDropped(cfg: ClientConfig)
    requires !PersistsInTime(cfg)
    ensures var gone := Max(DAY, OfflineAfter(cfg)) + 1;
            RecordAll(cfg, NEW_LEDGER, SeenOnce(), [0, gone]).dropped == ONE_BYTE
  {
    var gone := Max(DAY, OfflineAfter(cfg)) + 1;
    var es, times := SeenOnce(), [0, gone];
    assert es[..1][..0] == [] && times[..1][..0] == [];
    var first := Record(cfg, NEW_LEDGER, es[0], 0);
    assert RecordAll(cfg, NEW_LEDGER, es[..1], times[..1]) == first;
    FirstTickBooks(cfg);
    assert PersistEvery(cfg) > gone;
    LastTickDrops(cfg, first, gone);
  }

  lemma FirstSighting()
    ensures RoundSightings(NEW_LEDGER.line, Round([true], true, ONE_BYTE, true)) == [Sighting(ONE_BYTE, true)]
  {
    assert [true][..0] == [];
    assert Sightings(None, ONE_BYTE, []) == [];
  }

  lemma FirstTouch(ss: seq<Sighting>)
    requires ss == [Sighting(ONE_BYTE, true)]
    ensures TouchAll(None, ss, 0) == Some(ClientState(true, 0, None, ONE_BYTE, 0))
  {
    assert ss[..0] == [];
    assert TouchAll(None, [], 0) == None;
  }

  lemma FirstTickBooks(cfg: ClientConfig)
    ensures var first := Record(cfg, NEW_LEDGER, SeenOnce()[0], 0);
            && first.account.live.Some? && first.dropped == U.NOTHING
            && var c := first.account.live.value; c.online && c.lastSeen == 0 && c.pendingSince == 0 && c.pending == ONE_BYTE
  {
    hide RoundSightings, LineAfter, TouchAll, U.IfCounters.Plus, Unread;
    FirstSighting();
    FirstTouch([Sighting(ONE_BYTE, true)]);
    assert !IsForgotten(cfg, ClientState(true, 0, None, ONE_BYTE, 0), 0);
    assert !IsDue(cfg, ClientState(true, 0, None, ONE_BYTE, 0), 0);
  }

  lemma LastTickDrops(cfg: ClientConfig, g: Ledger, gone: int)
    requires g.account.live.Some? && g.dropped == U.NOTHING && PersistEvery(cfg) > gone > Max(DAY, OfflineAfter(cfg))
    requires var c := g.account.live.value; c.online && c.lastSeen == 0 && c.pendingSince == 0 && c.pending == ONE_BYTE
    ensures Record(cfg, g, SeenOnce()[1], gone).dropped == ONE_BYTE
  {
    var r := Round([], false, U.NOTHING, true);
    assert RoundSightings(g.line, r) == [];
    assert TouchAll(g.account.live, [], gone) == g.account.live;
  }

  /** No pending byte is ever dropped with a forgotten client exactly when the persist interval is at most the
      longer of a day and the grace period. */
  lemma NothingDroppedExactly(cfg: ClientConfig)
    ensures PersistsInTime(cfg) <==>
            forall es, times | |es| == |times| && InOrder(times, 0) :: RecordAll(cfg, NEW_LEDGER, es, times).dropped == U.NOTHING
  {
    hide RecordAll, PersistsInTime;
    if PersistsInTime(cfg) {
      forall es, times | |es| == |times| && InOrder(times, 0) ensures RecordAll(cfg, NEW_LEDGER, es, times).dropped == U.NOTHING {
        NothingDropped(cfg, NEW_LEDGER, 0, es, times);
      }
    } else {
      SeenOnceIsDropped(cfg);
      var times := [0, Max(DAY, OfflineAfter(cfg)) + 1];
      assert InOrder(times, 0) && RecordAll(cfg, NEW_LEDGER, SeenOnce(), times).dropped != U.NOTHING;
    }
  }
}
