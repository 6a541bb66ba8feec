/**
 The objects behind client accounting: the monitor that owns the counting rules and the last read
 (`src/net/clients.rs`), and the loop's table of live clients (`src/core/balancer.rs`). Each method is
 proved to do to every client what `Clients` says of one.
 */
module ClientLoop {
  import opened Basics
  import opened Clients
  import U = Uplinks

  // ── the monitor ───────────────────────────────────────────────────────

  datatype Neighbour = Neighbour(ip: Ip, reachable: bool)

  datatype Observation = Observation(ip: Ip, delta: Counters, seen: bool)

  const MAX_NEW_RULES_PER_TICK: nat := 8

  function EntriesOf(candidates: seq<Neighbour>, ip: Ip): seq<bool> {
    if |candidates| == 0 then []
    else
      var before := EntriesOf(candidates[..|candidates| - 1], ip);
      var last := candidates[|candidates| - 1];
      if last.ip == ip then before + [last.reachable] else before
  }

  function SightingsOf(out: seq<Observation>, ip: Ip): seq<Sighting> {
    if |out| == 0 then []
    else
      var before := SightingsOf(out[..|out| - 1], ip);
      var last := out[|out| - 1];
      if last.ip == ip then before + [Sighting(last.delta, last.seen)] else before
  }

  predicate IsCandidate(candidates: seq<Neighbour>, ip: Ip) {
    exists i :: 0 <= i < |candidates| && candidates[i].ip == ip
  }

  lemma CandidateAt(candidates: seq<Neighbour>, i: nat)
    requires i < |candidates|
    ensures IsCandidate(candidates, candidates[i].ip)
  {
  }

  /** The counting chain in the kernel: the counters of every client that has rules. */
  class ClientChain {
    var counters: map<Ip, Counters>

    constructor ()
      ensures counters == map[]
    {
      counters := map[];
    }

    method AddRules(ip: Ip)
      requires ip !in counters
      modifies this
      ensures counters == old(counters)[ip := U.NOTHING]
    {
      counters := counters[ip := U.NOTHING];
    }

    method RemoveRules(ip: Ip)
      modifies this
      ensures counters == old(counters) - {ip}
    {
      counters := counters - {ip};
    }

    /** Packets pass. */
    method Count(grew: map<Ip, Counters>)
      modifies this
      ensures counters == Counted(old(counters), grew)
    {
      counters := Counted(counters, grew);
    }
  }

  function GrowthFor(grew: map<Ip, Counters>, ip: Ip): Counters {
    if ip in grew then grew[ip] else U.NOTHING
  }

  function Counted(counters: map<Ip, Counters>, grew: map<Ip, Counters>): map<Ip, Counters> {
    map ip | ip in counters :: counters[ip].Plus(GrowthFor(grew, ip))
  }

  function WithRules(counters: map<Ip, Counters>, installed: set<Ip>): map<Ip, Counters> {
    map ip | ip in counters.Keys + installed :: if ip in counters then counters[ip] else U.NOTHING
  }

  lemma OneMoreRule(counters: map<Ip, Counters>, installed: set<Ip>, ip: Ip)
    requires ip !in counters && ip !in installed
    ensures WithRules(counters, installed)[ip := U.NOTHING] == WithRules(counters, installed + {ip})
  {
  }

  lemma RuleKeys(counters: map<Ip, Counters>, installed: set<Ip>)
    ensures WithRules(counters, installed).Keys == counters.Keys + installed
  {
  }

  lemma AddedKey(counters: map<Ip, Counters>, ip: Ip)
    requires ip !in counters
    ensures |counters[ip := U.NOTHING].Keys| == |counters.Keys| + 1
  {
    assert counters[ip := U.NOTHING].Keys == counters.Keys + {ip};
  }

  /** The rules that have gone in so far: for candidates that had none, that were not refused, and no more
      than a tick and the ceiling allow. */
  ghost predicate Installing(before: map<Ip, Counters>, candidates: seq<Neighbour>, maxTracked: nat, refused: set<Ip>,
                             installed: set<Ip>, counters: map<Ip, Counters>)
  {
    && counters == WithRules(before, installed)
    && installed !! before.Keys && installed !! refused
    && (forall ip | ip in installed :: IsCandidate(candidates, ip))
    && |installed| <= 8
    && (installed != {} ==> |counters.Keys| <= maxTracked)
  }

  lemma NothingInstalled(before: map<Ip, Counters>, candidates: seq<Neighbour>, maxTracked: nat, refused: set<Ip>)
    ensures Installing(before, candidates, maxTracked, refused, {}, before)
  {
  }

  lemma InstallingStep(before: map<Ip, Counters>, candidates: seq<Neighbour>, maxTracked: nat, refused: set<Ip>,
                       installed: set<Ip>, counters: map<Ip, Counters>, i: nat)
    requires Installing(before, candidates, maxTracked, refused, installed, counters)
    requires i < |candidates| && candidates[i].ip !in counters && candidates[i].ip !in refused
    requires |installed| < MAX_NEW_RULES_PER_TICK && |counters.Keys| < maxTracked
    ensures var ip := candidates[i].ip;
            Installing(before, candidates, maxTracked, refused, installed + {ip}, counters[ip := U.NOTHING])
  {
    hide WithRules, IsCandidate;
    var ip := candidates[i].ip;
    RuleKeys(before, installed);
    OneMoreRule(before, installed, ip);
    CandidateAt(candidates, i);
    AddedKey(counters, ip);
  }

  lemma KeysStay(counters: map<Ip, Counters>, grew: map<Ip, Counters>)
    ensures Counted(counters, grew).Keys == counters.Keys
  {
    hide U.IfCounters.Plus;
  }

  lemma RuleMeaning(counters: map<Ip, Counters>, installed: set<Ip>, grew: map<Ip, Counters>, prev: Option<Counters>, ip: Ip, round: Round)
    requires round.install == (ip in installed) && round.grew == GrowthFor(grew, ip)
    ensures Lookup(Counted(WithRules(counters, installed), grew), ip) == RuleAfter(Line(Lookup(counters, ip), prev), round)
  {
    hide U.IfCounters.Plus;
  }

  lemma NothingRead(ip: Ip, prev: Option<Counters>, curr: Counters)
    ensures EntriesOf([], ip) == [] && SightingsOf([], ip) == [] && Sightings(prev, curr, []) == []
  {
  }

  lemma OneMoreEntry(candidates: seq<Neighbour>, n: Neighbour, ip: Ip)
    ensures EntriesOf(candidates + [n], ip) == (if n.ip == ip then EntriesOf(candidates, ip) + [n.reachable] else EntriesOf(candidates, ip))
  {
    assert (candidates + [n])[..|candidates|] == candidates;
  }

  lemma OneMoreObservation(out: seq<Observation>, o: Observation, ip: Ip)
    ensures SightingsOf(out + [o], ip) == (if o.ip == ip then SightingsOf(out, ip) + [Sighting(o.delta, o.seen)] else SightingsOf(out, ip))
  {
    assert (out + [o])[..|out|] == out;
  }

  lemma OneMoreSighting(prev: Option<Counters>, curr: Counters, entries: seq<bool>, reachable: bool)
    ensures Sightings(prev, curr, entries + [reachable]) ==
            Sightings(prev, curr, entries) + [SightingFor(reachable, FirstDelta(if entries == [] then prev else Some(curr), curr))]
  {
    hide FirstDelta;
    assert (entries + [reachable])[..|entries|] == entries;
  }

  /** What has been read off once the entries in `done` are through. */
  ghost predicate ReadSoFar(before: map<Ip, Counters>, counters: map<Ip, Counters>, done: seq<Neighbour>,
                            prev: map<Ip, Counters>, out: seq<Observation>)
  {
    && (forall ip :: Lookup(prev, ip) ==
          if EntriesOf(done, ip) == [] then Lookup(before, ip) else Some(U.OrNothing(Lookup(counters, ip))))
    && (forall ip :: SightingsOf(out, ip) == Sightings(Lookup(before, ip), U.OrNothing(Lookup(counters, ip)), EntriesOf(done, ip)))
  }

  lemma ReadMeans(before: map<Ip, Counters>, counters: map<Ip, Counters>, done: seq<Neighbour>, prev: map<Ip, Counters>, out: seq<Observation>)
    requires ReadSoFar(before, counters, done, prev, out)
    ensures forall ip :: Lookup(prev, ip) ==
              if EntriesOf(done, ip) == [] then Lookup(before, ip) else Some(U.OrNothing(Lookup(counters, ip)))
    ensures forall ip :: SightingsOf(out, ip) == Sightings(Lookup(before, ip), U.OrNothing(Lookup(counters, ip)), EntriesOf(done, ip))
  {
  }

  lemma ReadNothing(before: map<Ip, Counters>, counters: map<Ip, Counters>)
    ensures ReadSoFar(before, counters, [], before, [])
  {
    hide EntriesOf, SightingsOf, Sightings;
    forall ip ensures EntriesOf([], ip) == [] && SightingsOf([], ip) == [] && Sightings(Lookup(before, ip), U.OrNothing(Lookup(counters, ip)), []) == [] {
      NothingRead(ip, Lookup(before, ip), U.OrNothing(Lookup(counters, ip)));
    }
  }

  lemma ReadNext(before: map<Ip, Counters>, counters: map<Ip, Counters>, done: seq<Neighbour>, n: Neighbour,
                 prev: map<Ip, Counters>, out: seq<Observation>)
    requires ReadSoFar(before, counters, done, prev, out)
    ensures var curr := U.OrNothing(Lookup(counters, n.ip));
            var delta := FirstDelta(Lookup(prev, n.ip), curr);
            ReadSoFar(before, counters, done + [n], prev[n.ip := curr],
                      out + [Observation(n.ip, delta, n.reachable || delta != U.NOTHING)])
  {
    hide FirstDelta, EntriesOf, SightingsOf, Sightings;
    var curr := U.OrNothing(Lookup(counters, n.ip));
    var delta := FirstDelta(Lookup(prev, n.ip), curr);
    var o := Observation(n.ip, delta, n.reachable || delta != U.NOTHING);
    forall ip ensures EntriesOf(done + [n], ip) == (if n.ip == ip then EntriesOf(done, ip) + [n.reachable] else EntriesOf(done, ip))
              && SightingsOf(out + [o], ip) == (if n.ip == ip then SightingsOf(out, ip) + [SightingFor(n.reachable, delta)] else SightingsOf(out, ip))
    {
      OneMoreEntry(done, n, ip);
      OneMoreObservation(out, o, ip);
    }
    OneMoreSighting(Lookup(before, n.ip), curr, EntriesOf(done, n.ip), n.reachable);
  }

  class ClientMonitor {
    const chain: ClientChain
    var prev: map<Ip, Counters>
    var tracked: set<Ip>
    var chainReady: bool

    /** Once it has looked, the monitor knows exactly which clients have rules. */
    ghost predicate Valid()
      reads this, chain
    {
      chainReady ==> tracked == chain.counters.Keys
    }

    ghost function LineOf(ip: Ip): Line
      reads this, chain
    {
      Line(Lookup(chain.counters, ip), Lookup(prev, ip))
    }

    constructor (chain: ClientChain)
      ensures Valid() && this.chain == chain && prev == map[] && !chainReady
    {
      this.chain := chain;
      prev := map[];
      tracked := {};
      chainReady := false;
    }

    /** The first round takes up whatever an earlier process left in the kernel, as the baseline. */
    method Adopt()
      requires Valid()
      modifies this
      ensures Valid() && chainReady
      ensures !old(chainReady) ==> prev == chain.counters
      ensures old(chainReady) ==> prev == old(prev) && tracked == old(tracked)
    {
      if !chainReady {
        chainReady := true;
        tracked := chain.counters.Keys;
        prev := chain.counters;
      }
    }

    /** Rules for new clients: at most a few a tick, never beyond the ceiling; `refused` are those the firewall
        turns down. */
    method InstallRules(candidates: seq<Neighbour>, maxTracked: nat, refused: set<Ip>) returns (installed: set<Ip>)
      requires Valid() && chainReady
      modifies this`tracked, chain
      ensures Valid()
      ensures Installing(old(chain.counters), candidates, maxTracked, refused, installed, chain.counters)
      ensures |installed| < 8 && |tracked| < maxTracked ==>
              forall i | 0 <= i < |candidates| :: candidates[i].ip in tracked || candidates[i].ip in refused
    {
      hide Installing;
      installed := {};
      NothingInstalled(chain.counters, candidates, maxTracked, refused);
      for i := 0 to |candidates|
        invariant chainReady && tracked == chain.counters.Keys
        invariant Installing(old(chain.counters), candidates, maxTracked, refused, installed, chain.counters)
        invariant forall k | 0 <= k < i :: candidates[k].ip in tracked || candidates[k].ip in refused
      {
        var ip := candidates[i].ip;
        if ip in tracked {
          continue;
        }
        if |installed| >= MAX_NEW_RULES_PER_TICK {
          break;
        }
        if |tracked| >= maxTracked {
          break;
        }
        if ip in refused {
          continue;
        }
        InstallingStep(old(chain.counters), candidates, maxTracked, refused, installed, chain.counters, i);
        chain.AddRules(ip);
        tracked := tracked + {ip};
        installed := installed + {ip};
      }
    }

    /** Differences against the last read, one observation per neighbour entry. */
    method ReadOff(candidates: seq<Neighbour>, counters: map<Ip, Counters>) returns (out: seq<Observation>)
      modifies this`prev
      ensures forall ip :: Lookup(prev, ip) ==
                if EntriesOf(candidates, ip) == [] then Lookup(old(prev), ip) else Some(U.OrNothing(Lookup(counters, ip)))
      ensures forall ip :: SightingsOf(out, ip) ==
                Sightings(Lookup(old(prev), ip), U.OrNothing(Lookup(counters, ip)), EntriesOf(candidates, ip))
    {
      hide FirstDelta, EntriesOf, SightingsOf, Sightings, ReadSoFar;
      out := [];
      ReadNothing(prev, counters);
      assert candidates[..0] == [];
      for i := 0 to |candidates|
        invariant ReadSoFar(old(prev), counters, candidates[..i], prev, out)
      {
        var n := candidates[i];
        var curr := if n.ip in counters then counters[n.ip] else U.NOTHING;
        var delta := Difference(n.ip, curr);
        ReadNext(old(prev), counters, candidates[..i], n, prev, out);
        assert candidates[..i + 1] == candidates[..i] + [n];
        prev := prev[n.ip := curr];
        out := out + [Observation(n.ip, delta, n.reachable || delta != U.NOTHING)];
      }
      assert candidates[..|candidates|] == candidates;
      ReadMeans(old(prev), counters, candidates, prev, out);
    }

    method Difference(ip: Ip, curr: Counters) returns (delta: Counters)
      ensures delta == FirstDelta(Lookup(prev, ip), curr)
    {
      if ip in prev {
        var d := U.Delta(prev[ip], curr);
        delta := if d.Some? then d.value else U.NOTHING;
      } else {
        delta := curr;
      }
    }

    /** One round. `meanwhile` passes between the installation of rules and the read; a read that fails comes
        back empty. */
    method Sample(candidates: seq<Neighbour>, maxTracked: nat, refused: set<Ip>, meanwhile: map<Ip, Counters>, readOk: bool)
      returns (out: seq<Observation>, installed: set<Ip>)
      requires Valid() && chainReady
      modifies this, chain
      ensures Valid() && chainReady
      ensures installed !! old(tracked) && |installed| <= 8 && (installed != {} ==> |tracked| <= maxTracked)
      ensures |installed| < 8 && |tracked| < maxTracked ==>
              forall i | 0 <= i < |candidates| :: candidates[i].ip in tracked || candidates[i].ip in refused
      ensures forall ip :: var round := Round(EntriesOf(candidates, ip), ip in installed, GrowthFor(meanwhile, ip), readOk);
                LineOf(ip) == LineAfter(old(LineOf(ip)), round) && SightingsOf(out, ip) == RoundSightings(old(LineOf(ip)), round)
    {
      hide Sightings, EntriesOf, SightingsOf, FirstDelta, WithRules, Counted, GrowthFor, RuleAfter;
      ghost var before, baseline := chain.counters, prev;
      installed := InstallRules(candidates, maxTracked, refused);
      KeysStay(WithRules(before, installed), meanwhile);
      chain.Count(meanwhile);
      var counters: map<Ip, Counters> := if readOk then chain.counters else map[];
      out := ReadOff(candidates, counters);
      forall ip ensures
        var round := Round(EntriesOf(candidates, ip), ip in installed, GrowthFor(meanwhile, ip), readOk);
        var line := Line(Lookup(before, ip), Lookup(baseline, ip));
        LineOf(ip) == LineAfter(line, round) && SightingsOf(out, ip) == RoundSightings(line, round)
      {
        var round := Round(EntriesOf(candidates, ip), ip in installed, GrowthFor(meanwhile, ip), readOk);
        RuleMeaning(before, installed, meanwhile, Lookup(baseline, ip), ip, round);
      }
    }

    method Forget(ip: Ip)
      requires Valid() && chainReady
      modifies this, chain
      ensures Valid() && chainReady
      ensures LineOf(ip) == Line(None, None) && forall other | other != ip :: LineOf(other) == old(LineOf(other))
    {
      prev := prev - {ip};
      if ip !in tracked {
        return;
      }
      tracked := tracked - {ip};
      chain.RemoveRules(ip);
    }
  }

  // ── the table of live clients ─────────────────────────────────────────

  function Rows<T>(table: map<Ip, seq<T>>, ip: Ip): seq<T> {
    if ip in table then table[ip] else []
  }

  datatype Closing = Closing(session: nat, at: int)

  /** What one client's fold, sweep and writes must come to. */
  predicate Joins(before: Option<ClientState>, after: Option<ClientState>) {
    !IsOnline(before) && IsOnline(after)
  }

  function SweptLive(cfg: ClientConfig, c: Option<ClientState>, now: int): Option<ClientState> {
    if c.None? || IsForgotten(cfg, c.value, now) then None else Some(Sweep(cfg, c.value, now))
  }

  function ClosingOf(cfg: ClientConfig, c: Option<ClientState>, now: int): Option<Closing> {
    if c.Some? && GoesOffline(cfg, c.value, now) && c.value.session.Some?
    then Some(Closing(c.value.session.value, c.value.lastSeen)) else None
  }

  function FlushOf(cfg: ClientConfig, c: Option<ClientState>, now: int): Option<Counters> {
    if c.Some? && IsDue(cfg, c.value, now) && c.value.pending != U.NOTHING then Some(c.value.pending) else None
  }

  function ForgottenOf(cfg: ClientConfig, c: Option<ClientState>, now: int): bool {
    c.Some? && IsForgotten(cfg, c.value, now)
  }

  function ClosedRows(sessions: seq<Session>, closing: Option<Closing>): seq<Session> {
    if closing.Some? then Close(sessions, closing.value.session, closing.value.at) else sessions
  }

  /** The phases of a tick, put together for one client. */
  function Written(live: Option<ClientState>, sessions: seq<Session>, samples: seq<Counters>,
                   closing: Option<Closing>, joins: bool, flush: Option<Counters>, now: int): Account
  {
    var closed := ClosedRows(sessions, closing);
    Account(if joins && live.Some? then Some(live.value.(session := Some(|closed|))) else live,
            if joins then closed + [Session(now, None)] else closed,
            if flush.Some? then samples + [flush.value] else samples)
  }

  lemma PhasesAreTick(cfg: ClientConfig, a: Account, ss: seq<Sighting>, now: int)
    ensures var c := TouchAll(a.live, ss, now);
            Written(SweptLive(cfg, c, now), a.sessions, a.samples, ClosingOf(cfg, c, now), Joins(a.live, c), FlushOf(cfg, c, now), now) ==
            TickClient(cfg, a, ss, now)
    ensures ForgottenOf(cfg, TouchAll(a.live, ss, now), now) == Forgets(cfg, a.live, ss, now)
  {
    hide TouchAll;
    TouchAllMeaning(a.live, ss, now);
  }

  /** What the sweep has done once only the clients in `left` remain. */
  ghost predicate SweptSoFar(cfg: ClientConfig, before: map<Ip, ClientState>, left: set<Ip>, live: map<Ip, ClientState>,
                             closes: map<Ip, Closing>, flushes: map<Ip, Counters>, forgets: set<Ip>, now: int)
  {
    && left <= live.Keys == before.Keys
    && closes.Keys <= live.Keys && flushes.Keys <= live.Keys && forgets <= live.Keys
    && (forall ip | ip in live ::
          if ip in left then live[ip] == before[ip] && ip !in closes && ip !in flushes && ip !in forgets
          else SweptAs(cfg, before[ip], now, live[ip], Lookup(closes, ip), Lookup(flushes, ip), ip in forgets))
  }

  lemma SweepNothing(cfg: ClientConfig, before: map<Ip, ClientState>, now: int)
    ensures SweptSoFar(cfg, before, before.Keys, before, map[], map[], {}, now)
  {
    hide SweptAs;
  }

  lemma KnownWhileSweeping(cfg: ClientConfig, before: map<Ip, ClientState>, left: set<Ip>, live: map<Ip, ClientState>,
                           closes: map<Ip, Closing>, flushes: map<Ip, Counters>, forgets: set<Ip>, now: int, ip: Ip)
    requires SweptSoFar(cfg, before, left, live, closes, flushes, forgets, now) && ip in left
    ensures ip in live
  {
  }

  lemma SweepNext(cfg: ClientConfig, before: map<Ip, ClientState>, left: set<Ip>, live: map<Ip, ClientState>,
                  closes: map<Ip, Closing>, flushes: map<Ip, Counters>, forgets: set<Ip>, now: int, ip: Ip)
    requires SweptSoFar(cfg, before, left, live, closes, flushes, forgets, now) && ip in left && ip in live
    ensures var c := live[ip];
            var closing, flush := ClosingOf(cfg, Some(c), now), FlushOf(cfg, Some(c), now);
            SweptSoFar(cfg, before, left - {ip}, live[ip := Sweep(cfg, c, now)],
                       if closing.Some? then closes[ip := closing.value] else closes,
                       if flush.Some? then flushes[ip := flush.value] else flushes,
                       if IsForgotten(cfg, c, now) then forgets + {ip} else forgets, now)
  {
    hide SweptAs, ClosingOf, FlushOf, Sweep, IsForgotten;
    IsSweptAs(cfg, live[ip], now, Sweep(cfg, live[ip], now), ClosingOf(cfg, Some(live[ip]), now), FlushOf(cfg, Some(live[ip]), now),
              IsForgotten(cfg, live[ip], now));
  }

  lemma SweepDone(cfg: ClientConfig, before: map<Ip, ClientState>, live: map<Ip, ClientState>,
                  closes: map<Ip, Closing>, flushes: map<Ip, Counters>, forgets: set<Ip>, now: int)
    requires SweptSoFar(cfg, before, {}, live, closes, flushes, forgets, now)
    ensures forall ip :: var c := Lookup(before, ip);
              && Lookup(live - forgets, ip) == SweptLive(cfg, c, now) && Lookup(closes, ip) == ClosingOf(cfg, c, now)
              && Lookup(flushes, ip) == FlushOf(cfg, c, now) && (ip in forgets <==> ForgottenOf(cfg, c, now))
  {
    hide SweptAs, SweptLive, ClosingOf, FlushOf, ForgottenOf;
    forall ip ensures var c := Lookup(before, ip);
      && Lookup(live - forgets, ip) == SweptLive(cfg, c, now) && Lookup(closes, ip) == ClosingOf(cfg, c, now)
      && Lookup(flushes, ip) == FlushOf(cfg, c, now) && (ip in forgets <==> ForgottenOf(cfg, c, now))
    {
      if ip in live {
        SweptAsMeans(cfg, before[ip], now, live[ip], Lookup(closes, ip), Lookup(flushes, ip), ip in forgets);
      } else {
        NobodySwept(cfg, now);
      }
    }
  }

  /** What the observations in `done` have made of the live table, and who came online. */
  ghost predicate FoldedSoFar(before: map<Ip, ClientState>, done: seq<Observation>, live: map<Ip, ClientState>, opens: set<Ip>, now: int) {
    && (forall ip :: Lookup(live, ip) == TouchAll(Lookup(before, ip), SightingsOf(done, ip), now))
    && (forall ip :: ip in opens <==> Joins(Lookup(before, ip), Lookup(live, ip)))
    && (forall ip :: IsOnline(Lookup(before, ip)) ==> IsOnline(Lookup(live, ip)))
  }

  lemma FoldedMeans(before: map<Ip, ClientState>, done: seq<Observation>, live: map<Ip, ClientState>, opens: set<Ip>, now: int)
    requires FoldedSoFar(before, done, live, opens, now)
    ensures forall ip :: Lookup(live, ip) == TouchAll(Lookup(before, ip), SightingsOf(done, ip), now)
    ensures forall ip :: ip in opens <==> Joins(Lookup(before, ip), Lookup(live, ip))
  {
  }

  lemma FoldNothing(before: map<Ip, ClientState>, now: int)
    ensures FoldedSoFar(before, [], before, {}, now)
  {
  }

  lemma TouchOne(e: Option<ClientState>, ss: seq<Sighting>, s: Sighting, now: int)
    ensures TouchAll(e, ss + [s], now) == Some(Touch(TouchAll(e, ss, now), s, now))
  {
    assert (ss + [s])[..|ss|] == ss;
  }

  lemma FoldNext(before: map<Ip, ClientState>, done: seq<Observation>, o: Observation, live: map<Ip, ClientState>, opens: set<Ip>, now: int)
    requires FoldedSoFar(before, done, live, opens, now)
    ensures var was := Lookup(live, o.ip);
            var after := Touch(was, Sighting(o.delta, o.seen), now);
            FoldedSoFar(before, done + [o], live[o.ip := after], if !IsOnline(was) && after.online then opens + {o.ip} else opens, now)
  {
    hide Touch, TouchAll, SightingsOf;
    var s := Sighting(o.delta, o.seen);
    forall ip ensures SightingsOf(done + [o], ip) == (if o.ip == ip then SightingsOf(done, ip) + [s] else SightingsOf(done, ip)) {
      OneMoreObservation(done, o, ip);
    }
    TouchOne(Lookup(before, o.ip), SightingsOf(done, o.ip), s, now);
    StaysOnline(Lookup(live, o.ip), s, now);
  }

  /** The sessions opened once the clients in `done` are through. */
  ghost predicate OpenedSoFar(sessions0: map<Ip, seq<Session>>, live0: map<Ip, ClientState>, done: set<Ip>,
                              sessions: map<Ip, seq<Session>>, live: map<Ip, ClientState>, now: int)
  {
    && (forall ip :: Rows(sessions, ip) == if ip in done then Rows(sessions0, ip) + [Session(now, None)] else Rows(sessions0, ip))
    && (forall ip :: Lookup(live, ip) == OpenedLive(Lookup(live0, ip), ip in done, |Rows(sessions0, ip)|))
  }

  function OpenedLive(was: Option<ClientState>, opens: bool, id: nat): Option<ClientState> {
    if opens && was.Some? then Some(was.value.(session := Some(id))) else was
  }

  lemma OpenNothing(sessions: map<Ip, seq<Session>>, live: map<Ip, ClientState>, now: int)
    ensures OpenedSoFar(sessions, live, {}, sessions, live, now)
  {
  }

  lemma OpenNext(sessions0: map<Ip, seq<Session>>, live0: map<Ip, ClientState>, done: set<Ip>,
                 sessions: map<Ip, seq<Session>>, live: map<Ip, ClientState>, ip: Ip, now: int)
    requires OpenedSoFar(sessions0, live0, done, sessions, live, now) && ip !in done
    ensures var rows := Rows(sessions, ip);
            OpenedSoFar(sessions0, live0, done + {ip}, sessions[ip := rows + [Session(now, None)]],
                        if ip in live then live[ip := live[ip].(session := Some(|rows|))] else live, now)
  {
  }

  lemma OpenedMeans(sessions0: map<Ip, seq<Session>>, live0: map<Ip, ClientState>, done: set<Ip>,
                    sessions: map<Ip, seq<Session>>, live: map<Ip, ClientState>, now: int)
    requires OpenedSoFar(sessions0, live0, done, sessions, live, now)
    ensures forall ip :: Rows(sessions, ip) == if ip in done then Rows(sessions0, ip) + [Session(now, None)] else Rows(sessions0, ip)
    ensures forall ip :: Lookup(live, ip) == OpenedLive(Lookup(live0, ip), ip in done, |Rows(sessions0, ip)|)
  {
  }

  predicate SweptAs(cfg: ClientConfig, c: ClientState, now: int, entry: ClientState,
                    closing: Option<Closing>, flush: Option<Counters>, forget: bool)
  {
    && entry == Sweep(cfg, c, now) && closing == ClosingOf(cfg, Some(c), now)
    && flush == FlushOf(cfg, Some(c), now) && forget == IsForgotten(cfg, c, now)
  }

  lemma IsSweptAs(cfg: ClientConfig, c: ClientState, now: int, entry: ClientState,
                  closing: Option<Closing>, flush: Option<Counters>, forget: bool)
    requires entry == Sweep(cfg, c, now) && closing == ClosingOf(cfg, Some(c), now)
    requires flush == FlushOf(cfg, Some(c), now) && forget == IsForgotten(cfg, c, now)
    ensures SweptAs(cfg, c, now, entry, closing, flush, forget)
  {
  }

  lemma SweptAsMeans(cfg: ClientConfig, c: ClientState, now: int, entry: ClientState,
                     closing: Option<Closing>, flush: Option<Counters>, forget: bool)
    requires SweptAs(cfg, c, now, entry, closing, flush, forget)
    ensures SweptLive(cfg, Some(c), now) == (if forget then None else Some(entry)) && forget == ForgottenOf(cfg, Some(c), now)
    ensures closing == ClosingOf(cfg, Some(c), now) && flush == FlushOf(cfg, Some(c), now)
  {
  }

  lemma NobodySwept(cfg: ClientConfig, now: int)
    ensures SweptLive(cfg, None, now) == None && ClosingOf(cfg, None, now) == None
    ensures FlushOf(cfg, None, now) == None && !ForgottenOf(cfg, None, now)
  {
  }

  class ClientAccounts {
    const cfg: ClientConfig
    const monitor: ClientMonitor
    var live: map<Ip, ClientState>
    /** The session and sample tables of the statistics database, by client. */
    var sessions: map<Ip, seq<Session>>
    var samples: map<Ip, seq<Counters>>

    ghost function AccountOf(ip: Ip): Account
      reads this
    {
      Account(Lookup(live, ip), Rows(sessions, ip), Rows(samples, ip))
    }

    /** A new process over an existing database. */
    constructor (cfg: ClientConfig, chain: ClientChain, sessions: map<Ip, seq<Session>>, samples: map<Ip, seq<Counters>>, now: int)
      ensures this.cfg == cfg && fresh(monitor) && monitor.chain == chain && monitor.Valid() && !monitor.chainReady
      ensures forall ip :: AccountOf(ip) == Resume(Account(None, Rows(sessions, ip), Rows(samples, ip)), now)
    {
      this.cfg := cfg;
      monitor := new ClientMonitor(chain);
      this.sessions := sessions;
      this.samples := samples;
      live := map ip | ip in sessions && OpenSession(sessions[ip], |sessions[ip]|).Some? ::
        ClientState(true, now, OpenSession(sessions[ip], |sessions[ip]|), U.NOTHING, now);
    }

    method FoldIn(observations: seq<Observation>, now: int) returns (opens: set<Ip>)
      modifies this`live
      ensures forall ip :: Lookup(live, ip) == TouchAll(Lookup(old(live), ip), SightingsOf(observations, ip), now)
      ensures forall ip :: ip in opens <==> Joins(Lookup(old(live), ip), Lookup(live, ip))
    {
      hide U.IfCounters.Plus, Touch, FoldedSoFar, SightingsOf, TouchAll;
      opens := {};
      FoldNothing(live, now);
      assert observations[..0] == [];
      for i := 0 to |observations|
        invariant FoldedSoFar(old(live), observations[..i], live, opens, now)
      {
        var o := observations[i];
        var before := Lookup(live, o.ip);
        var after := FoldOne(before, o, now);
        FoldNext(old(live), observations[..i], o, live, opens, now);
        assert observations[..i + 1] == observations[..i] + [o];
        if !IsOnline(before) && after.online {
          opens := opens + {o.ip};
        }
        live := live[o.ip := after];
      }
      assert observations[..|observations|] == observations;
      FoldedMeans(old(live), observations, live, opens, now);
    }

    method FoldOne(before: Option<ClientState>, o: Observation, now: int) returns (entry: ClientState)
      ensures entry == Touch(before, Sighting(o.delta, o.seen), now)
    {
      entry := if before.Some? then before.value else Fresh(now);
      entry := entry.(pending := entry.pending.Plus(o.delta));
      if o.seen {
        entry := entry.(lastSeen := now);
        if !entry.online {
          entry := entry.(online := true);
        }
      }
    }

    /** The live table comes in hash order. */
    method SweepAll(now: int) returns (closes: map<Ip, Closing>, flushes: map<Ip, Counters>, forgets: set<Ip>)
      modifies this`live
      ensures forall ip :: var c := Lookup(old(live), ip);
                && Lookup(live, ip) == SweptLive(cfg, c, now)
                && Lookup(closes, ip) == ClosingOf(cfg, c, now)
                && Lookup(flushes, ip) == FlushOf(cfg, c, now)
                && (ip in forgets <==> ForgottenOf(cfg, c, now))
    {
      hide Sweep, IsForgotten, ClosingOf, FlushOf, SweptSoFar, SweptLive, ForgottenOf;
      closes, flushes, forgets := map[], map[], {};
      var left := live.Keys;
      SweepNothing(cfg, live, now);
      while left != {}
        invariant SweptSoFar(cfg, old(live), left, live, closes, flushes, forgets, now)
        decreases |left|
      {
        var ip :| ip in left;
        KnownWhileSweeping(cfg, old(live), left, live, closes, flushes, forgets, now, ip);
        var entry, closing, flush, forget := SweepOne(live[ip], now);
        SweepNext(cfg, old(live), left, live, closes, flushes, forgets, now, ip);
        left := left - {ip};
        if closing.Some? {
          closes := closes[ip := closing.value];
        }
        if flush.Some? {
          flushes := flushes[ip := flush.value];
        }
        if forget {
          forgets := forgets + {ip};
        }
        live := live[ip := entry];
      }
      SweepDone(cfg, old(live), live, closes, flushes, forgets, now);
      live := live - forgets;
    }

    method SweepOne(c: ClientState, now: int) returns (entry: ClientState, closing: Option<Closing>, flush: Option<Counters>, forget: bool)
      ensures entry == Sweep(cfg, c, now) && closing == ClosingOf(cfg, Some(c), now)
      ensures flush == FlushOf(cfg, Some(c), now) && forget == IsForgotten(cfg, c, now)
    {
      entry, closing, flush := c, None, None;
      if entry.online && now - entry.lastSeen > OfflineAfter(cfg) {
        entry := entry.(online := false);
        if entry.session.Some? {
          closing := Some(Closing(entry.session.value, entry.lastSeen));
          entry := entry.(session := None);
        }
      }
      var due := now - entry.pendingSince >= PersistEvery(cfg);
      if due && entry.pending != U.NOTHING {
        flush := Some(entry.pending);
      }
      if due {
        entry := entry.(pending := U.NOTHING, pendingSince := now);
      }
      forget := !entry.online && now - entry.lastSeen > DAY;
    }

    /** The database, after the lock: closes, then opens, then flushes. */
    method WriteBack(closes: map<Ip, Closing>, opens: set<Ip>, flushes: map<Ip, Counters>, now: int)
      modifies this
      ensures forall ip :: AccountOf(ip) ==
                Written(old(Lookup(live, ip)), old(Rows(sessions, ip)), old(Rows(samples, ip)),
                        Lookup(closes, ip), ip in opens, Lookup(flushes, ip), now)
    {
      CloseAll(closes);
      OpenAll(opens, now);
      FlushAll(flushes);
    }

    method CloseAll(closes: map<Ip, Closing>)
      modifies this`sessions
      ensures forall ip :: Rows(sessions, ip) == ClosedRows(old(Rows(sessions, ip)), Lookup(closes, ip))
    {
      var left := closes.Keys;
      while left != {}
        invariant left <= closes.Keys
        invariant forall ip :: Rows(sessions, ip) ==
                    ClosedRows(old(Rows(sessions, ip)), if ip in left then None else Lookup(closes, ip))
        decreases |left|
      {
        var ip :| ip in left;
        left := left - {ip};
        sessions := sessions[ip := Close(Rows(sessions, ip), closes[ip].session, closes[ip].at)];
      }
    }

    method OpenAll(opens: set<Ip>, now: int)
      modifies this`sessions, this`live
      ensures forall ip :: Rows(sessions, ip) == if ip in opens then old(Rows(sessions, ip)) + [Session(now, None)] else old(Rows(sessions, ip))
      ensures forall ip :: Lookup(live, ip) == OpenedLive(old(Lookup(live, ip)), ip in opens, |old(Rows(sessions, ip))|)
    {
      hide OpenedSoFar, OpenedLive, Rows;
      var left := opens;
      OpenNothing(sessions, live, now);
      assert opens - left == {};
      while left != {}
        invariant left <= opens && OpenedSoFar(old(sessions), old(live), opens - left, sessions, live, now)
        decreases |left|
      {
        var ip :| ip in left;
        OpenNext(old(sessions), old(live), opens - left, sessions, live, ip, now);
        assert opens - (left - {ip}) == opens - left + {ip};
        left := left - {ip};
        var rows := Rows(sessions, ip);
        live := if ip in live then live[ip := live[ip].(session := Some(|rows|))] else live;
        sessions := sessions[ip := rows + [Session(now, None)]];
      }
      assert opens - left == opens;
      OpenedMeans(old(sessions), old(live), opens, sessions, live, now);
    }

    method FlushAll(flushes: map<Ip, Counters>)
      modifies this`samples
      ensures forall ip :: Rows(samples, ip) ==
                if ip in flushes then old(Rows(samples, ip)) + [flushes[ip]] else old(Rows(samples, ip))
    {
      var left := flushes.Keys;
      while left != {}
        invariant left <= flushes.Keys
        invariant forall ip :: Rows(samples, ip) ==
                    if ip in flushes && ip !in left then old(Rows(samples, ip)) + [flushes[ip]] else old(Rows(samples, ip))
        decreases |left|
      {
        var ip :| ip in left;
        left := left - {ip};
        samples := samples[ip := Rows(samples, ip) + [flushes[ip]]];
      }
    }

    method Tick(observations: seq<Observation>, now: int) returns (forgets: set<Ip>)
      modifies this
      ensures forall ip :: AccountOf(ip) == TickClient(cfg, old(AccountOf(ip)), SightingsOf(observations, ip), now)
      ensures forall ip :: ip in forgets <==> Forgets(cfg, old(Lookup(live, ip)), SightingsOf(observations, ip), now)
    {
      hide Written, SweptLive, ClosingOf, FlushOf, ForgottenOf, TickClient, TouchAll, SightingsOf, Joins, Forgets;
      var opens := FoldIn(observations, now);
      var closes, flushes: map<Ip, Counters>;
      closes, flushes, forgets := SweepAll(now);
      WriteBack(closes, opens, flushes, now);
      forall ip ensures AccountOf(ip) == TickClient(cfg, old(AccountOf(ip)), SightingsOf(observations, ip), now)
                && (ip in forgets <==> Forgets(cfg, old(Lookup(live, ip)), SightingsOf(observations, ip), now)) {
        PhasesAreTick(cfg, old(AccountOf(ip)), SightingsOf(observations, ip), now);
      }
    }

    /** A whole round: for every client, line and account move exactly as its ledger says. */
    method RunRound(candidates: seq<Neighbour>, refused: set<Ip>, meanwhile: map<Ip, Counters>, readOk: bool, now: int)
      returns (ghost installed: set<Ip>)
      requires monitor.Valid() && monitor.chainReady
      modifies this, monitor, monitor.chain
      ensures monitor.Valid() && monitor.chainReady
      ensures installed !! old(monitor.tracked)
      ensures forall ip :: var round := Round(EntriesOf(candidates, ip), ip in installed, GrowthFor(meanwhile, ip), readOk);
                && AccountOf(ip) == TickClient(cfg, old(AccountOf(ip)), RoundSightings(old(monitor.LineOf(ip)), round), now)
                && monitor.LineOf(ip) == if Forgets(cfg, old(AccountOf(ip)).live, RoundSightings(old(monitor.LineOf(ip)), round), now)
                                         then Line(None, None) else LineAfter(old(monitor.LineOf(ip)), round)
    {
      hide TickClient, RoundSightings, LineAfter, Forgets, SightingsOf, EntriesOf, GrowthFor;
      var observations, fitted := monitor.Sample(candidates, cfg.maxTracked, refused, meanwhile, readOk);
      installed := fitted;
      var forgets := Tick(observations, now);
      ForgetAll(forgets);
    }

    method ForgetAll(forgets: set<Ip>)
      requires monitor.Valid() && monitor.chainReady
      modifies monitor, monitor.chain
      ensures monitor.Valid() && monitor.chainReady
      ensures forall ip :: monitor.LineOf(ip) == if ip in forgets then Line(None, None) else old(monitor.LineOf(ip))
    {
      var left := forgets;
      while left != {}
        invariant left <= forgets && monitor.Valid() && monitor.chainReady
        invariant forall ip :: monitor.LineOf(ip) == if ip in forgets && ip !in left then Line(None, None) else old(monitor.LineOf(ip))
        decreases |left|
      {
        var ip :| ip in left;
        left := left - {ip};
        monitor.Forget(ip);
      }
    }

    /** Shutdown: every bucket that holds something becomes a row. */
    method FlushBuckets(now: int)
      modifies this`live, this`samples
      ensures forall ip :: AccountOf(ip) == FlushClient(old(AccountOf(ip)), now)
    {
      var left := live.Keys;
      var flushes: map<Ip, Counters> := map[];
      while left != {}
        invariant samples == old(samples) && left <= live.Keys == old(live).Keys
        invariant forall ip | ip in live :: var c := old(live)[ip];
                    if ip in left || c.pending == U.NOTHING then live[ip] == c && ip !in flushes
                    else live[ip] == c.(pending := U.NOTHING, pendingSince := now) && ip in flushes && flushes[ip] == c.pending
        invariant flushes.Keys <= live.Keys
        decreases |left|
      {
        var ip :| ip in left;
        left := left - {ip};
        if live[ip].pending != U.NOTHING {
          flushes := flushes[ip := live[ip].pending];
          live := live[ip := live[ip].(pending := U.NOTHING, pendingSince := now)];
        }
      }
      FlushAll(flushes);
    }
  }

  lemma StaysOnline(before: Option<ClientState>, s: Sighting, now: int)
    ensures IsOnline(before) ==> Touch(before, s, now).online
  {
    hide U.IfCounters.Plus;
  }
}
