/**
 Keeping conditions that are re-detected every round out of the log (`src/obs/repeat.rs`).
 Times are integer nanoseconds on the monotonic clock.
 */
module LogRate {
  import opened Basics

  /** Fifteen minutes. */
  const SUMMARY_EVERY: int := 15 * 60 * 1_000_000_000

  datatype FailureLine = Report | Summary(checks: nat, over: nat) | Repeat

  datatype LayerLog = LayerLog(lastLine: int, sinceLine: nat, lastFailure: int)

  function SaturatingSince(now: int, then_: int): nat {
    if now >= then_ then now - then_ else 0
  }

  /** One failed round of one layer. */
  function Fail(before: Option<LayerLog>, now: int): (LayerLog, FailureLine) {
    match before
    case None => (LayerLog(now, 0, now), Report)
    case Some(l) =>
      var over := SaturatingSince(now, l.lastLine);
      if SaturatingSince(now, l.lastFailure) >= SUMMARY_EVERY then (LayerLog(now, 0, now), Report)
      else if over >= SUMMARY_EVERY then (LayerLog(now, 0, now), Summary(l.sinceLine + 1, over))
      else (LayerLog(l.lastLine, l.sinceLine + 1, now), Repeat)
  }

  class FailureLog {
    var layers: map<string, LayerLog>

    constructor ()
      ensures layers == map[]
    {
      layers := map[];
    }

    method Failed(layer: string, now: int) returns (line: FailureLine)
      modifies this
      ensures (layers, line) == (old(layers)[layer := Fail(Lookup(old(layers), layer), now).0], Fail(Lookup(old(layers), layer), now).1)
    {
      if layer !in layers {
        layers := layers[layer := LayerLog(now, 0, now)];
        return Report;
      }
      var l := layers[layer];
      var quietFor := SaturatingSince(now, l.lastFailure);
      l := l.(lastFailure := now);
      if quietFor >= SUMMARY_EVERY {
        l := l.(lastLine := now, sinceLine := 0);
        line := Report;
      } else {
        var over := SaturatingSince(now, l.lastLine);
        if over >= SUMMARY_EVERY {
          line := Summary(l.sinceLine + 1, over);
          l := l.(lastLine := now, sinceLine := 0);
        } else {
          l := l.(sinceLine := l.sinceLine + 1);
          line := Repeat;
        }
      }
      layers := layers[layer := l];
    }
  }

  // ── whole runs ────────────────────────────────────────────────────────

  datatype Failure = Failure(layer: string, now: int)

  ghost predicate Monotonic(run: seq<Failure>) {
    forall i, j | 0 <= i < j < |run| :: run[i].now <= run[j].now
  }

  function LogAfter(run: seq<Failure>, n: nat): map<string, LayerLog>
    requires n <= |run|
  {
    if n == 0 then map[]
    else
      var layers, f := LogAfter(run, n - 1), run[n - 1];
      layers[f.layer := Fail(Lookup(layers, f.layer), f.now).0]
  }

  /** The line the `n`-th failure of the run produces. */
  function LineAt(run: seq<Failure>, n: nat): FailureLine
    requires n < |run|
  {
    Fail(Lookup(LogAfter(run, n), run[n].layer), run[n].now).1
  }

  /** A line about `layer` that is more than a repetition. */
  predicate Loud(run: seq<Failure>, n: nat, layer: string)
    requires n < |run|
  {
    run[n].layer == layer && LineAt(run, n) != Repeat
  }

  function LastLoud(run: seq<Failure>, n: nat, layer: string): (k: Option<nat>)
    requires n <= |run|
    ensures k.Some? ==> k.value < n
  {
    if n == 0 then None
    else if Loud(run, n - 1, layer) then Some(n - 1)
    else LastLoud(run, n - 1, layer)
  }

  /** Failures of `layer` among those from `lo` up to but not including `hi`. */
  function CountFailures(run: seq<Failure>, layer: string, lo: nat, hi: nat): nat
    requires lo <= hi <= |run|
    decreases hi
  {
    if lo == hi then 0
    else CountFailures(run, layer, lo, hi - 1) + (if run[hi - 1].layer == layer then 1 else 0)
  }

  lemma {:induction false} LastLoudIsLast(run: seq<Failure>, n: nat, layer: string)
    requires n <= |run|
    ensures match LastLoud(run, n, layer)
            case None => forall k | 0 <= k < n :: !Loud(run, k, layer)
            case Some(k) => Loud(run, k, layer) && forall m | k < m < n :: !Loud(run, m, layer)
  {
    if n != 0 {
      LastLoudIsLast(run, n - 1, layer);
    }
  }

  /** One more failure of a layer already known: what is remembered, and which line comes out. */
  lemma FailMeaning(l: LayerLog, now: int)
    requires l.lastLine <= l.lastFailure <= now
    ensures var (after, line) := Fail(Some(l), now);
            && after.lastFailure == now
            && after.lastLine == (if line == Repeat then l.lastLine else now)
            && after.sinceLine == (if line == Repeat then l.sinceLine + 1 else 0)
            && (line != Repeat <==> now - l.lastLine >= SUMMARY_EVERY)
            && (line.Summary? ==> line.over == now - l.lastLine && line.checks == l.sinceLine + 1)
  {
  }

  /** What the log remembers of a layer is its last line, the failures since, and the latest failure. */
  lemma {:induction false} LogTracksRun(run: seq<Failure>, n: nat, layer: string)
    requires n <= |run| && Monotonic(run)
    ensures layer !in LogAfter(run, n) <==> LastLoud(run, n, layer).None?
    ensures layer in LogAfter(run, n) ==>
              var l, k := LogAfter(run, n)[layer], LastLoud(run, n, layer).value;
              && l.lastLine == run[k].now && l.sinceLine == CountFailures(run, layer, k + 1, n)
              && l.lastLine <= l.lastFailure <= run[n - 1].now
  {
    hide Fail;
    if n != 0 {
      LogTracksRun(run, n - 1, layer);
      assert n >= 2 ==> run[n - 2].now <= run[n - 1].now;
      var f := run[n - 1];
      if f.layer == layer && layer in LogAfter(run, n - 1) {
        FailMeaning(LogAfter(run, n - 1)[layer], f.now);
      } else if f.layer == layer {
        FirstFail(f.now);
      }
    }
  }

  lemma FirstFail(now: int)
    ensures Fail(None, now) == (LayerLog(now, 0, now), Report)
  {
  }

  /** A layer's first failure is reported; after that a line is more than a repetition exactly when the last
      one is a full period old, and a summary counts exactly the failed rounds since then. */
  lemma LoudLineMeaning(run: seq<Failure>, n: nat)
    requires n < |run| && Monotonic(run)
    ensures var layer := run[n].layer;
            match LastLoud(run, n, layer)
            case None => LineAt(run, n) == Report
            case Some(k) =>
              && (LineAt(run, n) != Repeat <==> run[n].now - run[k].now >= SUMMARY_EVERY)
              && (LineAt(run, n).Summary? ==>
                    && LineAt(run, n).over == run[n].now - run[k].now
                    && LineAt(run, n).checks == CountFailures(run, layer, k + 1, n + 1))
  {
    hide Fail, LogAfter, LastLoud;
    var layer := run[n].layer;
    LogTracksRun(run, n, layer);
    assert n != 0 ==> run[n - 1].now <= run[n].now;
    if layer in LogAfter(run, n) {
      NothingLogged(run, n);
      FailMeaning(LogAfter(run, n)[layer], run[n].now);
      var k := LastLoud(run, n, layer).value;
      assert CountFailures(run, layer, k + 1, n + 1) == CountFailures(run, layer, k + 1, n) + 1;
    } else {
      FirstFail(run[n].now);
    }
  }

  /** The latest failure of `layer` before `n`. */
  function LastFailed(run: seq<Failure>, n: nat, layer: string): (k: Option<nat>)
    requires n <= |run|
    ensures match k
            case None => forall j | 0 <= j < n :: run[j].layer != layer
            case Some(f) => f < n && run[f].layer == layer && forall j | f < j < n :: run[j].layer != layer
  {
    if n == 0 then None else if run[n - 1].layer == layer then Some(n - 1) else LastFailed(run, n - 1, layer)
  }

  lemma {:induction false} LogKnowsLatest(run: seq<Failure>, n: nat, layer: string)
    requires n <= |run|
    ensures layer in LogAfter(run, n) <==> LastFailed(run, n, layer).Some?
    ensures layer in LogAfter(run, n) ==> LogAfter(run, n)[layer].lastFailure == run[LastFailed(run, n, layer).value].now
  {
    if n != 0 {
      LogKnowsLatest(run, n - 1, layer);
    }
  }

  /** Which line comes out: after fifteen minutes without a failure of the layer, a new report; else a summary if the
      last loud line is fifteen minutes old; else a repetition. */
  lemma WhichLineExactly(run: seq<Failure>, n: nat)
    requires n < |run| && Monotonic(run)
    ensures var layer := run[n].layer;
            match LastFailed(run, n, layer)
            case None => LineAt(run, n) == Report
            case Some(f) =>
              && (LineAt(run, n) == Report <==> run[n].now - run[f].now >= SUMMARY_EVERY)
              && (LineAt(run, n).Summary? <==>
                  && LastLoud(run, n, layer).Some?
                  && run[n].now - run[f].now < SUMMARY_EVERY <= run[n].now - run[LastLoud(run, n, layer).value].now)
  {
    hide LogAfter, LastLoud;
    var layer := run[n].layer;
    LogTracksRun(run, n, layer);
    LogKnowsLatest(run, n, layer);
    var f := LastFailed(run, n, layer);
    if f.Some? {
      assert run[f.value].now <= run[n].now && run[LastLoud(run, n, layer).value].now <= run[n].now;
    }
  }

  lemma NothingLogged(run: seq<Failure>, n: nat)
    requires n <= |run|
    ensures LogAfter(run, n) != map[] ==> n != 0
  {
  }

  /** Any two lines about one layer that are not repetitions are at least fifteen minutes apart. */
  lemma LoudLinesAreSpaced(run: seq<Failure>, i: nat, j: nat, layer: string)
    requires i < j < |run| && Monotonic(run) && Loud(run, i, layer) && Loud(run, j, layer)
    ensures run[j].now - run[i].now >= 15 * 60 * 1_000_000_000
  {
    LastLoudIsLast(run, j, layer);
    LoudLineMeaning(run, j);
    var last := LastLoud(run, j, layer).value;
    if i < last {
      assert run[i].now <= run[last].now;
    }
  }

  function CountLoud(run: seq<Failure>, n: nat, layer: string): nat
    requires n <= |run|
  {
    if n == 0 then 0 else CountLoud(run, n - 1, layer) + (if Loud(run, n - 1, layer) then 1 else 0)
  }

  /** So a run that lasts T writes at most 1 + T / 15 min such lines per layer. */
  lemma {:induction false} LoudLinesAreFew(run: seq<Failure>, n: nat, layer: string)
    requires n <= |run| && Monotonic(run)
    ensures LastLoud(run, n, layer).None? ==> CountLoud(run, n, layer) == 0
    ensures LastLoud(run, n, layer).Some? ==>
              (CountLoud(run, n, layer) - 1) * SUMMARY_EVERY <= run[LastLoud(run, n, layer).value].now - run[0].now
  {
    if n != 0 {
      LoudLinesAreFew(run, n - 1, layer);
      LastLoudIsLast(run, n - 1, layer);
      if Loud(run, n - 1, layer) {
        if LastLoud(run, n - 1, layer).Some? {
          LoudLinesAreSpaced(run, LastLoud(run, n - 1, layer).value, n - 1, layer);
        } else if n >= 2 {
          assert run[0].now <= run[n - 1].now;
        }
      }
    }
  }

  // ── a condition that is on or off ─────────────────────────────────────

  datatype OutageLine = Started | Reminder(lasted: nat) | Quiet | Ended(lasted: nat) | Idle

  datatype Outage = Outage(since: Option<int>, lastLine: Option<int>)

  function Observe(o: Outage, happening: bool, now: int): (Outage, OutageLine) {
    match o.since
    case None => if happening then (Outage(Some(now), Some(now)), Started) else (o, Idle)
    case Some(since) =>
      if !happening then (Outage(None, None), Ended(SaturatingSince(now, since)))
      else
        var last := if o.lastLine.Some? then o.lastLine.value else since;
        if SaturatingSince(now, last) >= SUMMARY_EVERY then (o.(lastLine := Some(now)), Reminder(SaturatingSince(now, since)))
        else (o, Quiet)
  }

  class OutageLog {
    var since: Option<int>
    var lastLine: Option<int>

    constructor ()
      ensures Outage(since, lastLine) == Outage(None, None)
    {
      since, lastLine := None, None;
    }

    method ObserveRound(happening: bool, now: int) returns (line: OutageLine)
      modifies this
      ensures (Outage(since, lastLine), line) == Observe(Outage(old(since), old(lastLine)), happening, now)
    {
      if since.None? {
        if !happening {
          return Idle;
        }
        since, lastLine := Some(now), Some(now);
        return Started;
      }
      var began := since.value;
      if !happening {
        since, lastLine := None, None;
        return Ended(SaturatingSince(now, began));
      }
      var last := if lastLine.Some? then lastLine.value else began;
      if SaturatingSince(now, last) >= SUMMARY_EVERY {
        lastLine := Some(now);
        return Reminder(SaturatingSince(now, began));
      }
      return Quiet;
    }
  }

  datatype Round = Round(happening: bool, now: int)

  ghost predicate RoundsMonotonic(rounds: seq<Round>) {
    forall i, j | 0 <= i < j < |rounds| :: rounds[i].now <= rounds[j].now
  }

  function OutageAfter(rounds: seq<Round>, n: nat): Outage
    requires n <= |rounds|
  {
    if n == 0 then Outage(None, None)
    else Observe(OutageAfter(rounds, n - 1), rounds[n - 1].happening, rounds[n - 1].now).0
  }

  function OutageLineAt(rounds: seq<Round>, n: nat): OutageLine
    requires n < |rounds|
  {
    Observe(OutageAfter(rounds, n), rounds[n].happening, rounds[n].now).1
  }

  predicate HappeningBefore(rounds: seq<Round>, n: nat)
    requires n <= |rounds|
  {
    n != 0 && rounds[n - 1].happening
  }

  /** Where the streak of rounds that ends before `n` began. */
  function StreakStart(rounds: seq<Round>, n: nat): (s: nat)
    requires n <= |rounds|
    ensures s <= n
  {
    if HappeningBefore(rounds, n) then StreakStart(rounds, n - 1) else n
  }

  /** The latest line of the outage that is on before `n`. */
  function LastOutageLine(rounds: seq<Round>, n: nat): (k: nat)
    requires n <= |rounds| && HappeningBefore(rounds, n)
    ensures k < n
  {
    if OutageLineAt(rounds, n - 1).Quiet? && HappeningBefore(rounds, n - 1) then LastOutageLine(rounds, n - 1) else n - 1
  }

  lemma {:induction false} OutageTracksRounds(rounds: seq<Round>, n: nat)
    requires n <= |rounds| && RoundsMonotonic(rounds)
    ensures var o := OutageAfter(rounds, n);
            if HappeningBefore(rounds, n) then
              && StreakStart(rounds, n) < n
              && o.since == Some(rounds[StreakStart(rounds, n)].now)
              && o.lastLine == Some(rounds[LastOutageLine(rounds, n)].now)
            else o == Outage(None, None)
  {
    if n != 0 {
      OutageTracksRounds(rounds, n - 1);
    }
  }

  /** Every round's line: an outage is announced exactly when it begins and exactly when it is over, so the
      two alternate; its true length is told each time; reminders are fifteen minutes apart. */
  lemma OutageLinesAlternate(rounds: seq<Round>, n: nat)
    requires n < |rounds| && RoundsMonotonic(rounds)
    ensures var before, lasted := HappeningBefore(rounds, n), rounds[n].now - rounds[StreakStart(rounds, n)].now;
            && (OutageLineAt(rounds, n) == Idle <==> !before && !rounds[n].happening)
            && (OutageLineAt(rounds, n) == Started <==> !before && rounds[n].happening)
            && (OutageLineAt(rounds, n).Ended? <==> before && !rounds[n].happening)
            && (OutageLineAt(rounds, n).Ended? ==> OutageLineAt(rounds, n).lasted == lasted)
            && (OutageLineAt(rounds, n).Reminder? ==> OutageLineAt(rounds, n).lasted == lasted)
            && (OutageLineAt(rounds, n).Reminder? <==>
                  before && rounds[n].happening && rounds[n].now - rounds[LastOutageLine(rounds, n)].now >= SUMMARY_EVERY)
  {
    OutageTracksRounds(rounds, n);
    if HappeningBefore(rounds, n) {
      assert rounds[StreakStart(rounds, n)].now <= rounds[n].now;
      assert rounds[LastOutageLine(rounds, n)].now <= rounds[n].now;
    }
  }
}
