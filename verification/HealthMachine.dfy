/**
 One provider's health machine (`apply_probe_result` in `src/core/balancer.rs`): two saturating
 counters, two thresholds, and conclusive evidence that skips the threshold. The counters are
 proved to refine the full history of rounds.
 */
module HealthMachine {
  import opened Basics
  import opened Selection

  datatype FailureLayer =
    | Gateway
    | Internet
    | Dns
    | DnsHijack
    | ContentTampered
    | ContentUnreachable
    | Throttled
  {
    predicate IsConclusive() {
      DnsHijack? || ContentTampered?
    }
  }

  /** The part of a provider's state that the health machine owns. */
  datatype Health = Health(
    state: State,
    consecutiveFailures: u32,
    consecutiveSuccesses: u32,
    upSince: Option<int>,
    failureLayer: Option<FailureLayer>)

  const FRESH := Health(Unknown, 0, 0, None, None)

  /** Validation rejects a threshold of zero. */
  datatype Thresholds = Thresholds(success: u32, failure: u32) {
    predicate Valid() {
      success >= 1 && failure >= 1
    }
  }

  /** The outcome of one probe round, with the instant at which it was applied. */
  datatype Round = Round(now: int, success: bool, failure: Option<FailureLayer>) {
    predicate Conclusive() {
      !success && failure.Some? && failure.value.IsConclusive()
    }
  }

  function SaturatingIncrement(n: u32): u32 {
    if n < U32_MAX then n + 1 else n
  }

  function Apply(h: Health, r: Round, t: Thresholds): Health {
    if r.success then
      var passes := SaturatingIncrement(h.consecutiveSuccesses);
      var counted := h.(consecutiveFailures := 0, consecutiveSuccesses := passes);
      if h.state != Up && passes >= t.success then
        counted.(state := Up, upSince := Some(r.now), failureLayer := None)
      else counted
    else
      var failures := SaturatingIncrement(h.consecutiveFailures);
      var counted := h.(consecutiveSuccesses := 0, consecutiveFailures := failures,
                        failureLayer := if r.failure.Some? then r.failure else h.failureLayer);
      if h.state != Down && (r.Conclusive() || failures >= t.failure) then
        counted.(state := Down, upSince := None)
      else counted
  }

  function ApplyAll(rounds: seq<Round>, t: Thresholds): Health {
    if |rounds| == 0 then FRESH
    else Apply(ApplyAll(rounds[..|rounds| - 1], t), rounds[|rounds| - 1], t)
  }

  // ── the history that the counters stand for ───────────────────────────

  /** The rounds before `n` end in a full block of passes. */
  ghost predicate UpTrigger(rounds: seq<Round>, t: Thresholds, n: nat) {
    t.success <= n <= |rounds| && forall k | n - t.success <= k < n :: rounds[k].success
  }

  /** The round before `n` is proof of interception, or completes a full block of failures. */
  ghost predicate DownTrigger(rounds: seq<Round>, t: Thresholds, n: nat) {
    && 1 <= n <= |rounds|
    && (rounds[n - 1].Conclusive()
        || (t.failure <= n && forall k | n - t.failure <= k < n :: !rounds[k].success))
  }

  ghost predicate NoDownAfter(rounds: seq<Round>, t: Thresholds, n: nat) {
    forall m | n < m <= |rounds| :: !DownTrigger(rounds, t, m)
  }

  ghost predicate NoUpAfter(rounds: seq<Round>, t: Thresholds, n: nat) {
    forall m | n < m <= |rounds| :: !UpTrigger(rounds, t, m)
  }

  /** `n` is where the first full block of passes after the last Down trigger completed. */
  ghost predicate Recovery(rounds: seq<Round>, t: Thresholds, n: nat) {
    && UpTrigger(rounds, t, n) && NoDownAfter(rounds, t, n)
    && forall m | 0 <= m < n && UpTrigger(rounds, t, m) :: !NoDownAfter(rounds, t, m)
  }

  function Outcomes(rounds: seq<Round>): seq<bool> {
    seq(|rounds|, k requires 0 <= k < |rounds| => rounds[k].success)
  }

  lemma {:induction false} CountersAreStreaks(rounds: seq<Round>, t: Thresholds)
    ensures var h := ApplyAll(rounds, t);
            && h.consecutiveSuccesses == Min(Streak(Outcomes(rounds), true), U32_MAX)
            && h.consecutiveFailures == Min(Streak(Outcomes(rounds), false), U32_MAX)
            && (h.state == Up <==> h.upSince.Some?)
  {
    if |rounds| != 0 {
      CountersAreStreaks(rounds[..|rounds| - 1], t);
      assert Outcomes(rounds)[..|rounds| - 1] == Outcomes(rounds[..|rounds| - 1]);
    }
  }

  lemma TriggersOfPrefix(rounds: seq<Round>, t: Thresholds)
    requires |rounds| != 0
    ensures forall n | 0 <= n < |rounds| ::
              && UpTrigger(rounds, t, n) == UpTrigger(rounds[..|rounds| - 1], t, n)
              && DownTrigger(rounds, t, n) == DownTrigger(rounds[..|rounds| - 1], t, n)
  {
    var init := rounds[..|rounds| - 1];
    assert forall k | 0 <= k < |init| :: init[k] == rounds[k];
  }

  /** What the latest round does, told by triggers alone. */
  lemma LastRound(rounds: seq<Round>, t: Thresholds)
    requires t.Valid() && |rounds| != 0
    ensures var before, after := ApplyAll(rounds[..|rounds| - 1], t), ApplyAll(rounds, t);
            if UpTrigger(rounds, t, |rounds|) then
              && after.state == Up && !DownTrigger(rounds, t, |rounds|)
              && after.upSince == (if before.state == Up then before.upSince else Some(rounds[|rounds| - 1].now))
            else if DownTrigger(rounds, t, |rounds|) then after.state == Down
            else after.state == before.state && after.upSince == before.upSince
  {
    CountersAreStreaks(rounds, t);
    CountersAreStreaks(rounds[..|rounds| - 1], t);
    StreakIsTrailingBlock(Outcomes(rounds), true, t.success);
    StreakIsTrailingBlock(Outcomes(rounds), false, t.failure);
    assert forall k | 0 <= k < |rounds| :: Outcomes(rounds)[k] == rounds[k].success;
    if UpTrigger(rounds, t, |rounds|) {
      assert rounds[|rounds| - 1].success;
    }
  }

  ghost predicate HistoryVerdict(rounds: seq<Round>, t: Thresholds, state: State) {
    match state
    case Up => exists n: nat :: UpTrigger(rounds, t, n) && NoDownAfter(rounds, t, n)
    case Down => exists n: nat :: DownTrigger(rounds, t, n) && NoUpAfter(rounds, t, n)
    case Unknown => NoUpAfter(rounds, t, 0) && NoDownAfter(rounds, t, 0)
  }

  lemma {:induction false} StateHasVerdict(rounds: seq<Round>, t: Thresholds)
    requires t.Valid()
    ensures HistoryVerdict(rounds, t, ApplyAll(rounds, t).state)
  {
    if |rounds| != 0 {
      var init := rounds[..|rounds| - 1];
      StateHasVerdict(init, t);
      LastRound(rounds, t);
      TriggersOfPrefix(rounds, t);
      if UpTrigger(rounds, t, |rounds|) {
        assert NoDownAfter(rounds, t, |rounds|);
      } else if DownTrigger(rounds, t, |rounds|) {
        assert NoUpAfter(rounds, t, |rounds|);
      } else {
        match ApplyAll(init, t).state
        case Up =>
          var n: nat :| UpTrigger(init, t, n) && NoDownAfter(init, t, n);
          assert UpTrigger(rounds, t, n) && NoDownAfter(rounds, t, n);
        case Down =>
          var n: nat :| DownTrigger(init, t, n) && NoUpAfter(init, t, n);
          assert DownTrigger(rounds, t, n) && NoUpAfter(rounds, t, n);
        case Unknown =>
      }
    }
  }

  /** At most one verdict fits a history: no round is both triggers at once. */
  lemma VerdictIsUnique(rounds: seq<Round>, t: Thresholds, a: State, b: State)
    requires t.Valid()
    requires HistoryVerdict(rounds, t, a) && HistoryVerdict(rounds, t, b)
    ensures a == b
  {
    forall n: nat ensures !(UpTrigger(rounds, t, n) && DownTrigger(rounds, t, n)) {
      if UpTrigger(rounds, t, n) {
        assert rounds[n - 1].success;
      }
    }
  }

  /** Up, Down and Unknown after any rounds, in both directions, by the blocks in them. */
  lemma CountersRefineHistory(rounds: seq<Round>, t: Thresholds, s: State)
    requires t.Valid()
    ensures ApplyAll(rounds, t).state == s <==> HistoryVerdict(rounds, t, s)
  {
    StateHasVerdict(rounds, t);
    if HistoryVerdict(rounds, t, s) {
      VerdictIsUnique(rounds, t, s, ApplyAll(rounds, t).state);
    }
  }

  /** `up_since` is set exactly while the provider is up, to the moment its recovery completed. */
  lemma {:induction false} UpSinceIsRecovery(rounds: seq<Round>, t: Thresholds)
    requires t.Valid()
    ensures ApplyAll(rounds, t).upSince.Some? <==> ApplyAll(rounds, t).state == Up
    ensures ApplyAll(rounds, t).state == Up ==>
              exists n: nat :: Recovery(rounds, t, n) && n >= 1
                && ApplyAll(rounds, t).upSince == Some(rounds[n - 1].now)
  {
    CountersAreStreaks(rounds, t);
    if ApplyAll(rounds, t).state == Up {
      var init := rounds[..|rounds| - 1];
      UpSinceIsRecovery(init, t);
      LastRound(rounds, t);
      TriggersOfPrefix(rounds, t);
      if ApplyAll(init, t).state == Up {
        var n: nat :| Recovery(init, t, n) && n >= 1 && ApplyAll(init, t).upSince == Some(init[n - 1].now);
        RecoveryStays(rounds, t, n);
      } else {
        CountersRefineHistory(init, t, Up);
        forall m | 0 <= m < |rounds| && UpTrigger(rounds, t, m) ensures !NoDownAfter(rounds, t, m) {
          DownAfterInPrefix(rounds, t, m);
        }
        assert Recovery(rounds, t, |rounds|);
      }
    }
  }

  lemma RecoveryStays(rounds: seq<Round>, t: Thresholds, n: nat)
    requires |rounds| != 0 && Recovery(rounds[..|rounds| - 1], t, n)
    requires !DownTrigger(rounds, t, |rounds|)
    ensures Recovery(rounds, t, n)
  {
    var init := rounds[..|rounds| - 1];
    TriggersOfPrefix(rounds, t);
    forall m | 0 <= m < n && UpTrigger(rounds, t, m) ensures !NoDownAfter(rounds, t, m) {
      DownAfterInPrefix(rounds, t, m);
    }
  }

  lemma DownAfterInPrefix(rounds: seq<Round>, t: Thresholds, m: nat)
    requires |rounds| != 0 && !NoDownAfter(rounds[..|rounds| - 1], t, m)
    ensures !NoDownAfter(rounds, t, m)
  {
    var init := rounds[..|rounds| - 1];
    TriggersOfPrefix(rounds, t);
    var d :| m < d <= |init| && DownTrigger(init, t, d);
    assert DownTrigger(rounds, t, d);
  }

  /** Alternating passes and failures never reach a verdict when both thresholds are above one. */
  lemma AlternatingNeverDecides(rounds: seq<Round>, t: Thresholds)
    requires t.success >= 2 && t.failure >= 2
    requires forall k | 0 <= k < |rounds| :: rounds[k].success == (k % 2 == 0) && !rounds[k].Conclusive()
    ensures ApplyAll(rounds, t).state == Unknown
  {
    forall n: nat | n <= |rounds| ensures !UpTrigger(rounds, t, n) && !DownTrigger(rounds, t, n) {
      if n >= 2 {
        assert rounds[n - 1].success != rounds[n - 2].success;
      }
    }
    CountersRefineHistory(rounds, t, Unknown);
  }

  /** With one threshold at one, a block as long as the other threshold holds a trigger of one kind or the other. */
  lemma DecidesInTime(rounds: seq<Round>, t: Thresholds)
    requires t.Valid() && (t.success == 1 || t.failure == 1) && |rounds| >= Max(t.success, t.failure)
    ensures ApplyAll(rounds, t).state != Unknown
  {
    CountersRefineHistory(rounds, t, Unknown);
    if t.success == 1 && exists k | 0 <= k < |rounds| :: rounds[k].success {
      var k :| 0 <= k < |rounds| && rounds[k].success;
      assert UpTrigger(rounds, t, k + 1);
    } else if t.success == 1 {
      assert DownTrigger(rounds, t, t.failure);
    } else if exists k | 0 <= k < |rounds| :: !rounds[k].success {
      var k :| 0 <= k < |rounds| && !rounds[k].success;
      assert DownTrigger(rounds, t, k + 1);
    } else {
      assert UpTrigger(rounds, t, t.success);
    }
  }

  /** A first verdict comes within `max(success, failure)` rounds, as the comments claim, exactly when one of the
      two thresholds is one. */
  lemma DecidesInTimeExactly(t: Thresholds)
    requires t.Valid()
    ensures (t.success == 1 || t.failure == 1) <==>
            forall rounds | |rounds| >= Max(t.success, t.failure) :: ApplyAll(rounds, t).state != Unknown
  {
    hide ApplyAll;
    if t.success == 1 || t.failure == 1 {
      forall rounds | |rounds| >= Max(t.success, t.failure) ensures ApplyAll(rounds, t).state != Unknown {
        DecidesInTime(rounds, t);
      }
    } else {
      var alternating := seq(Max(t.success, t.failure), i => Round(i, i % 2 == 0, None));
      AlternatingNeverDecides(alternating, t);
      assert ApplyAll(alternating, t).state == Unknown;
    }
  }

  // ── what is blamed ────────────────────────────────────────────────────

  /** Round `k` made the provider come up. */
  predicate ComesUp(rounds: seq<Round>, t: Thresholds, k: nat)
    requires k < |rounds|
  {
    ApplyAll(rounds[..k], t).state != Up && ApplyAll(rounds[..k + 1], t).state == Up
  }

  /** Round `k` failed in `layer`, no later one named a layer, and the provider has not come up since. */
  ghost predicate LatestBlame(rounds: seq<Round>, t: Thresholds, k: nat, layer: FailureLayer) {
    && k < |rounds| && !rounds[k].success && rounds[k].failure == Some(layer)
    && forall m | k < m < |rounds| :: !ComesUp(rounds, t, m) && (rounds[m].success || rounds[m].failure.None?)
  }

  lemma ComesUpInPrefix(rounds: seq<Round>, t: Thresholds, m: nat)
    requires m < |rounds| - 1
    ensures ComesUp(rounds, t, m) == ComesUp(rounds[..|rounds| - 1], t, m)
  {
    hide ApplyAll;
    var init := rounds[..|rounds| - 1];
    assert init[..m] == rounds[..m] && init[..m + 1] == rounds[..m + 1];
  }

  lemma BlameInPrefix(rounds: seq<Round>, t: Thresholds, k: nat, layer: FailureLayer)
    requires k < |rounds| - 1
    ensures var n := |rounds| - 1;
            LatestBlame(rounds, t, k, layer) <==>
            LatestBlame(rounds[..n], t, k, layer) && !ComesUp(rounds, t, n) && (rounds[n].success || rounds[n].failure.None?)
  {
    hide ComesUp;
    var n, init := |rounds| - 1, rounds[..|rounds| - 1];
    forall m: nat | m < n ensures ComesUp(rounds, t, m) == ComesUp(init, t, m) && init[m] == rounds[m] {
      ComesUpInPrefix(rounds, t, m);
    }
    if LatestBlame(rounds, t, k, layer) {
      forall m | k < m < n ensures !ComesUp(init, t, m) && (init[m].success || init[m].failure.None?) {
        assert !ComesUp(rounds, t, m);
      }
    }
    if LatestBlame(init, t, k, layer) && !ComesUp(rounds, t, n) && (rounds[n].success || rounds[n].failure.None?) {
      forall m | k < m < |rounds| ensures !ComesUp(rounds, t, m) && (rounds[m].success || rounds[m].failure.None?) {
        assert m < n ==> !ComesUp(init, t, m);
      }
    }
  }

  lemma BlameNext(rounds: seq<Round>, t: Thresholds, layer: FailureLayer)
    requires |rounds| != 0
    ensures var n := |rounds| - 1;
            (exists k: nat :: LatestBlame(rounds, t, k, layer)) <==>
            if !rounds[n].success && rounds[n].failure.Some? then rounds[n].failure.value == layer
            else !ComesUp(rounds, t, n) && exists k: nat :: LatestBlame(rounds[..n], t, k, layer)
  {
    hide ComesUp;
    var n := |rounds| - 1;
    if !rounds[n].success && rounds[n].failure == Some(layer) {
      assert LatestBlame(rounds, t, n, layer);
    }
    if k: nat :| LatestBlame(rounds, t, k, layer) {
      if k < n {
        BlameInPrefix(rounds, t, k, layer);
      }
    }
    if k: nat :| LatestBlame(rounds[..n], t, k, layer) {
      BlameInPrefix(rounds, t, k, layer);
    }
  }

  /** A provider is shown with the layer of its latest failed round, until it comes up again. */
  lemma {:induction false} BlameIsLatestFailure(rounds: seq<Round>, t: Thresholds, layer: FailureLayer)
    ensures ApplyAll(rounds, t).failureLayer == Some(layer) <==> exists k: nat :: LatestBlame(rounds, t, k, layer)
  {
    if |rounds| != 0 {
      var n := |rounds| - 1;
      BlameIsLatestFailure(rounds[..n], t, layer);
      BlameNext(rounds, t, layer);
      assert rounds[..n + 1] == rounds;
    }
  }

  // ── what "continuously healthy" promises ──────────────────────────────

  /** Every round from the recovery on, up to now, passed every layer. */
  ghost predicate PassedSinceRecovery(rounds: seq<Round>, t: Thresholds) {
    exists n: nat :: Recovery(rounds, t, n) && forall k | n <= k < |rounds| :: rounds[k].success
  }

  /** With a failure threshold of one, any failed round is a Down trigger. */
  lemma NoFailureTolerated(rounds: seq<Round>, t: Thresholds)
    requires t.Valid() && t.failure == 1 && ApplyAll(rounds, t).state == Up
    ensures PassedSinceRecovery(rounds, t)
  {
    hide ApplyAll;
    UpSinceIsRecovery(rounds, t);
    var n: nat :| Recovery(rounds, t, n);
    forall k | n <= k < |rounds| ensures rounds[k].success {
      assert !DownTrigger(rounds, t, k + 1);
    }
  }

  /** With a higher one, a single failure right after the recovery leaves the provider up. */
  lemma OneFailureIsTolerated(t: Thresholds)
    requires t.Valid() && t.failure >= 2
    ensures var rounds := seq(t.success + 1, i => Round(i, i < t.success, None));
            ApplyAll(rounds, t).state == Up && !PassedSinceRecovery(rounds, t)
  {
    hide ApplyAll;
    var rounds := seq(t.success + 1, i => Round(i, i < t.success, None));
    assert UpTrigger(rounds, t, t.success);
    assert !rounds[t.success].success;
    assert NoDownAfter(rounds, t, t.success) by {
      assert rounds[t.success - 1].success;
      assert !DownTrigger(rounds, t, t.success + 1);
    }
    CountersRefineHistory(rounds, t, Up);
    assert !UpTrigger(rounds, t, t.success + 1);
  }

  /** A provider that is up has passed every round since its recovery, whatever its history, exactly when the
      failure threshold is one. */
  lemma ContinuouslyPassedExactly(t: Thresholds)
    requires t.Valid()
    ensures t.failure == 1 <==>
            forall rounds | ApplyAll(rounds, t).state == Up :: PassedSinceRecovery(rounds, t)
  {
    hide ApplyAll, PassedSinceRecovery;
    if t.failure == 1 {
      forall rounds | ApplyAll(rounds, t).state == Up ensures PassedSinceRecovery(rounds, t) {
        NoFailureTolerated(rounds, t);
      }
    } else {
      OneFailureIsTolerated(t);
    }
  }
}
