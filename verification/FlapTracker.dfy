/**
 Flap damping (`src/core/selection.rs`): the failback window doubles with every recent switch
 past a threshold. Only the newest 256 switches are kept.
 */
module FlapDamping {
  import opened Basics
  import opened Selection

  const KEPT: nat := 256

  /** The clock library's longest `Duration`: 2^64 - 1 seconds and 999999999 nanoseconds. */
  const DURATION_MAX: int := U64_MAX * SECOND + 999_999_999

  type Duration = d: int | 0 <= d <= DURATION_MAX

  datatype FlapConfig = FlapConfig(base: Duration, threshold: nat, window: Duration, max: Duration)

  function LastKept(s: seq<int>): seq<int> {
    if |s| > KEPT then s[|s| - KEPT..] else s
  }

  function CountSince(s: seq<int>, cutoff: int): nat {
    if |s| == 0 then 0
    else (if s[|s| - 1] >= cutoff then 1 else 0) + CountSince(s[..|s| - 1], cutoff)
  }

  function CheckedMul(d: Duration, k: nat): Option<Duration> {
    if d * k <= DURATION_MAX then Some(d * k) else None
  }

  function WindowFor(recent: nat, cfg: FlapConfig): Duration {
    if recent <= cfg.threshold then Min(cfg.base, cfg.max)
    else
      match CheckedMul(cfg.base, Pow2(Min(recent - cfg.threshold, 16)))
      case Some(d) => Min(d, cfg.max)
      case None => cfg.max
  }

  function EffectiveFailback(switches: seq<int>, now: int, cfg: FlapConfig): Duration {
    WindowFor(CountSince(switches, now - ChronoSpan(cfg.window)), cfg)
  }

  class FlapTracker {
    var switches: seq<int>

    constructor ()
      ensures switches == []
    {
      switches := [];
    }

    constructor WithHistory(history: seq<int>)
      ensures switches == LastKept(Sorted(history))
    {
      var kept := Sorted(history);
      if |kept| > KEPT {
        kept := kept[|kept| - KEPT..];
      }
      switches := kept;
    }

    method RecordSwitch(at: int)
      modifies this
      ensures switches == LastKept(old(switches) + [at])
    {
      switches := switches + [at];
      if |switches| > KEPT {
        switches := switches[|switches| - KEPT..];
      }
    }

    method SwitchesInWindow(now: int, window: Duration) returns (count: nat)
      ensures count == CountSince(switches, now - ChronoSpan(window))
    {
      var cutoff := now - ChronoSpan(window);
      count := 0;
      for k := 0 to |switches|
        invariant count == CountSince(switches[..k], cutoff)
      {
        assert switches[..k + 1][..k] == switches[..k];
        if switches[k] >= cutoff {
          count := count + 1;
        }
      }
      assert switches[..|switches|] == switches;
    }

    method EffectiveFailbackNow(now: int, cfg: FlapConfig) returns (d: Duration)
      ensures d == EffectiveFailback(switches, now, cfg)
    {
      var recent := SwitchesInWindow(now, cfg.window);
      if recent <= cfg.threshold {
        return Min(cfg.base, cfg.max);
      }
      var scaled := CheckedMul(cfg.base, Pow2(Min(recent - cfg.threshold, 16)));
      d := if scaled.Some? then Min(scaled.value, cfg.max) else cfg.max;
    }
  }

  // ── what the window is ────────────────────────────────────────────────

  lemma {:induction false} Pow2Monotone(a: nat, b: nat)
    requires a <= b
    ensures Pow2(a) <= Pow2(b)
    decreases b
  {
    if a < b {
      Pow2Monotone(a, b - 1);
    }
  }

  /** Base, doubled per excess switch at most sixteen times, capped; overflow is just another way to hit the cap. */
  lemma WindowIsCappedDoubling(recent: nat, cfg: FlapConfig)
    ensures var excess := Max(recent - cfg.threshold, 0);
            WindowFor(recent, cfg) == Min(cfg.max, cfg.base * Pow2(Min(excess, 16)))
    ensures Min(cfg.base, cfg.max) <= WindowFor(recent, cfg) <= cfg.max
  {
    var excess := Max(recent - cfg.threshold, 0);
    MulAtLeast(cfg.base, Pow2(Min(excess, 16)));
    assert Pow2(0) == 1;
  }

  lemma MulAtLeast(d: nat, k: nat)
    requires k >= 1
    ensures d * k >= d
  {
    assert d * k == d + d * (k - 1);
  }

  lemma WindowMonotone(a: nat, b: nat, cfg: FlapConfig)
    requires a <= b
    ensures WindowFor(a, cfg) <= WindowFor(b, cfg)
  {
    WindowIsCappedDoubling(a, cfg);
    WindowIsCappedDoubling(b, cfg);
    var ea, eb := Min(Max(a - cfg.threshold, 0), 16), Min(Max(b - cfg.threshold, 0), 16);
    Pow2Monotone(ea, eb);
    MulMonotone(cfg.base, Pow2(ea), Pow2(eb));
  }

  lemma MulMonotone(d: nat, a: nat, b: nat)
    requires a <= b
    ensures d * a <= d * b
  {
  }

  lemma {:induction false} CountShrinks(s: seq<int>, early: int, late: int)
    requires early <= late
    ensures CountSince(s, late) <= CountSince(s, early)
  {
    if |s| != 0 {
      CountShrinks(s[..|s| - 1], early, late);
    }
  }

  /** Without new switches the wait never grows as time passes. */
  lemma BackoffDecays(s: seq<int>, now: int, later: int, cfg: FlapConfig)
    requires now <= later
    ensures EffectiveFailback(s, later, cfg) <= EffectiveFailback(s, now, cfg)
  {
    CountShrinks(s, now - ChronoSpan(cfg.window), later - ChronoSpan(cfg.window));
    WindowMonotone(CountSince(s, later - ChronoSpan(cfg.window)), CountSince(s, now - ChronoSpan(cfg.window)), cfg);
  }

  // ── the buffer against unbounded history ──────────────────────────────

  lemma {:induction false} CountConcat(a: seq<int>, b: seq<int>, cutoff: int)
    ensures CountSince(a + b, cutoff) == CountSince(a, cutoff) + CountSince(b, cutoff)
    decreases |b|
  {
    if |b| == 0 {
      assert a + b == a;
    } else {
      assert (a + b)[..|a + b| - 1] == a + b[..|b| - 1];
      CountConcat(a, b[..|b| - 1], cutoff);
    }
  }

  lemma {:induction false} CountAtMost(s: seq<int>, cutoff: int)
    ensures CountSince(s, cutoff) <= |s|
  {
    if |s| != 0 {
      CountAtMost(s[..|s| - 1], cutoff);
    }
  }

  lemma {:induction false} CountAll(s: seq<int>, cutoff: int)
    requires forall k | 0 <= k < |s| :: s[k] >= cutoff
    ensures CountSince(s, cutoff) == |s|
  {
    if |s| != 0 {
      CountAll(s[..|s| - 1], cutoff);
    }
  }

  lemma {:induction false} CountNone(s: seq<int>, cutoff: int)
    requires forall k | 0 <= k < |s| :: s[k] < cutoff
    ensures CountSince(s, cutoff) == 0
  {
    if |s| != 0 {
      CountNone(s[..|s| - 1], cutoff);
    }
  }

  /** Pushing and draining one at a time leaves exactly the newest entries. */
  lemma DrainKeepsNewest(history: seq<int>, at: int)
    ensures LastKept(LastKept(history) + [at]) == LastKept(history + [at])
  {
  }

  lemma {:induction false} DrainKeepsNewestOf(history: seq<int>, more: seq<int>)
    ensures LastKept(LastKept(history) + more) == LastKept(history + more)
  {
    if |history| > KEPT {
      assert history + more == history[..|history| - KEPT] + (history[|history| - KEPT..] + more);
    }
  }

  /** The buffer miscounts only when it is already full of recent switches. */
  lemma BufferCount(history: seq<int>, cutoff: int)
    requires NonDecreasing(history)
    ensures CountSince(LastKept(history), cutoff) == Min(CountSince(history, cutoff), KEPT)
  {
    CountAtMost(history, cutoff);
    if |history| > KEPT {
      var cut := |history| - KEPT;
      var dropped, kept := history[..cut], history[cut..];
      assert history == dropped + kept;
      CountConcat(dropped, kept, cutoff);
      CountAtMost(kept, cutoff);
      if history[cut] < cutoff {
        CountNone(dropped, cutoff);
      } else {
        CountAll(kept, cutoff);
      }
    }
  }

  lemma BufferAgrees(history: seq<int>, now: int, cfg: FlapConfig)
    requires NonDecreasing(history) && cfg.threshold <= 240
    ensures EffectiveFailback(LastKept(history), now, cfg) == EffectiveFailback(history, now, cfg)
  {
    hide CountSince, LastKept, Pow2, CheckedMul;
    BufferCount(history, now - ChronoSpan(cfg.window));
  }

  function Repeat(at: int, times: nat): (s: seq<int>)
    ensures |s| == times && forall k | 0 <= k < times :: s[k] == at
  {
    seq(times, _ => at)
  }

  /** With a threshold above 240 the drained buffer under-counts: a burst long enough to earn the
      full sixteen doublings gets fewer. */
  lemma BufferTooShort(threshold: nat)
    requires threshold > 240
    ensures var history, cfg := Repeat(0, threshold + 16), FlapConfig(1, threshold, 0, 0x10000);
            NonDecreasing(history)
            && EffectiveFailback(LastKept(history), 0, cfg) < EffectiveFailback(history, 0, cfg)
  {
    var history, cfg := Repeat(0, threshold + 16), FlapConfig(1, threshold, 0, 0x10000);
    CountAll(history, 0);
    BufferCount(history, 0);
    var few := Max(KEPT - threshold, 0);
    WindowIsCappedDoubling(KEPT, cfg);
    WindowIsCappedDoubling(threshold + 16, cfg);
    Pow2Monotone(few, 15);
    Pow2Values();
  }

  lemma Pow2Values()
    ensures Pow2(15) == 0x8000 && Pow2(16) == 0x10000
  {
    assert Pow2(4) == 16;
    assert Pow2(8) == 256;
    assert Pow2(12) == 4096;
  }

  /** The 256-entry buffer gives the same window as all switches ever recorded, for every history,
      clock and setting, exactly when the threshold leaves room for sixteen doublings. */
  lemma BufferAgreesExactly(threshold: nat)
    ensures threshold <= 240 <==>
            forall history, now, cfg: FlapConfig | NonDecreasing(history) && cfg.threshold == threshold ::
              EffectiveFailback(LastKept(history), now, cfg) == EffectiveFailback(history, now, cfg)
  {
    if threshold <= 240 {
      forall history, now, cfg: FlapConfig | NonDecreasing(history) && cfg.threshold == threshold
        ensures EffectiveFailback(LastKept(history), now, cfg) == EffectiveFailback(history, now, cfg)
      {
        BufferAgrees(history, now, cfg);
      }
    } else {
      BufferTooShort(threshold);
    }
  }

  // ── restoring the history after a restart ─────────────────────────────

  function Insert(s: seq<int>, t: int): seq<int> {
    if |s| == 0 then [t]
    else if s[|s| - 1] <= t then s + [t]
    else Insert(s[..|s| - 1], t) + [s[|s| - 1]]
  }

  /** What the library sort of a list of instants yields. */
  function Sorted(s: seq<int>): seq<int> {
    if |s| == 0 then [] else Insert(Sorted(s[1..]), s[0])
  }

  lemma SortedAppend(s: seq<int>, x: int)
    requires NonDecreasing(s) && forall k | 0 <= k < |s| :: s[k] <= x
    ensures NonDecreasing(s + [x])
  {
  }

  lemma {:induction false} InsertBounded(s: seq<int>, t: int, hi: int)
    requires t <= hi && forall k | 0 <= k < |s| :: s[k] <= hi
    ensures forall k | 0 <= k < |Insert(s, t)| :: Insert(s, t)[k] <= hi
  {
    if |s| != 0 {
      InsertBounded(s[..|s| - 1], t, hi);
    }
  }

  lemma {:induction false} InsertSorts(s: seq<int>, t: int)
    requires NonDecreasing(s)
    ensures NonDecreasing(Insert(s, t))
  {
    if |s| != 0 && s[|s| - 1] > t {
      var init, last := s[..|s| - 1], s[|s| - 1];
      InsertSorts(init, t);
      InsertBounded(init, t, last);
      SortedAppend(Insert(init, t), last);
    }
  }

  lemma {:induction false} InsertAddsOne(s: seq<int>, t: int)
    ensures multiset(Insert(s, t)) == multiset(s) + multiset{t}
  {
    if |s| != 0 {
      assert s == s[..|s| - 1] + [s[|s| - 1]];
      InsertAddsOne(s[..|s| - 1], t);
    }
  }

  /** The sort puts the instants in order and neither loses nor adds one. */
  lemma {:induction false} SortedIsSort(s: seq<int>)
    ensures NonDecreasing(Sorted(s)) && multiset(Sorted(s)) == multiset(s)
  {
    if |s| != 0 {
      SortedIsSort(s[1..]);
      InsertSorts(Sorted(s[1..]), s[0]);
      InsertAddsOne(Sorted(s[1..]), s[0]);
      assert s == [s[0]] + s[1..];
    }
  }

  function Since(s: seq<int>, cutoff: int): seq<int> {
    if |s| == 0 then []
    else Since(s[..|s| - 1], cutoff) + (if s[|s| - 1] >= cutoff then [s[|s| - 1]] else [])
  }

  lemma SinceAppend(s: seq<int>, t: int, cutoff: int)
    ensures Since(s + [t], cutoff) == Since(s, cutoff) + (if t >= cutoff then [t] else [])
  {
    assert (s + [t])[..|s|] == s;
  }

  function Reversed(s: seq<int>): (r: seq<int>)
    ensures |r| == |s|
    ensures forall k | 0 <= k < |s| :: r[k] == s[|s| - 1 - k]
  {
    if |s| == 0 then [] else [s[|s| - 1]] + Reversed(s[..|s| - 1])
  }

  /** The stored switches of the last window, newest first and at most 256, as startup reads them. */
  function StoredSince(history: seq<int>, cutoff: int): seq<int> {
    Reversed(LastKept(Since(history, cutoff)))
  }

  lemma {:induction false} SinceNonDecreasing(s: seq<int>, cutoff: int)
    requires NonDecreasing(s)
    ensures NonDecreasing(Since(s, cutoff))
    ensures forall t | t in Since(s, cutoff) :: t in s && t >= cutoff
  {
    if |s| != 0 {
      var init, kept := s[..|s| - 1], Since(s[..|s| - 1], cutoff);
      SinceNonDecreasing(init, cutoff);
      forall k | 0 <= k < |kept| ensures kept[k] <= s[|s| - 1] {
        assert kept[k] in kept;
      }
    }
  }

  lemma {:induction false} SinceCount(s: seq<int>, cutoff: int, later: int)
    requires cutoff <= later
    ensures CountSince(Since(s, cutoff), later) == CountSince(s, later)
  {
    if |s| != 0 {
      SinceCount(s[..|s| - 1], cutoff, later);
      CountConcat(Since(s[..|s| - 1], cutoff), if s[|s| - 1] >= cutoff then [s[|s| - 1]] else [], later);
      assert [s[|s| - 1]][..0] == [];
    }
  }

  /** Sorting what comes newest first puts it back in time order. */
  lemma {:induction false} SortedReversed(s: seq<int>)
    requires NonDecreasing(s)
    ensures Sorted(Reversed(s)) == s
  {
    if |s| != 0 {
      var init, last := s[..|s| - 1], s[|s| - 1];
      SortedReversed(init);
      assert Reversed(s)[1..] == Reversed(init);
      assert Insert(init, last) == init + [last];
      assert s == init + [last];
    }
  }

  /** A restart does not hand a bouncing uplink a fresh window: with the stored history reloaded, every
      later window equals the one of a daemon that was never restarted and forgot nothing. */
  lemma RestartKeepsBackoff(history: seq<int>, restart: int, more: seq<int>, now: int, cfg: FlapConfig)
    requires NonDecreasing(history + more) && restart <= now
    requires cfg.threshold <= 240 && cfg.window <= CHRONO_MAX
    ensures var restored := LastKept(Sorted(StoredSince(history, restart - cfg.window)));
            EffectiveFailback(LastKept(restored + more), now, cfg) == EffectiveFailback(history + more, now, cfg)
  {
    hide CountSince, LastKept, Sorted, Reversed, WindowFor, NonDecreasing, Since;
    var recent := Since(history, restart - cfg.window);
    PrefixNonDecreasing(history, more);
    SinceNonDecreasing(history, restart - cfg.window);
    RestoredIsRecent(recent);
    DrainKeepsNewestOf(recent, more);
    RecentThenMore(history, recent, more);
    BufferAgrees(recent + more, now, cfg);
    var cutoff := now - cfg.window;
    SinceCount(history, restart - cfg.window, cutoff);
    CountConcat(recent, more, cutoff);
    CountConcat(history, more, cutoff);
  }

  lemma PrefixNonDecreasing(a: seq<int>, b: seq<int>)
    requires NonDecreasing(a + b)
    ensures NonDecreasing(a)
  {
    forall i, j | 0 <= i < j < |a| ensures a[i] <= a[j] {
      assert (a + b)[i] <= (a + b)[j];
    }
  }

  lemma RestoredIsRecent(recent: seq<int>)
    requires NonDecreasing(recent)
    ensures LastKept(Sorted(Reversed(LastKept(recent)))) == LastKept(recent)
  {
    SortedReversed(LastKept(recent));
  }

  lemma RecentThenMore(history: seq<int>, recent: seq<int>, more: seq<int>)
    requires NonDecreasing(history + more) && NonDecreasing(recent)
    requires forall t | t in recent :: t in history
    ensures NonDecreasing(recent + more)
  {
    var all, both := recent + more, history + more;
    forall i, j | 0 <= i < j < |all| ensures all[i] <= all[j] {
      if i < |recent| <= j {
        assert recent[i] in recent;
        var k :| 0 <= k < |history| && history[k] == recent[i];
        assert both[k] <= both[|history| + (j - |recent|)];
      } else if i >= |recent| {
        assert both[|history| + (i - |recent|)] <= both[|history| + (j - |recent|)];
      }
    }
  }

  /** What is counted at `now` is every switch inside the window. */
  ghost predicate CountsWindow(s: seq<int>, now: int, window: Duration) {
    CountSince(s, now - ChronoSpan(window)) == CountSince(s, now - window)
  }

  /** The switches counted are those of the window, for every history and clock, exactly when the clock library can
      represent the window. */
  lemma CountsWindowExactly(window: Duration)
    ensures window <= CHRONO_MAX <==> forall s, now :: CountsWindow(s, now, window)
  {
    if window > CHRONO_MAX {
      var s := [-1];
      assert s[..0] == [];
      assert CountSince(s, 0) == 0 && CountSince(s, 0 - window as int) == 1;
      assert !CountsWindow(s, 0, window);
    }
  }

  /** The places of the switches inside the window that ends at `now`. */
  ghost function Recent(s: seq<int>, now: int, window: int): set<nat> {
    set k: nat | k < |s| && now - s[k] <= window
  }

  lemma {:induction false} CountIsRecent(s: seq<int>, now: int, window: int)
    ensures CountSince(s, now - window) == |Recent(s, now, window)|
  {
    if |s| == 0 {
      assert Recent(s, now, window) == {};
    } else {
      var n := |s| - 1;
      CountIsRecent(s[..n], now, window);
      assert Recent(s, now, window) == Recent(s[..n], now, window) + (if now - s[n] <= window then {n} else {});
    }
  }

  /** The window in force, from the switches that lie inside the flap window: the base, doubled for each beyond the
      threshold, sixteen times at most, and capped. */
  lemma WindowInForce(s: seq<int>, now: int, cfg: FlapConfig)
    requires cfg.window <= CHRONO_MAX
    ensures var excess := Max(|Recent(s, now, cfg.window)| - cfg.threshold, 0);
            EffectiveFailback(s, now, cfg) == Min(cfg.max, cfg.base * Pow2(Min(excess, 16)))
  {
    hide WindowFor, CountSince, Pow2;
    CountIsRecent(s, now, cfg.window);
    WindowIsCappedDoubling(CountSince(s, now - cfg.window), cfg);
  }
}
