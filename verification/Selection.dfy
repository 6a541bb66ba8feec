/**
 Provider selection: the decision function at the heart of failover
 (`src/core/selection.rs`). Times are integer nanoseconds.
 */
module Selection {
  import opened Basics
  import opened Orderings

  datatype State = Up | Down | Unknown

  datatype ProviderView = ProviderView(name: string, priority: nat, state: State, upSince: Option<int>) {
    predicate IsUp() {
      state == Up
    }

    /** Up, with a recorded moment of recovery at least `window` ago. */
    predicate StableFor(now: int, window: nat) {
      upSince.Some? && now - upSince.value >= ChronoSpan(window)
    }
  }

  /** The longest span the clock library represents: 2^63 - 1 milliseconds. */
  const CHRONO_MAX: int := 9_223_372_036_854_775_807 * 1_000_000

  const SECOND: int := 1_000_000_000

  /** A window too long to represent is treated as zero. */
  function ChronoSpan(window: nat): nat {
    if window <= CHRONO_MAX then window else 0
  }

  datatype SelectionInput = SelectionInput(
    now: int,
    current: Option<string>,
    forced: Option<string>,
    providers: seq<ProviderView>,
    failbackStable: nat)

  /** Which branch chose a switch; the log sentence itself is not modelled. */
  datatype Reason =
    | OperatorOverride
    | ForcedUnhealthy
    | ForcedMissing
    | InitialSelection
    | CurrentUnconfigured
    | CurrentDown
    | Failback

  datatype Decision =
    | Keep
    | Switch(to: string, reason: Reason)
    | WaitingForFailback(candidate: string, stableFor: nat, required: nat)
    | WaitingForVerdict(incumbent: string, candidate: string)
    | WaitingForFirstVerdict(pending: string, candidate: string)
    | NoHealthyProvider

  function FindByName(ps: seq<ProviderView>, name: string): (r: Option<ProviderView>)
    ensures r.Some? ==> r.value in ps && r.value.name == name
    ensures r.None? ==> forall p <- ps :: p.name != name
  {
    if |ps| == 0 then None
    else if ps[0].name == name then Some(ps[0])
    else FindByName(ps[1..], name)
  }

  function CompareRank(a: ProviderView, b: ProviderView): Ordering {
    CompareInts(a.priority, b.priority).Then(CompareStrings(a.name, b.name))
  }

  /** The first of the least-ranked healthy providers, as a left-to-right minimum finds it. */
  function BestHealthy(ps: seq<ProviderView>): Option<ProviderView> {
    if |ps| == 0 then None
    else
      var last := ps[|ps| - 1];
      match BestHealthy(ps[..|ps| - 1])
      case None => if last.IsUp() then Some(last) else None
      case Some(b) => if last.IsUp() && CompareRank(b, last) == Greater then Some(last) else Some(b)
  }

  predicate Unproven(p: ProviderView, best: ProviderView) {
    p.state == Unknown && p.priority < best.priority
  }

  /** The unprobed provider of best priority among those better than `best`. */
  function FirstUnproven(ps: seq<ProviderView>, best: ProviderView): Option<ProviderView> {
    if |ps| == 0 then None
    else
      var last := ps[|ps| - 1];
      match FirstUnproven(ps[..|ps| - 1], best)
      case None => if Unproven(last, best) then Some(last) else None
      case Some(b) => if Unproven(last, best) && last.priority < b.priority then Some(last) else Some(b)
  }

  function SwitchOrKeep(current: Option<string>, target: ProviderView, reason: Reason): Decision {
    if current == Some(target.name) then Keep else Switch(target.name, reason)
  }

  function ElapsedWholeSeconds(now: int, since: Option<int>): nat {
    if since.Some? && now >= since.value then (now - since.value) / SECOND * SECOND else 0
  }

  function BestOrNothing(i: SelectionInput, reason: Reason): Decision {
    match BestHealthy(i.providers)
    case Some(b) => SwitchOrKeep(i.current, b, reason)
    case None => NoHealthyProvider
  }

  /** Which provider should own the default route. */
  function Decide(i: SelectionInput): Decision {
    match i.forced
    case Some(pin) =>
      (match FindByName(i.providers, pin)
       case Some(p) =>
         if p.IsUp() then SwitchOrKeep(i.current, p, OperatorOverride)
         else BestOrNothing(i, ForcedUnhealthy)
       case None => BestOrNothing(i, ForcedMissing))
    case None => DecideAutomatically(i)
  }

  function DecideAutomatically(i: SelectionInput): Decision {
    match BestHealthy(i.providers)
    case None => NoHealthyProvider
    case Some(best) =>
      match i.current
      case None =>
        (match FirstUnproven(i.providers, best)
         case Some(pending) => WaitingForFirstVerdict(pending.name, best.name)
         case None => Switch(best.name, InitialSelection))
      case Some(cur) =>
        if cur == best.name then Keep
        else
          match FindByName(i.providers, cur)
          case None => Switch(best.name, CurrentUnconfigured)
          case Some(c) =>
            match c.state
            case Down => Switch(best.name, CurrentDown)
            case Unknown => WaitingForVerdict(cur, best.name)
            case Up =>
              if best.StableFor(i.now, i.failbackStable) then Switch(best.name, Failback)
              else WaitingForFailback(best.name, ElapsedWholeSeconds(i.now, best.upSince), i.failbackStable)
  }

  // ── what the choice means ─────────────────────────────────────────────

  ghost predicate Least(ps: seq<ProviderView>, b: ProviderView) {
    && b in ps && b.IsUp()
    && forall q <- ps | q.IsUp() :: CompareRank(b, q) != Greater
  }

  lemma RankReverses(a: ProviderView, b: ProviderView)
    ensures CompareRank(b, a) == CompareRank(a, b).Reverse()
  {
    LexicographicReverses(CompareChars, a.name, b.name);
  }

  lemma RankTransitive(a: ProviderView, b: ProviderView, c: ProviderView)
    requires CompareRank(a, b) != Greater && CompareRank(b, c) != Greater
    ensures CompareRank(a, c) != Greater
  {
    if a.priority == b.priority == c.priority {
      LexicographicTransitive(CompareChars, a.name, b.name, c.name);
    }
  }

  /** Nothing is chosen only when nothing is up; otherwise the choice ranks first among all that are. */
  lemma {:induction false} BestHealthyIsLeast(ps: seq<ProviderView>)
    ensures match BestHealthy(ps)
            case None => forall p <- ps :: !p.IsUp()
            case Some(b) => Least(ps, b)
  {
    if |ps| != 0 {
      var init, last := ps[..|ps| - 1], ps[|ps| - 1];
      assert ps == init + [last];
      BestHealthyIsLeast(init);
      match BestHealthy(init)
      case None =>
        LexicographicReverses(CompareChars, last.name, last.name);
      case Some(b) =>
        RankReverses(b, last);
        LexicographicReverses(CompareChars, last.name, last.name);
        if last.IsUp() && CompareRank(b, last) == Greater {
          forall q <- ps | q.IsUp() ensures CompareRank(last, q) != Greater {
            if q in init {
              RankTransitive(last, b, q);
            }
          }
        }
    }
  }

  lemma {:induction false} FirstUnprovenIsLeast(ps: seq<ProviderView>, best: ProviderView)
    ensures match FirstUnproven(ps, best)
            case None => forall p <- ps :: !Unproven(p, best)
            case Some(u) => u in ps && Unproven(u, best) && forall p <- ps | Unproven(p, best) :: u.priority <= p.priority
  {
    if |ps| != 0 {
      assert ps == ps[..|ps| - 1] + [ps[|ps| - 1]];
      FirstUnprovenIsLeast(ps[..|ps| - 1], best);
    }
  }

  /** Configuration validation rejects two providers with one name or one priority. */
  ghost predicate Distinct(ps: seq<ProviderView>) {
    forall p, q | p in ps && q in ps && (p.name == q.name || p.priority == q.priority) :: p == q
  }

  ghost predicate SameProviders(a: seq<ProviderView>, b: seq<ProviderView>) {
    forall p :: p in a <==> p in b
  }

  lemma SameChoice(a: seq<ProviderView>, b: seq<ProviderView>)
    requires Distinct(a) && SameProviders(a, b)
    ensures BestHealthy(a) == BestHealthy(b)
  {
    BestHealthyIsLeast(a);
    BestHealthyIsLeast(b);
    if BestHealthy(a).Some? && BestHealthy(b).Some? {
      RankReverses(BestHealthy(a).value, BestHealthy(b).value);
      CompareStringsEqual(BestHealthy(a).value.name, BestHealthy(b).value.name);
    }
  }

  /** The views come out of a hash map in any order; the decision is the same for all of them. */
  lemma DecideIgnoresOrder(i: SelectionInput, shuffled: seq<ProviderView>)
    requires Distinct(i.providers) && SameProviders(i.providers, shuffled)
    ensures Decide(i.(providers := shuffled)) == Decide(i)
  {
    hide BestHealthy, FirstUnproven;
    SameChoice(i.providers, shuffled);
    if i.forced.Some? {
      SameLookup(i.providers, shuffled, i.forced.value);
    }
    if i.current.Some? {
      SameLookup(i.providers, shuffled, i.current.value);
    }
    if BestHealthy(i.providers).Some? {
      SameUnproven(i.providers, shuffled, BestHealthy(i.providers).value);
    }
  }

  lemma SameLookup(a: seq<ProviderView>, b: seq<ProviderView>, name: string)
    requires Distinct(a) && SameProviders(a, b)
    ensures FindByName(a, name) == FindByName(b, name)
  {
  }

  lemma SameUnproven(a: seq<ProviderView>, b: seq<ProviderView>, best: ProviderView)
    requires Distinct(a) && SameProviders(a, b)
    ensures FirstUnproven(a, best) == FirstUnproven(b, best)
  {
    FirstUnprovenIsLeast(a, best);
    FirstUnprovenIsLeast(b, best);
  }

  ghost predicate Shows(ps: seq<ProviderView>, name: string, state: State) {
    exists p :: p in ps && p.name == name && p.state == state
  }

  ghost predicate RanksFirst(ps: seq<ProviderView>, name: string) {
    exists p :: Least(ps, p) && p.name == name
  }

  ghost predicate BetterThanAllUp(ps: seq<ProviderView>, name: string) {
    exists u :: u in ps && u.name == name && u.state == Unknown
      && forall p | p in ps && p.IsUp() :: u.priority < p.priority
  }

  /** The candidate of a failback that has to wait: it ranks first, is not stable yet, and has been up for this long. */
  ghost predicate NotStableYet(i: SelectionInput, candidate: string, stableFor: nat) {
    exists p :: Least(i.providers, p) && p.name == candidate && !p.StableFor(i.now, i.failbackStable)
      && stableFor == ElapsedWholeSeconds(i.now, p.upSince)
  }

  /** What each decision says about the view it was taken on. Kept and chosen providers are up; a switch
      always moves; without a pin it goes to the provider that ranks first. A waiting decision names the
      provider that ranks first, and what keeps it waiting. */
  lemma DecisionMeaning(i: SelectionInput)
    ensures match Decide(i)
            case Keep => i.current.Some? && Shows(i.providers, i.current.value, Up)
            case Switch(to, _) =>
              && i.current != Some(to) && Shows(i.providers, to, Up)
              && (i.forced.None? ==> RanksFirst(i.providers, to))
            case NoHealthyProvider => forall p | p in i.providers :: !p.IsUp()
            case WaitingForVerdict(incumbent, candidate) =>
              && i.forced.None? && i.current == Some(incumbent) && Shows(i.providers, incumbent, Unknown)
              && RanksFirst(i.providers, candidate) && candidate != incumbent
            case WaitingForFailback(candidate, stableFor, required) =>
              && i.forced.None? && i.current.Some? && Shows(i.providers, i.current.value, Up)
              && candidate != i.current.value && required == i.failbackStable && NotStableYet(i, candidate, stableFor)
            case WaitingForFirstVerdict(pending, candidate) =>
              && i.forced.None? && i.current.None?
              && BetterThanAllUp(i.providers, pending) && RanksFirst(i.providers, candidate)
  {
    hide Least, CompareRank;
    BestHealthyIsLeast(i.providers);
    var best := BestHealthy(i.providers);
    if best.Some? {
      LeastIsUp(i.providers, best.value);
      if FirstUnproven(i.providers, best.value).Some? {
        FirstUnprovenIsLeast(i.providers, best.value);
      }
    }
  }

  lemma LeastIsUp(ps: seq<ProviderView>, b: ProviderView)
    requires Least(ps, b)
    ensures b in ps && b.IsUp() && forall p | p in ps && p.IsUp() :: b.priority <= p.priority
  {
    forall p | p in ps && p.IsUp() ensures b.priority <= p.priority {
      assert CompareRank(b, p) != Greater;
    }
  }

  /** `r` is up, ranks first, outranks the healthy current provider and has been stable for the window. */
  ghost predicate FailbackDue(i: SelectionInput, c: ProviderView, p: ProviderView) {
    && c in i.providers && c.IsUp() && i.current == Some(c.name)
    && Least(i.providers, p) && p.priority < c.priority
    && p.StableFor(i.now, i.failbackStable)
  }

  /** Coming back is the only switch that waits: it is made exactly when nobody is pinned, the current
      provider is up, a better one is up too, and that one has been stable for the window. */
  lemma FailbackExactly(i: SelectionInput, r: string)
    requires Distinct(i.providers)
    ensures Decide(i) == Switch(r, Failback) <==>
            i.forced.None? && exists c, p :: FailbackDue(i, c, p) && p.name == r
  {
    hide Decide, FailbackDue, Distinct;
    if Decide(i) == Switch(r, Failback) {
      FailbackIsDue(i, r);
    }
    if c, p :| i.forced.None? && FailbackDue(i, c, p) && p.name == r {
      DueIsFailback(i, c, p);
    }
  }

  lemma FailbackIsDue(i: SelectionInput, r: string)
    requires Distinct(i.providers) && Decide(i) == Switch(r, Failback)
    ensures i.forced.None? && exists c, p :: FailbackDue(i, c, p) && p.name == r
  {
    hide Least, CompareRank;
    BestHealthyIsLeast(i.providers);
    var c := FindByName(i.providers, i.current.value).value;
    var p := BestHealthy(i.providers).value;
    LeastIsUp(i.providers, p);
    assert FailbackDue(i, c, p);
  }

  lemma DueIsFailback(i: SelectionInput, c: ProviderView, p: ProviderView)
    requires Distinct(i.providers) && i.forced.None? && FailbackDue(i, c, p)
    ensures Decide(i) == Switch(p.name, Failback)
  {
    hide Least, CompareRank;
    LeastIsChosen(i.providers, p);
    LeastIsUp(i.providers, p);
  }

  /** The provider that `r` names has been up for at least `w`. */
  ghost predicate UpFor(i: SelectionInput, r: string, w: int) {
    exists p :: p in i.providers && p.name == r && p.IsUp() && p.upSince.Some? && i.now - p.upSince.value >= w
  }

  /** A failback returns to a provider that has been up for as long as the window says, on every view, exactly when
      the clock library can represent the window. */
  lemma FailbackWaitsExactly(w: nat)
    ensures w <= 9_223_372_036_854_775_807_000_000 <==>
            forall i: SelectionInput, r | i.failbackStable == w && Distinct(i.providers) && Decide(i) == Switch(r, Failback) :: UpFor(i, r, w)
  {
    hide Decide, Least, Distinct, UpFor;
    if w <= CHRONO_MAX {
      forall i: SelectionInput, r | i.failbackStable == w && Distinct(i.providers) && Decide(i) == Switch(r, Failback) ensures UpFor(i, r, w) {
        FailbackIsDue(i, r);
        DueMeansUpFor(i, r);
      }
    } else {
      TooLongIsNoWait(w);
    }
  }

  lemma DueMeansUpFor(i: SelectionInput, r: string)
    requires i.failbackStable <= CHRONO_MAX && exists c, p :: FailbackDue(i, c, p) && p.name == r
    ensures UpFor(i, r, i.failbackStable)
  {
    hide CompareRank;
    var c, p :| FailbackDue(i, c, p) && p.name == r;
    LeastIsUp(i.providers, p);
  }

  /** Two healthy providers that recovered just now, and a window beyond what the clock library represents. */
  lemma TooLongIsNoWait(w: nat)
    requires w > CHRONO_MAX
    ensures var i := SelectionInput(0, Some("b"), None, [ProviderView("a", 0, Up, Some(0)), ProviderView("b", 1, Up, Some(0))], w);
            Distinct(i.providers) && Decide(i) == Switch("a", Failback) && !UpFor(i, "a", w)
  {
    var a, b := ProviderView("a", 0, Up, Some(0)), ProviderView("b", 1, Up, Some(0));
    var i := SelectionInput(0, Some("b"), None, [a, b], w);
    LexicographicReverses(CompareChars, a.name, a.name);
    assert Least(i.providers, a);
    assert FailbackDue(i, b, a);
    DueIsFailback(i, b, a);
  }

  lemma LeastIsChosen(ps: seq<ProviderView>, p: ProviderView)
    requires Distinct(ps) && Least(ps, p)
    ensures BestHealthy(ps) == Some(p)
  {
    BestHealthyIsLeast(ps);
    RankReverses(BestHealthy(ps).value, p);
    CompareStringsEqual(BestHealthy(ps).value.name, p.name);
  }

  // ── when each answer is given ─────────────────────────────────────────

  ghost predicate HasView(ps: seq<ProviderView>, name: string) {
    exists p :: p in ps && p.name == name
  }

  ghost predicate SomeoneUp(ps: seq<ProviderView>) {
    exists p :: p in ps && p.IsUp()
  }

  /** Still without a verdict, better than everyone up, and first among its like. */
  ghost predicate FirstInLine(ps: seq<ProviderView>, name: string) {
    exists u :: u in ps && u.name == name && u.state == Unknown
      && (forall p | p in ps && p.IsUp() :: u.priority < p.priority)
      && forall q | q in ps && q.state == Unknown :: u.priority <= q.priority
  }

  lemma FirstIsBest(ps: seq<ProviderView>, name: string)
    requires Distinct(ps)
    ensures RanksFirst(ps, name) <==> BestHealthy(ps).Some? && BestHealthy(ps).value.name == name
    ensures SomeoneUp(ps) <==> BestHealthy(ps).Some?
  {
    hide Least, CompareRank, BestHealthy, Distinct;
    BestHealthyIsLeast(ps);
    if p :| Least(ps, p) && p.name == name {
      LeastIsChosen(ps, p);
    }
    if BestHealthy(ps).Some? {
      LeastIsUp(ps, BestHealthy(ps).value);
    }
  }

  lemma FoundAs(ps: seq<ProviderView>, name: string, state: State)
    requires Distinct(ps)
    ensures Shows(ps, name, state) <==> FindByName(ps, name).Some? && FindByName(ps, name).value.state == state
    ensures HasView(ps, name) <==> FindByName(ps, name).Some?
  {
  }

  lemma LineIsUnproven(ps: seq<ProviderView>, best: ProviderView, name: string)
    requires Distinct(ps) && Least(ps, best)
    ensures FirstInLine(ps, name) <==> FirstUnproven(ps, best).Some? && FirstUnproven(ps, best).value.name == name
  {
    hide Least, CompareRank, FirstUnproven;
    FirstUnprovenIsLeast(ps, best);
    LeastIsUp(ps, best);
  }

  /** Nothing is switched to or waited for exactly when nobody is up. */
  lemma NobodyHealthyExactly(i: SelectionInput)
    requires Distinct(i.providers)
    ensures Decide(i) == NoHealthyProvider <==> !SomeoneUp(i.providers)
  {
    hide BestHealthy, FirstUnproven, Distinct, CompareRank, SomeoneUp, RanksFirst;
    FirstIsBest(i.providers, "");
    if i.forced.Some? {
      Witness(i.providers, i.forced.value);
    }
  }

  lemma Witness(ps: seq<ProviderView>, name: string)
    ensures var p := FindByName(ps, name); p.Some? && p.value.IsUp() ==> SomeoneUp(ps)
  {
  }

  /** An incumbent without a verdict is waited for exactly when nobody is pinned and someone is up. */
  lemma VerdictWaitExactly(i: SelectionInput, incumbent: string, candidate: string)
    requires Distinct(i.providers)
    ensures Decide(i) == WaitingForVerdict(incumbent, candidate) <==>
            i.forced.None? && i.current == Some(incumbent) && Shows(i.providers, incumbent, Unknown) && RanksFirst(i.providers, candidate)
  {
    hide BestHealthy, FirstUnproven, FindByName, Distinct, CompareRank, Shows, RanksFirst;
    FirstIsBest(i.providers, candidate);
    FoundAs(i.providers, incumbent, Unknown);
    BestIsFound(i.providers);
  }

  lemma BestIsFound(ps: seq<ProviderView>)
    requires Distinct(ps)
    ensures var best := BestHealthy(ps); best.Some? ==> FindByName(ps, best.value.name) == best && best.value.IsUp()
  {
    hide CompareRank;
    BestHealthyIsLeast(ps);
  }

  /** A first verdict is waited for exactly when nobody is pinned, nothing is active, someone is up, and a provider
      without a verdict is better than everyone up. */
  lemma FirstVerdictWaitExactly(i: SelectionInput, pending: string, candidate: string)
    requires Distinct(i.providers)
    ensures Decide(i) == WaitingForFirstVerdict(pending, candidate) <==>
            i.forced.None? && i.current.None? && RanksFirst(i.providers, candidate) && FirstInLine(i.providers, pending)
  {
    hide BestHealthy, FirstUnproven, FindByName, Distinct, CompareRank, Least, RanksFirst, FirstInLine;
    FirstIsBest(i.providers, candidate);
    BestHealthyIsLeast(i.providers);
    if BestHealthy(i.providers).Some? {
      LineIsUnproven(i.providers, BestHealthy(i.providers).value, pending);
    }
  }

  /** A first selection is made exactly when none is waited for. */
  lemma InitialSelectionExactly(i: SelectionInput, to: string)
    requires Distinct(i.providers)
    ensures Decide(i) == Switch(to, InitialSelection) <==>
            i.forced.None? && i.current.None? && RanksFirst(i.providers, to) && forall name :: !FirstInLine(i.providers, name)
  {
    hide BestHealthy, FirstUnproven, FindByName, Distinct, CompareRank, Least, RanksFirst, FirstInLine;
    FirstIsBest(i.providers, to);
    BestHealthyIsLeast(i.providers);
    if BestHealthy(i.providers).Some? {
      var best := BestHealthy(i.providers).value;
      forall name ensures FirstInLine(i.providers, name) <==>
                          FirstUnproven(i.providers, best).Some? && FirstUnproven(i.providers, best).value.name == name
      {
        LineIsUnproven(i.providers, best, name);
      }
      if FirstUnproven(i.providers, best).Some? {
        assert FirstInLine(i.providers, FirstUnproven(i.providers, best).value.name);
      }
    }
  }

  /** A provider that is down, or no longer configured, is left at once, and only then so. */
  lemma LeftAtOnceExactly(i: SelectionInput, to: string)
    requires Distinct(i.providers)
    ensures Decide(i) == Switch(to, CurrentDown) <==>
            i.forced.None? && i.current.Some? && Shows(i.providers, i.current.value, Down) && RanksFirst(i.providers, to)
    ensures Decide(i) == Switch(to, CurrentUnconfigured) <==>
            i.forced.None? && i.current.Some? && !HasView(i.providers, i.current.value) && RanksFirst(i.providers, to)
  {
    hide BestHealthy, FirstUnproven, FindByName, Distinct, CompareRank, Shows, RanksFirst, HasView;
    FirstIsBest(i.providers, to);
    BestIsFound(i.providers);
    if i.current.Some? {
      FoundAs(i.providers, i.current.value, Down);
    }
  }

  /** The current provider is kept exactly when it is the pinned one and up, or no usable pin is set and it ranks
      first. */
  lemma KeptExactly(i: SelectionInput)
    requires Distinct(i.providers)
    ensures Decide(i) == Keep <==>
            && i.current.Some?
            && if i.forced.Some? && Shows(i.providers, i.forced.value, Up) then i.current == i.forced
               else RanksFirst(i.providers, i.current.value)
  {
    hide BestHealthy, FirstUnproven, FindByName, Distinct, CompareRank, Shows, RanksFirst;
    FirstIsBest(i.providers, if i.current.Some? then i.current.value else "");
    if i.forced.Some? {
      FoundAs(i.providers, i.forced.value, Up);
    }
  }

  /** A pin that is up is obeyed; any other gives way to the provider that ranks first, and says why. */
  lemma PinnedExactly(i: SelectionInput, to: string)
    requires Distinct(i.providers) && i.forced.Some? && i.current != Some(to)
    ensures Decide(i) == Switch(to, OperatorOverride) <==> to == i.forced.value && Shows(i.providers, to, Up)
    ensures Decide(i) == Switch(to, ForcedUnhealthy) <==>
            HasView(i.providers, i.forced.value) && !Shows(i.providers, i.forced.value, Up) && RanksFirst(i.providers, to)
    ensures Decide(i) == Switch(to, ForcedMissing) <==> !HasView(i.providers, i.forced.value) && RanksFirst(i.providers, to)
  {
    hide BestHealthy, FirstUnproven, FindByName, Distinct, CompareRank, Shows, RanksFirst, HasView;
    FirstIsBest(i.providers, to);
    FoundAs(i.providers, i.forced.value, Up);
  }

  /** Up, better than the current provider, but not for long enough; `stableFor` is how long, in whole seconds. */
  ghost predicate FailbackPending(i: SelectionInput, c: ProviderView, p: ProviderView, stableFor: int) {
    && c in i.providers && c.IsUp() && i.current == Some(c.name)
    && Least(i.providers, p) && p.priority < c.priority && !p.StableFor(i.now, i.failbackStable)
    && stableFor % SECOND == 0
    && (if p.upSince.Some? && i.now >= p.upSince.value then stableFor <= i.now - p.upSince.value < stableFor + SECOND else stableFor == 0)
  }

  /** A failback is announced as pending exactly when it only lacks time. */
  lemma CountdownExactly(i: SelectionInput, candidate: string, stableFor: nat, required: nat)
    requires Distinct(i.providers)
    ensures Decide(i) == WaitingForFailback(candidate, stableFor, required) <==>
            && i.forced.None? && required == i.failbackStable
            && exists c, p :: FailbackPending(i, c, p, stableFor) && p.name == candidate
  {
    hide Decide, FailbackPending, Distinct;
    if Decide(i) == WaitingForFailback(candidate, stableFor, required) {
      WaitIsPending(i);
    }
    if c, p :| i.forced.None? && required == i.failbackStable && FailbackPending(i, c, p, stableFor) && p.name == candidate {
      PendingIsWait(i, c, p, stableFor);
    }
  }

  lemma WholeSeconds(now: int, since: Option<int>, n: int)
    ensures n == ElapsedWholeSeconds(now, since) <==>
            n % SECOND == 0
            && if since.Some? && now >= since.value then n <= now - since.value < n + SECOND else n == 0
  {
    if since.Some? && now >= since.value {
      var span := now - since.value;
      assert span == span / SECOND * SECOND + span % SECOND;
    }
  }

  lemma WaitIsPending(i: SelectionInput)
    requires Distinct(i.providers) && Decide(i).WaitingForFailback?
    ensures var d := Decide(i);
            && i.forced.None? && d.required == i.failbackStable
            && exists c, p :: FailbackPending(i, c, p, d.stableFor) && p.name == d.candidate
  {
    hide Least, CompareRank, ElapsedWholeSeconds, BestHealthy, FirstUnproven;
    BestHealthyIsLeast(i.providers);
    var p := BestHealthy(i.providers).value;
    var c := FindByName(i.providers, i.current.value).value;
    LeastIsUp(i.providers, p);
    WholeSeconds(i.now, p.upSince, Decide(i).stableFor);
    assert FailbackPending(i, c, p, Decide(i).stableFor);
  }

  lemma PendingIsWait(i: SelectionInput, c: ProviderView, p: ProviderView, stableFor: nat)
    requires Distinct(i.providers) && i.forced.None? && FailbackPending(i, c, p, stableFor)
    ensures Decide(i) == WaitingForFailback(p.name, stableFor, i.failbackStable)
  {
    hide Least, CompareRank, ElapsedWholeSeconds, BestHealthy, FirstUnproven;
    LeastIsChosen(i.providers, p);
    LeastIsUp(i.providers, p);
    WholeSeconds(i.now, p.upSince, stableFor);
  }

  // ── no thrashing ──────────────────────────────────────────────────────

  datatype Tick = Tick(now: int, failbackStable: nat)

  function After(current: Option<string>, d: Decision): Option<string> {
    if d.Switch? then Some(d.to) else current
  }

  /** Switches made over a run of ticks while health, recovery times and pin stay as they are. */
  function FrozenSwitches(ps: seq<ProviderView>, forced: Option<string>, current: Option<string>, ticks: seq<Tick>): nat
    decreases |ticks|
  {
    if |ticks| == 0 then 0
    else
      var d := Decide(SelectionInput(ticks[0].now, current, forced, ps, ticks[0].failbackStable));
      (if d.Switch? then 1 else 0) + FrozenSwitches(ps, forced, After(current, d), ticks[1..])
  }

  /** Where a decision just landed, the next one stays, whatever the clock and the window say. */
  lemma {:induction false} SettledStays(i: SelectionInput, ticks: seq<Tick>)
    requires Decide(i).Switch?
    ensures FrozenSwitches(i.providers, i.forced, Some(Decide(i).to), ticks) == 0
  {
    if |ticks| != 0 {
      var to := Decide(i).to;
      var next := SelectionInput(ticks[0].now, Some(to), i.forced, i.providers, ticks[0].failbackStable);
      assert Decide(next) == Keep;
      SettledStays(i, ticks[1..]);
    }
  }

  /** With health, recovery times and pin frozen, a run makes at most one switch. */
  lemma {:induction false} AtMostOneFrozenSwitch(ps: seq<ProviderView>, forced: Option<string>, current: Option<string>, ticks: seq<Tick>)
    ensures FrozenSwitches(ps, forced, current, ticks) <= 1
  {
    if |ticks| != 0 {
      var i := SelectionInput(ticks[0].now, current, forced, ps, ticks[0].failbackStable);
      if Decide(i).Switch? {
        SettledStays(i, ticks[1..]);
      } else {
        AtMostOneFrozenSwitch(ps, forced, current, ticks[1..]);
      }
    }
  }
}
