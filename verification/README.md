# A verified model of the vlb failover daemon

`vlb` keeps a gateway online over several uplinks. It probes each provider through layers of checks,
decides which one carries the default route, writes that route, keeps established connections where
they started, counts traffic per uplink and per client, and keeps its own log quiet. This project
models those parts in Dafny and proves what they promise, over whole runs where the promise is about
runs.

| file | part of the daemon |
|---|---|
| `Selection.dfy`, `FlapTracker.dfy` | the pure decision and the flap damping |
| `HealthMachine.dfy`, `Layers.dfy` | one provider's counters, and the probe layers above them |
| `Router.dfy`, `RouteListing.dfy` | writes to the kernel's main table, and reading it back |
| `Failover.dfy` | the engine as a state machine: probe and reconcile, one step at a time |
| `TwoPhase.dfy` | the same with the lock's grain: snapshots that may be stale, commits, the route watchdog |
| `StaleViews.dfy` | what views older than the last switch do to the failback wait |
| `Balancer.dfy` | the object itself, each method proved to do what the engine says |
| `Pinning.dfy` | the five-rule marking chain, eviction, and the configuration checks behind the marks |
| `Uplinks.dfy` | traffic per uplink, from packet to database row |
| `Clients.dfy`, `ClientLoop.dfy` | traffic and presence sessions per client, and the objects that keep them |
| `Dns.dfy`, `Chunked.dfy` | the DNS query builder and answer walker, the chunked decoder |
| `Version.dfy`, `LogRate.dfy` | version precedence, and the log-rate limiters |
| `Basics.dfy`, `Text.dfy` | shared types, orderings and string operations |

`dafny verify dfyconfig.toml` checks the whole project.

Conventions. Times are integers, in nanoseconds. Commands, sockets and the clock are inputs: a command may
fail, a reply may hold any bytes, the clock never goes back. A hash map's iteration order is arbitrary. The
database is a sequence of rows.

## Where the code and its comments differ

The model follows the code.

- A comment at `src/core/selection.rs:97-98` bounds the rounds to a first verdict. The bound holds exactly when one
  of the two thresholds is one: `HealthMachine.DecidesInTimeExactly`; otherwise there is none at all:
  `HealthMachine.AlternatingNeverDecides`.
- "Continuously" healthy in `README.md:1115` means: no Down verdict since `up_since` (`HealthMachine.UpSinceIsRecovery`).
  That no round has failed since is so exactly when the failure threshold is one:
  `HealthMachine.ContinuouslyPassedExactly`, with `HealthMachine.OneFailureIsTolerated` for every other threshold.
- A window too large for the clock library counts as zero (`src/core/selection.rs:49`, `src/core/selection.rs:323`),
  and validation accepts such windows. A failback waits out its window exactly when the window is representable:
  `Selection.FailbackWaitsExactly`, with `Selection.TooLongIsNoWait` for every longer one; and so for the switches
  counted: `FlapDamping.CountsWindowExactly`.
- The flap buffer is as good as unbounded history only for thresholds up to 240: `FlapDamping.BufferAgreesExactly`.
- Validation tests only the highest mark against the mask. `Pinning.MarksFitExactly` says when every mark then
  fits, `Pinning.MarksApartExactly` the weaker condition under which the mask tells the marks apart, and
  `Pinning.SparseMaskAliases` gives a configuration for which it does not. `Pinning.ProviderEvictionExactly` says
  what an eviction costs in every case.
- The watchdog's test for our own route ignores the metric: `TwoPhase.WatchdogRepairsExactly`.
- Connections are evicted before the chain is re-aimed. `Pinning.EvictionLastsExactly` says when the eviction is
  undone in between, `Pinning.ReaimedEvictionLasts` that in the other order it never is.
- The chain is re-aimed before the route moves, so a switch whose route fails leaves it aimed at a provider that is
  not active, until the next reconcile that keeps or switches: `Failover.AimTracksRun`, `Failover.AimFollowsKeep`.
- Confirming an adopted route spends the adopted flag before the command runs, so a confirmation that fails is not
  tried again by a reconcile, save at an operator's command. `TwoPhase.FailedConfirmationLeavesRival` is such a start.
  `TwoPhase.ConfirmationExactly` says what one confirmation does to the table, and `TwoPhase.RouteMatchesExactly` when
  the table matches after any interleaving. A rival at metric 0 alarms the watchdog, which repairs it.
- A body with a Content-Length that is cut short is not marked truncated: `Chunked.CutIdentityIsTampered`.
- A failed read of client counters comes back as an empty success, so the next read counts everything again,
  where the comment promises to skip: `Clients.FailedReadCountsAgain`. The books balance without that term exactly
  when no such read found a counter worth losing: `Clients.BytesBalanceExactly`.
- Numeric identifiers of a pre-release that 64 bits do not hold are compared as text, not as numbers as the comment at
  `src/core/update.rs:920` says. That comes to the same exactly up to twenty digits: `Versions.NumericIdentifiersExactly`.
- A persist interval above a day and above the grace period can drop pending client bytes:
  `Clients.NothingDroppedExactly`.

## Model

| member | source | states |
|---|---|---|
| Selection.DecideIgnoresOrder | src/core/selection.rs:107-251 | with unique names and priorities the decision is the same for every order in which the provider views are listed |
| Selection.DecisionMeaning | src/core/selection.rs:107-251 | what each decision implies: kept and chosen providers are up in the view, a switch always moves, without a pin it goes to the first-ranking provider, a waiting decision names the first-ranking provider and what keeps it waiting |
| Selection.NobodyHealthyExactly | src/core/selection.rs:107-251 | no provider is named iff nobody is up |
| Selection.KeptExactly | src/core/selection.rs:107-187 | the current provider is kept iff it is the pinned one and up, or no usable pin is set and it ranks first |
| Selection.PinnedExactly | src/core/selection.rs:116-150 | a pin that is up is switched to; one that is not, or names nobody, gives way to the first-ranking provider, each iff and with its own reason |
| Selection.FirstVerdictWaitExactly | src/core/selection.rs:157-183 | a first verdict is waited for iff nobody is pinned, nothing is active, someone is up and a provider without a verdict beats everyone up; it names the best of those |
| Selection.InitialSelectionExactly | src/core/selection.rs:157-183 | a first selection is made iff nobody is pinned, nothing is active, and no provider without a verdict beats everyone up |
| Selection.LeftAtOnceExactly | src/core/selection.rs:191-206 | the current provider is left at once iff nobody is pinned and it is down, or no longer configured |
| Selection.VerdictWaitExactly | src/core/selection.rs:207-221 | an incumbent without a verdict is waited for iff nobody is pinned, it is among the views and someone is up |
| Selection.CountdownExactly | src/core/selection.rs:224-250 | a failback is announced as pending iff only time is lacking, with the whole seconds the better provider has been up |
| Selection.FailbackExactly | src/core/selection.rs:228-250 | a switch is a failback if and only if nobody is pinned, the current provider is up, a better one is up too, and that one has been stable for the window |
| Selection.FailbackWaitsExactly | src/core/selection.rs:44-52 | on every view a failback returns to a provider that has been up for the window, iff the clock library can represent the window |
| Selection.TooLongIsNoWait | src/core/selection.rs:44-52 | with a longer window, a provider that recovered just now is failed back to at once |
| Selection.BestHealthyIsLeast | src/core/selection.rs:256-262 | the choice among providers is the least Up one by (priority, name), and absent only if none is Up |
| Selection.FirstUnprovenIsLeast | src/core/selection.rs:166-178 | the provider a first selection waits for has the best priority among those still Unknown and better than the best Up one |
| Selection.LeastIsChosen | src/core/selection.rs:256-262 | conversely, whoever ranks first among the Up providers is the one chosen |
| Selection.SettledStays | src/core/selection.rs:264-273 | after a switch, no clock and no window makes the next decision on the same views a switch |
| Selection.AtMostOneFrozenSwitch | src/core/selection.rs:107-273 | with health, recovery times and pin frozen, any run over any clock makes at most one switch |
| FlapDamping.FlapTracker.constructor | src/core/selection.rs:294-296 | a new tracker remembers nothing |
| FlapDamping.SortedIsSort | src/core/selection.rs:303-311 | the sort puts the instants in order and neither loses nor adds one |
| FlapDamping.FlapTracker.WithHistory | src/core/selection.rs:303-311 | restored history is sorted (FlapDamping.SortedIsSort) and cut to the newest 256 switches |
| FlapDamping.FlapTracker.RecordSwitch | src/core/selection.rs:313-320 | recording a switch appends it and keeps the newest 256 |
| FlapDamping.FlapTracker.SwitchesInWindow | src/core/selection.rs:322-325 | the loop counts exactly the remembered switches inside the window, an unrepresentable window counting as empty |
| FlapDamping.CountsWindowExactly | src/core/selection.rs:322-325 | the switches counted are those of the window, for every history and clock, iff the clock library can represent it |
| FlapDamping.FlapTracker.EffectiveFailbackNow | src/core/selection.rs:333-347 | the method computes the specified window from the buffer |
| FlapDamping.WindowIsCappedDoubling | src/core/selection.rs:333-347 | the window is min(max, base * 2^min(excess, 16)), overflow included, and never below min(base, max) |
| FlapDamping.WindowInForce | src/core/selection.rs:322-347 | the window in force is min(max, base * 2^min(excess, 16)) where the excess is counted over the switches that lie within the flap window |
| FlapDamping.BackoffDecays | src/core/selection.rs:322-347 | without new switches the window never grows as time passes |
| FlapDamping.DrainKeepsNewest | src/core/selection.rs:313-320 | draining at every push leaves the same entries as draining once at the end |
| FlapDamping.BufferAgrees | src/core/selection.rs:303-347 | for threshold <= 240 the 256-entry buffer gives the window that all switches ever recorded would give |
| FlapDamping.BufferTooShort | src/core/selection.rs:313-347 | for every threshold above 240 a concrete burst makes the buffer's window too short |
| FlapDamping.BufferAgreesExactly | src/core/selection.rs:303-347 | the buffer agrees with unbounded history for every history, clock and setting if and only if threshold <= 240 |
| FlapDamping.RestartKeepsBackoff | src/core/balancer.rs:604-623 | reloading the newest 256 switch times since the window's start gives every later window the value it has without the restart |
| HealthMachine.CountersRefineHistory | src/core/balancer.rs:1469-1526 | Up, Down and Unknown after any rounds, both directions: a block of passes (failures, or a conclusive failure) with no opposite trigger after it |
| HealthMachine.VerdictIsUnique | src/core/balancer.rs:1489-1524 | no history fits two verdicts |
| HealthMachine.UpSinceIsRecovery | src/core/balancer.rs:1489-1524 | up_since is set exactly while Up, to the moment the first pass block after the last Down trigger completed |
| HealthMachine.BlameIsLatestFailure | src/core/balancer.rs:1489-1524 | a provider is shown with the layer of its latest failed round iff it has not come up since |
| HealthMachine.ContinuouslyPassedExactly | README.md:1113-1118 | a provider that is up has passed every round since its recovery, for every history, iff the failure threshold is one |
| HealthMachine.OneFailureIsTolerated | src/core/balancer.rs:1506-1522 | with a higher threshold a failed round right after the recovery leaves the provider up with its up_since |
| HealthMachine.AlternatingNeverDecides | src/core/selection.rs:92-99 | with both thresholds above one, alternating passes and failures never reach a verdict, however many |
| HealthMachine.DecidesInTimeExactly | src/core/selection.rs:92-99 | a first verdict comes within max(success, failure) rounds, as these lines claim, for every history, iff one of the two thresholds is one |
| Layers.TamperIsProofExactly | src/net/canary.rs:173-238 | when one tampered target is conclusive, for each quorum rule, if and only if |
| Layers.RoundIsGoodExactly | src/net/canary.rs:175-210 | a canary round is good iff no target was tampered with and one, more than half, or all of the targets asked verified |
| Layers.CanaryHistory | src/core/balancer.rs:1424-1466 | canary_ok is false iff since the last good round there was proof or at least threshold failed rounds; canary_tampered iff the last round was proof |
| Layers.ThroughputHistory | src/core/balancer.rs:1353-1382 | throughput_ok is false iff the last threshold measurements were all bad |
| Layers.DnsHistory | src/core/balancer.rs:1039-1075 | DNS counts as failing iff the last max(threshold, 1) rounds all went unanswered |
| Layers.CountersFollowAnswers | src/core/balancer.rs:1016-1190 | over any run the DNS, canary and throughput counters are those of the rounds' own answers: the rounds that asked, the canaries that ran, the measurements that were due |
| Layers.DnsFailsExactly | src/core/balancer.rs:1039-1075 | after any run DNS is failing iff the last max(threshold, 1) rounds all asked over a working link and got no answer |
| Layers.CanaryFailsExactly | src/core/balancer.rs:1424-1466 | after any run, the canary flags told on the reports of the rounds in which a canary ran |
| Layers.ThrottledExactly | src/core/balancer.rs:1108-1165 | after any run the link is throttled iff the last threshold of the measurements that were due was too slow |
| Layers.PassedExactly | src/core/balancer.rs:1080-1190 | each round of a run passed iff every layer was good at the end of it |
| Layers.SilentDnsTakesDown | src/core/balancer.rs:1039-1526 | max(dns threshold, 1) + failure - 1 rounds in a row without an answer over a working link leave the provider Down, whatever else holds |
| Layers.BlamesFirstBadLayer | src/core/balancer.rs:1080-1190 | a round blames a layer iff it is bad and none before it in the order of causes is |
| Layers.OnlyProofIsConclusive | src/core/balancer.rs:110-125 | with a failure threshold above one, one bad round takes a passing provider down iff it is a lying answer or tampered content over a link whose gateway, internet and DNS work |
| Layers.SuccessMeansEveryLayer | src/core/balancer.rs:1080-1190 | a round is reported as a success iff every layer is good at its end |
| Layers.ProofTakesDownAtOnce | src/core/balancer.rs:1080-1190 | after any run, a conclusive canary round with clean earlier layers takes the provider Down in the same turn, with the right blame |
| Layers.NeverUpWhileTampered | src/core/balancer.rs:1506-1522 | no provider becomes Up in a turn that ends with canary_tampered set |
| Layers.TamperedStaysOut | src/core/balancer.rs:1424-1526 | until a canary round that is not proof, a tampered provider stays out of Up, whatever the other layers say |
| Routing.Router.constructor | src/net/router.rs:29-34 | a router starts with the flag that says whether this process put the startup route in |
| Routing.Router.SetDefaultRoute | src/net/router.rs:50-85 | the method does to the table what the installation function says, failed commands included; in a dry run nothing |
| Routing.Router.RemoveCompetingDefaults | src/net/router.rs:97-151 | the loop deletes the rivals of a listing taken beforehand, one by one, each delete possibly failing |
| Routing.InstallSettles | src/net/router.rs:50-151 | after an installation whose commands succeed, whatever was in the table and wherever the kernel put the entry, every metric-0 default with a next hop leads to the provider and at least one exists |
| Routing.InstallSettlesExactly | src/net/router.rs:50-151 | once the entry is in, however the listing and the deletes fare: the default has one owner iff no metric-0 default led elsewhere, or the listing could be read and no delete of one of those failed |
| Routing.RemovalSettles | src/net/router.rs:97-151 | the delete loop alone already settles the table, its deletes by description included |
| Routing.OwnEntryCanBeDeleted | src/net/router.rs:97-151 | a delete without a proto can take our own entry; the look-alike is then what is left |
| Routing.BootstrapIsNotAtStake | src/net/router.rs:164-185 | dropping the startup route never changes who owns the metric-0 default |
| Routing.InstallSparesOthers | src/net/router.rs:50-185 | however its commands fare an installation leaves every entry at another metric where it was, save this process's own startup route, which it drops once |
| Routing.PreferredIsLeast | src/net/router.rs:382-384 | the preferred route is the first of least metric, absent only in an empty listing |
| Routing.PreferredAtZero | src/core/balancer.rs:539-543 | it is at metric 0 iff the table has a metric-0 default with a next hop, and then it is the first of those |
| Routing.ReplaceDisplaces | src/net/router.rs:36-60 | replacing a default displaces the entries with its metric and proto, and those only |
| RouteListing.ParseAllDefaults | src/net/router.rs:387-434 | the token loop over each line computes the clause function, later clauses and missing operands included |
| RouteListing.PrintedReadsBack | src/net/router.rs:387-434 | a printed default is read back as itself whatever clauses are added and even if an interface is named like a keyword; one without a next hop is passed over |
| RouteListing.ListingIsFaithful | src/net/router.rs:372-434 | parsing what the kernel prints of any table gives exactly the listing the routing model uses, in table order |
| RouteListing.AddressRoundTrip | src/net/router.rs:400-404 | every 32-bit address, printed as a dotted quad, parses back to itself |
| RouteListing.OnlyDottedQuads | src/net/router.rs:400-404 | and nothing but its dotted quad parses to it |
| Failover.CommitIgnoresOrder | src/core/balancer.rs:1594-1626 | a reconcile does not depend on the order of the views it took |
| Failover.DecisionPicksUp | src/core/balancer.rs:1583-1626 | on live state, whoever is kept or switched to is Up, and without a pin nothing Up outranks the target |
| Failover.PinIsObeyed | src/core/selection.rs:116-121 | an Up pin is kept if active and switched to if not |
| Failover.ReconcileIsSafe | src/core/balancer.rs:1577-1838 | after a reconcile whose commands succeed: if anything is Up the active provider is Up, or is the adopted incumbent still Unknown, or nothing is active and a better provider is still Unknown; an Up pin is active |
| Failover.EveryStepIsSafe | src/core/balancer.rs:1577-1838 | the same after every reconciling step of every run |
| Failover.LeftForCauseExactly | src/core/balancer.rs:1577-1838 | after any run, nobody pinned, a step leaves the active provider iff its route can be moved and it is down while another is up, or a better one has been up for the window; so one without a verdict is never left |
| Failover.PinIsLatestCommand | src/core/balancer.rs:2322-2389 | the pin in force is that of the latest accepted command |
| Failover.PinnedIsActive | src/core/balancer.rs:2322-2389 | from the command that pins a provider until the next, it is active after every probe at whose end it is up |
| Failover.ProviderFollowsRounds | src/core/balancer.rs:1236-1242 | over any run a provider's state is that of its own rounds alone |
| Failover.StartKeepsInv | src/core/balancer.rs:531-623 | the state after start-up, over any table, pin and history, has the engine's invariant |
| Failover.AdoptExactly | src/core/balancer.rs:543-570 | a start adopts a provider iff the first metric-0 default with a next hop in the table is its own, and it is the first such in the configuration |
| Failover.OwnRouteIsAdopted | src/core/balancer.rs:532-570 | a table in which the active provider's route is settled makes the next start adopt that provider, whatever other metrics hold |
| Failover.StoredPinIsObeyed | src/core/balancer.rs:581-590 | a stored pin that is configured is in force from the start until the next command, and its provider is active whenever it is up |
| Failover.UnknownPinIsForgotten | src/core/balancer.rs:591-598 | a stored pin that is not configured is in force nowhere |
| Failover.RunKeepsInv | src/core/balancer.rs:1577-1844 | every run of probes, reconciles and operator commands keeps the engine's invariant |
| Failover.OwnedMeansSeenUp | src/core/balancer.rs:1687-1838 | once the active provider no longer counts as adopted, this process has seen it Up |
| Failover.FailbackMeaning | src/core/selection.rs:228-250 | a failback leaves for a better provider that has been Up for the window then in force |
| Failover.FailbackAtExactly | src/core/selection.rs:224-250 | on the engine's state a failback is decided iff nobody is pinned, the active provider is up, and a better one that nothing up outranks has been up for the window |
| Failover.CountdownShown | src/core/balancer.rs:1628-1646 | the countdown on show after a reconcile is that of a return that only lacks time, iff there is one |
| Failover.FailbacksAreSpaced | src/core/balancer.rs:1834-1844 | in every pin-free run two failbacks to one provider are at least the later one's window apart |
| Failover.FailbacksTakeTime | src/core/balancer.rs:1834-1844 | n failbacks to one provider take at least (n - 1) * min(base, max) |
| Failover.FailbacksAreFew | src/core/selection.rs:333-347 | so a run makes at most 1 + T / min(base, max) of them in time T |
| Failover.SelectedAreSince | src/obs/stats.rs:459-484 | the rows the query selects (a provider left, another taken, since the cutoff) are the switches of that time, in order |
| Failover.FlapFollowsRecords | src/core/balancer.rs:1827-1844 | over any run the tracker holds the newest 256 of what it started with and the switches recorded; initial installs and watchdog re-installs are not among them |
| Failover.WindowCountsEverySwitch | src/core/balancer.rs:604-623 | after a start over stored rows and any run on a forward clock, the failback window in force is the one that all switches ever recorded, before the start and since, would give |
| Failover.AimMatchesExactly | src/core/balancer.rs:1680-1801 | after a reconcile that kept or switched, new connections are pinned to the active provider iff it was not a switch whose route failed |
| Failover.AimTracksRun | src/core/balancer.rs:1680-1801 | over any run new connections are pinned elsewhere than the active provider iff the latest keep or switch was a switch whose route failed, or there has been none and a route was adopted |
| Failover.AimFollowsKeep | src/core/balancer.rs:1680-1685 | after any run, a reconcile that keeps what is active pins new connections to it again |
| Failover.UnpinnedNeverAims | src/core/balancer.rs:2199-2203 | without connection pinning no run aims the chain |
| TwoPhase.CommitPicksFromView | src/core/balancer.rs:1578-1626 | a commit on a snapshot, however stale, keeps or chooses a provider that was Up in that snapshot |
| TwoPhase.MoveAddsFittingRow | src/core/balancer.rs:1827-1844 | each move adds no row, or one that starts at the active provider and, for a switch, names a provider Up in the snapshot taken |
| TwoPhase.HistoryIsChain | src/core/balancer.rs:1827-1834 | under every interleaving of probes, snapshots, commits, pins and watchdog ticks each record's from is the previous record's to |
| TwoPhase.CommitMatchesExactly | src/core/balancer.rs:1687-1838 | a commit on any snapshot leaves a matching table iff it found one or installed a route: a switch, a confirmation of an adopted provider, or else a re-assertion, whose command worked |
| TwoPhase.TickMatchesExactly | src/core/balancer.rs:1910-1998 | a watchdog tick does iff it found one or was alarmed and its command worked |
| TwoPhase.RouteMatchesExactly | src/core/balancer.rs:1617-1998 | after every undisturbed interleaving the table matches while the lock is free iff it matched at first or some move has installed a route since |
| TwoPhase.RouteStaysMatched | src/core/balancer.rs:1617-1838 | so from the moment the table matches, no interleaving makes it differ while the lock is free, unless something outside disturbs it |
| TwoPhase.OwnedRouteIsInstalled | src/core/balancer.rs:1617-1838 | from a start over any table, after every interleaving: the table has the active provider's route and no other at metric 0 iff it did at the start or a route has been installed since; once the active provider is this process's own choice it has, unless a confirmation failed |
| TwoPhase.ConfirmationExactly | src/core/balancer.rs:1687-1728 | confirming an adopted provider always spends the adopted flag, and leaves a matching table iff there was one or its command worked |
| TwoPhase.FailedConfirmationLeavesRival | src/core/balancer.rs:1687-1695 | a start over our route and a rival, a healthy provider and a failing confirmation: the daemon counts the route as its own while the rival is there, and the next successful watchdog tick repairs it |
| TwoPhase.CommitMakesMatch | src/core/balancer.rs:1687-1838 | every commit that installs, successfully, makes the table match whatever was in it |
| TwoPhase.AlarmExactly | src/core/balancer.rs:1930-1950 | the watchdog raises an alarm iff no entry leads our way or some metric-0 one leads elsewhere |
| TwoPhase.WatchdogRepairsExactly | src/core/balancer.rs:1910-1998 | after a successful tick the table matches iff it was not the one kind the watchdog overlooks: our route at another metric and no metric-0 default with a next hop |
| StaleViews.StaleViewFailsBackAtOnce | src/core/balancer.rs:1577-1626 | two tasks that read the same views can fail back to one provider twice on one reading of the clock, although it died in between |
| StaleViews.FreshFailbacksAreSpaced | src/core/balancer.rs:1577-1844 | over every pin-free interleaving whose switches act on views read since the switch before, two failbacks to one provider are at least the later one's window apart |
| Balancing.Balancer.constructor | src/core/balancer.rs:520-623 | start-up from the main table, the stored pin and the stored rows: adoption of the installed metric-0 default, the pin restored only if its provider is configured and forgotten otherwise, the newest 256 real switches of the window restored |
| Balancing.Balancer.RunCanaryRound | src/core/balancer.rs:1424-1466 | the in-place update equals the canary specification and touches one provider |
| Balancing.Balancer.RunThroughputRound | src/core/balancer.rs:1353-1382 | the in-place update equals the throughput specification |
| Balancing.Balancer.CountDnsRound | src/core/balancer.rs:1039-1075 | the in-place count and the failing flag equal the DNS specification |
| Balancing.Balancer.ApplyProbeResult | src/core/balancer.rs:1469-1526 | the in-place counters equal the health machine's step |
| Balancing.Balancer.ProbeSlowLayers | src/core/balancer.rs:1016-1075 | the canary when it is due and the DNS count leave the layer state the roll-up starts from |
| Balancing.Balancer.ReachabilityLayer | src/core/balancer.rs:1080-1135 | the if-chain yields the specified first failing layer |
| Balancing.Balancer.ProbeLayers | src/core/balancer.rs:1016-1190 | the layer-by-layer probing equals the roll-up: same gating, same first failing layer |
| Balancing.Balancer.HealthTick | src/core/balancer.rs:1016-1237 | one turn of a health loop is one probe step of the engine |
| Balancing.Balancer.ReadViews | src/core/balancer.rs:1594-1609 | the views come out in an arbitrary order and are the engine's views |
| Balancing.Balancer.ReadSnapshot | src/core/balancer.rs:1578-1609 | what is read before the lock is the engine's snapshot up to view order |
| Balancing.Balancer.Repin | src/core/balancer.rs:2199-2211 | the chain is aimed at the provider, or stays as it was if it cannot be replaced or pinning is off |
| Balancing.Balancer.ConfirmActive | src/core/balancer.rs:1680-1728 | confirming what is active is the engine's keep: re-aim, spend the adopted flag, install if adopted, re-assert if asked |
| Balancing.Balancer.MoveRoute | src/core/balancer.rs:1796-1801 | the chain first, then the route; a failed route leaves the chain aimed at the target |
| Balancing.Balancer.SwitchTo | src/core/balancer.rs:1773-1844 | a switch is the engine's: move, record, take over, and count as a flap only if something was left |
| Balancing.Balancer.CommitSnapshot | src/core/balancer.rs:1617-1844 | what is done under the lock, on any snapshot, is the engine's commit, re-aiming the pin chain before the route and early returns on failed installs included |
| Balancing.Balancer.ReconcileActive | src/core/balancer.rs:1564-1626 | a whole reconcile is the engine's reconcile |
| Balancing.Balancer.ProbeAndReconcile | src/core/balancer.rs:1236-1242 | probe, then reconcile: one event of a sequential run |
| Balancing.Balancer.ForceTo | src/core/balancer.rs:2322-2374 | pinning a provider is the engine's step, and stores the pin for the next process; an unknown name does neither |
| Balancing.Balancer.ReleaseForce | src/core/balancer.rs:2376-2389 | releasing the pin is the engine's step, and deletes the stored pin |
| Balancing.Balancer.CheckListing | src/core/balancer.rs:1930-1950 | the loop over the defaults raises the specified alarm |
| Balancing.Balancer.WatchRoute | src/core/balancer.rs:1910-1998 | one watchdog tick is the specified tick |
| LogRate.FailureLog.constructor | src/obs/repeat.rs:36-57 | a new log has no layers |
| LogRate.FailureLog.Failed | src/obs/repeat.rs:58-89 | the in-place update of one layer's entry and the returned line equal the specification |
| LogRate.LogTracksRun | src/obs/repeat.rs:58-89 | what is remembered of a layer is its last line, the failures since it, and the latest failure |
| LogRate.LoudLineMeaning | src/obs/repeat.rs:58-89 | a line is more than a repetition iff the last such line is fifteen minutes old; a summary counts exactly the failed rounds since then |
| LogRate.WhichLineExactly | src/obs/repeat.rs:71-84 | a new report iff the layer has not failed for fifteen minutes; a summary iff it has, and the last loud line is fifteen minutes old |
| LogRate.LoudLinesAreSpaced | src/obs/repeat.rs:58-89 | any two such lines of one layer are at least fifteen minutes apart |
| LogRate.LoudLinesAreFew | src/obs/repeat.rs:58-89 | hence at most 1 + T / 900 s of them in a run of length T |
| LogRate.OutageLog.ObserveRound | src/obs/repeat.rs:116-145 | the in-place update and the returned line equal the specification |
| LogRate.OutageTracksRounds | src/obs/repeat.rs:116-145 | what is remembered of an outage is where its streak began and its latest line |
| LogRate.OutageLinesAlternate | src/obs/repeat.rs:116-145 | Started and Ended come exactly at the edges, so they alternate, with the true duration; reminders are fifteen minutes apart |
| Versions.ComparePrereleaseLoop | src/core/update.rs:920-944 | the loop over two identifier iterators computes the lexicographic comparison |
| Versions.NewerIsAsymmetric | src/core/update.rs:948-953 | is_newer never holds of a version and itself, nor both ways |
| Versions.NewerIsTransitive | src/core/update.rs:901-953 | is_newer is transitive, and so is its absence among versions that parse: a strict weak order |
| Versions.NumbersDecide | src/core/update.rs:901-908 | between printed versions with different numbers the newer is larger in the first of major, minor and patch that differs (section 11 of Semantic Versioning 2.0.0) |
| Versions.IdentifiersDecide | src/core/update.rs:920-944 | with equal numbers, two printed tags of plain identifiers compare at the first place where they differ: numbers by value, a number below a text, texts by character, the longer tag above its own beginning |
| Versions.NumericIdentifiersExactly | src/core/update.rs:920-944 | numeric identifiers up to a limit compare as numbers iff the limit has at most twenty digits |
| Versions.ShortForms | src/core/update.rs:862-882 | a leading v or V changes nothing, and missing numbers are zero |
| Versions.MalformedIsNeverNewer | src/core/update.rs:946-953 | a text that does not begin with a number, white space and leading v aside, is no version, and with one on either side nothing is newer |
| Versions.ReleaseIsNewerExactly | src/core/update.rs:901-918 | a printed release is newer than a printed pre-release of it (section 11 of Semantic Versioning 2.0.0) iff something is left of the tag once it is read back, and never the other way around |
| Versions.ParseDisplay | src/core/update.rs:862-893 | parsing a printed version gives it back with its tag cleaned |
| Versions.RoundTripExactly | src/core/update.rs:862-893 | and gives it back unchanged iff the tag holds no plus sign and does not end in white space |
| Chunked.FindFromIsFirst | src/net/http.rs:513-518 | the search finds the first occurrence, or there is none |
| Chunked.DechunkLoop | src/net/http.rs:479-511 | the decoding loop equals the specification, errors and truncation included |
| Chunked.LineEnds | src/net/http.rs:479-511 | in any byte prefix a size line is found exactly when its CRLF has arrived |
| Chunked.CutDecodes | src/net/http.rs:479-511 | for all chunks (section 7.1 of RFC 9112) and every byte prefix: no error, a prefix of the joined data, complete only if all of it came; a whole encoding below the cap decodes exactly |
| Chunked.HexIsSizeLine | src/net/http.rs:487-491 | plain hexadecimal is a valid size line for every 64-bit length |
| Chunked.ExtendedIsSizeLine | src/net/http.rs:487-491 | so is hexadecimal followed by white space and an extension (section 7.1.1 of RFC 9112) |
| Chunked.NotHexIsMalformed | src/net/http.rs:487-492 | a line that does not begin with a number makes the reply malformed, which is judged unreachable |
| Chunked.PlainBodyExactly | src/net/http.rs:446-467 | a body that is not chunked is what came, up to its length and the cap, and truncated iff it reaches the cap |
| Chunked.MarkerExactly | src/net/canary.rs:534-546 | a marker is accepted iff it occurs somewhere in the body |
| Chunked.PortalIsTampered | src/net/canary.rs:434-486 | a redirect, a 511, or a status that is neither the one wanted nor an error is tampering whatever the body; an error that was not wanted is no evidence |
| Chunked.WantedIsJudged | src/net/canary.rs:488-548 | with the wanted status: verified iff the body is acceptable and whole, tampered iff whole and not acceptable, else no evidence |
| Chunked.CutChunkedIsNotTampered | src/net/canary.rs:492-548 | a genuine chunked reply cut anywhere is never judged as wrong content, and is verified when whole and below the cap |
| Chunked.CutIdentityIsTampered | src/net/http.rs:441-463 | for an exact body, a marker or a digest alike: a body sent with a length and cut short is judged as tampered iff the cut is below the cap and what is left is not itself acceptable |
| Chunked.CutExactIsTampered | src/net/http.rs:441-463 | for an exact body that is every cut below the cap |
| Dns.BuildDnsQuery | src/net/health.rs:331-351 | the buffer pushed byte by byte is header plus question |
| Dns.QueryRoundTrip | src/net/health.rs:331-351 | the name in the query decodes to its labels, each cut to its first 63 octets, the question is exactly what follows the 12-octet header, and the header asks one question with recursion desired (sections 4.1.1 and 4.1.2 of RFC 1035) |
| Dns.LabelsExactly | src/net/health.rs:343-348 | the labels of a dotted name are what stands between its dots, with or without one at the end |
| Dns.SkipName | src/net/health.rs:716-737 | the inner loop over an owner name equals the specification and stays in bounds on any bytes |
| Dns.DnsExtractFirstA | src/net/health.rs:695-760 | the walk equals the specification, stays in bounds and ends, on any bytes |
| Dns.PointerBits | src/net/health.rs:719-731 | the two-bit test for a compression pointer (section 4.1.4 of RFC 1035) is a comparison with 192 |
| Dns.ReplyOkExactly | src/net/health.rs:357-372 | a reply is considered iff, octet by octet, the id matches, the response bit is set, the code is zero and it counts answers |
| Dns.FlagBits | src/net/health.rs:366-369 | the masks on the flags are those tests |
| Dns.OtherRepliesAreRefused | src/net/health.rs:695-705 | a reply to another query, a query, an error, one without answers or too short yields no address whatever follows |
| Dns.WalkFindsFirst | src/net/health.rs:706-760 | over any encoded records the walk yields the first A/IN/4-byte record's data, else nothing |
| Dns.AnswerFound | src/net/health.rs:672-760 | on any reply to the query just built, with labels or compression pointers, the extraction is exactly that |
| Pinning.TraverseOnce | src/net/pin.rs:129-139 | what the five rules do to the marks of one packet and its connection, in closed form |
| Pinning.PacketMeaning | src/net/pin.rs:129-139 | for every active mark and mask: replies are untouched, a stamped connection's packets carry its stamp, an unstamped one is stamped with what the mask leaves of the active mark, and outside the mask the connection never changes and the packet only if the mark does not fit |
| Pinning.ChainKeepsToMaskExactly | src/net/pin.rs:129-139 | the chain leaves every bit outside the mask alone on all traffic iff the active mark fits the mask |
| Pinning.StampStays | src/net/pin.rs:129-139 | no event but forgetting the connection changes its stamp |
| Pinning.PinnedForLife | src/net/pin.rs:119-179 | over every interleaving of packets, accepted or rejected re-aims, evictions and expiries a stamp is written once, and every later original packet carries it, its own bits outside the mask kept |
| Pinning.FirstPacketStamps | src/net/pin.rs:129-139 | the first original packet stamps its connection with what the mask leaves of the mark the chain was last aimed at |
| Pinning.EvictionCostsExactly | src/net/router.rs:254-264 | over any run that does not forget it, evicting a mark costs a connection stamped by the chain iff the mask leaves exactly that mark of the one it was stamped with |
| Pinning.EvictionLastsExactly | src/core/balancer.rs:1552-1556 | after an eviction, before the re-aim, whatever packets, expiries, other evictions and rejected re-aims come: some connection carries the dead mark again iff the mark fits the mask and a connection without a stamp sent an original packet and was not forgotten since |
| Pinning.ReaimedEvictionLasts | src/net/router.rs:254-264 | in the other order, re-aim first, nothing carries the evicted mark until the chain is aimed at it again, over every interleaving |
| Pinning.UniquenessCheckExactly | src/core/config.rs:944-950 | sort, dedup and compare lengths accepts iff all priorities differ |
| Pinning.WordMeaning | src/core/config.rs:1125-1131 | the mask test on 32-bit words is the digit test on numbers, and distinct numbers are distinct words |
| Pinning.MarksFitExactly | src/core/config.rs:1121-1131 | given the check of the highest mark, every mark of the range fits the mask iff the mask covers the digits in which the lowest and highest mark differ and all below |
| Pinning.ContiguousMaskSuffices | src/core/config.rs:1121-1131 | a mask of the form 2^k - 1 always meets that condition |
| Pinning.NumbersInRange | src/core/config.rs:1571-1590 | under validation no provider's mark, table or preference leaves 32 bits, tables avoid 0 and 253-255, preferences lie in 100..32765, the highest mark fits the mask and the lowest is not masked away |
| Pinning.MaskedMeaning | src/core/config.rs:1125-1131 | what the mask leaves of 32-bit words agrees with the same on binary digits, so words are the same to the mask exactly when the numbers are |
| Pinning.RangeApartExactly | src/core/config.rs:1125-1131 | a mask that the highest number fits tells all numbers of a range apart iff, from the lowest digit up and as far as both ends differ, it has every digit, save perhaps where the ends become neighbours |
| Pinning.MarksApartExactly | src/core/config.rs:1121-1131 | given validation, which checks the highest mark only, the mask tells every two marks of the range apart iff it meets that condition |
| Pinning.CoveringMaskSuffices | src/core/config.rs:1121-1131 | a mask that all marks fit tells them apart |
| Pinning.ProvidersStayApart | src/core/config.rs:1082-1149 | validated providers have distinct tables and rule preferences; under a mask that tells the marks apart (Pinning.Apart) their marks differ as far as the mask goes and none is masked away |
| Pinning.ProviderEvictionExactly | src/core/balancer.rs:2220-2233 | evicting provider j costs a connection stamped for provider i iff the mask leaves exactly j's mark of i's; a provider's own connections iff its mark fits; under a mask that tells the marks apart never another's |
| Pinning.SparseMaskAliases | src/core/config.rs:1125-1131 | a mask that does not tell them apart passes validation, and two of its three providers share their masked mark |
| Uplinks.Delta | src/net/traffic.rs:85-92 | a difference exists iff no counter went backwards, and added to the old reading gives the new one |
| Uplinks.BuildRules | src/net/uplinks.rs:48-66 | the nested loops build one pair of rules per mark, then the unmarked pair |
| Uplinks.OneCounterPerPacket | src/net/uplinks.rs:48-66 | every packet is counted by exactly one rule, its first match, in its own direction and under its own key |
| Uplinks.KeyMeaning | src/net/uplinks.rs:48-66 | that key is the mark the connection carries, else unmarked |
| Uplinks.PinnedTrafficIsCredited | src/net/uplinks.rs:24-31 | from its stamp until it is forgotten, every packet of a pinned connection is counted for the uplink it was stamped with, whatever happens to the chain |
| Uplinks.Parse | src/net/uplinks.rs:130-181 | the loop over saved rules equals the entry-by-entry specification |
| Uplinks.ListingReadsBack | src/net/uplinks.rs:130-181 | parsing the listed chain gives the kernel's tallies back, replies as download and originals as upload |
| Uplinks.Attribute | src/net/uplinks.rs:189-212 | whatever the map order, each mark gets its own growth plus the unmarked growth if active; a counter that went back is skipped |
| Uplinks.TrafficRows | src/core/balancer.rs:459-491 | the loops write the specified rows, with and without per-uplink counters |
| Uplinks.InterfaceCreditedOnce | src/core/balancer.rs:474-490 | without per-uplink counters each interface in use is credited exactly once, however many providers share it |
| Uplinks.RowNamesSoleUser | src/core/balancer.rs:474-490 | a row carries a provider's name iff the interface is that provider's alone |
| Uplinks.TrafficLoop.constructor | src/core/balancer.rs:2971-3035 | the loop starts without a baseline |
| Uplinks.TrafficLoop.Tick | src/core/balancer.rs:3052-3138 | one tick updates baselines, counters, flag and rows as specified, failed and first readings included |
| Uplinks.TrafficLoop.SampleInterfaces | src/core/balancer.rs:3052-3076 | interface differences are computed once per interface, in any order |
| Uplinks.RowIsItsShare | src/net/uplinks.rs:189-212 | each row is its uplink's own growth, plus the unmarked growth for the active uplink |
| Uplinks.UplinkRowsExactly | src/core/balancer.rs:3081-3138 | a tick with a baseline and a good reading writes one row per uplink in order: its name, its interface, its own growth, plus the unmarked growth iff it is the active one |
| Uplinks.BaselineWritesNothing | src/core/balancer.rs:3098-3133 | the first good reading after a start or a failed one writes nothing |
| Uplinks.FallbackRowsExactly | src/core/balancer.rs:3052-3138 | a tick that cannot tell uplinks apart credits each watched interface with its growth since it was last seen, and starts the baseline over |
| Uplinks.IntervalConserved | src/core/balancer.rs:3081-3138 | one interval's rows plus what nobody was active to receive is the growth of all counters |
| Uplinks.TrafficConserved | src/core/balancer.rs:3081-3138 | over any interleaving of packets, good samples and samples that found the chain gone, everything forwarded is in exactly one place: a row, unmarked and read while nothing was active, covered only by a baseline after a start or a lost chain, or not yet read |
| Uplinks.NothingLostWhileActive | src/core/balancer.rs:3081-3138 | with every sample good and a configured provider active at each, the rows at a sample are exactly the traffic forwarded since the first |
| Uplinks.InterfaceConserved | src/core/balancer.rs:3052-3138 | without per-uplink counters an interface's rows add up to its own growth over any run, gaps included |
| Clients.TickStaysInStep | src/core/balancer.rs:2638-2760 | one tick keeps sessions and live state in step |
| Clients.PresenceExactly | src/core/balancer.rs:2635-2731 | one tick: online iff seen now or within the grace period; coming online opens a session now, going offline ends the open one when last seen; forgotten iff gone for more than a day |
| Clients.SeenExactly | src/net/clients.rs:346-362 | a round sees a client iff an entry of it is reachable or its counters moved |
| Clients.RowExactly | src/core/balancer.rs:2710-2728 | a tick writes a row iff the bucket is old enough and not empty; then all of it goes |
| Clients.SessionsStaySeparate | src/core/balancer.rs:2474-2760 | in every run, restarts included, sessions are ordered and disjoint, only the last may be open and only while the client is online, each ends no earlier than it began, and every gap exceeds offline_after_secs |
| Clients.NewClientStaysSeparate | src/core/balancer.rs:2474-2760 | so it is for a client the database has never seen, from any clock on |
| Clients.OpenSession | src/obs/stats.rs:616-628 | of the sessions left open, the latest is the one taken up; none only if all have ended |
| Clients.OpenSessionIsLast | src/core/balancer.rs:2474-2507 | the session a restart resumes is the last one, if it is open |
| Clients.PruningKeepsSeparate | src/obs/stats.rs:762-777 | pruning old sessions keeps their order and gaps |
| Clients.PrunedExactly | src/obs/stats.rs:762-777 | a session is kept iff it is open or ended no earlier than the cutoff |
| Clients.TickHolds | src/core/balancer.rs:2667-2731 | a tick moves sighted bytes into the bucket, and the bucket whole into a row or out with the forgotten client |
| Clients.ReadHolds | src/net/clients.rs:346-362 | a round's read splits what the kernel counted into sighted and still unread bytes; a failed read puts the last reading back |
| Clients.ClientBytesAccounted | src/core/balancer.rs:2667-2785 | over every run of a process, absences, failed reads, flushes and forgetting included: counted + recounted = rows + pending + unread + removed unread + dropped |
| Clients.AdoptionIsBaseline | src/net/clients.rs:256-277 | the counters found at start are the baseline: nothing before it is credited |
| Clients.FailedReadCountsAgain | src/net/clients.rs:473-490 | a failed read, which comes back empty, makes the next good read sight everything once more |
| Clients.CountedOnceExactly | src/net/clients.rs:346-362 | over every run nothing is counted twice iff every failed read that reported the client found no baseline, or one of zero |
| Clients.BytesBalanceExactly | src/core/balancer.rs:2667-2785 | from an adopted baseline the kernel's growth is exactly rows, pending, unread, removed and dropped bytes iff no failed read found a counter worth losing |
| Clients.NothingDropped | src/core/balancer.rs:2696-2731 | if the persist interval is in time, no run drops pending bytes with a forgotten client |
| Clients.NothingDroppedExactly | src/core/balancer.rs:2696-2731 | no run ever drops pending bytes iff persist_every_secs is at most the longer of a day and offline_after_secs |
| ClientLoop.ClientMonitor.constructor | src/net/clients.rs:231-242 | a new monitor knows no rules and no counters |
| ClientLoop.ClientMonitor.Adopt | src/net/clients.rs:256-277 | the first round takes existing rules and their counters as baseline |
| ClientLoop.ClientMonitor.InstallRules | src/net/clients.rs:291-321 | rules go in for untracked, unrefused candidates only, at most eight a tick and never beyond the ceiling, and all of them when neither limit binds |
| ClientLoop.ClientMonitor.ReadOff | src/net/clients.rs:346-362 | per client, duplicates of an address included, the observations and the new baseline are the specified ones |
| ClientLoop.ClientMonitor.Sample | src/net/clients.rs:252-367 | one round does to every client's line what the ledger says |
| ClientLoop.ClientMonitor.Forget | src/net/clients.rs:370-400 | forgetting removes one client's rules and baseline and no other's |
| ClientLoop.ClientAccounts.constructor | src/core/balancer.rs:2474-2507 | a new process resumes every open session and nothing else |
| ClientLoop.ClientAccounts.FoldIn | src/core/balancer.rs:2635-2691 | observations folded into the live table in order; a client joins iff it came online in this tick |
| ClientLoop.ClientAccounts.SweepAll | src/core/balancer.rs:2696-2731 | whatever the map order, each client goes offline, is flushed and is forgotten as specified |
| ClientLoop.ClientAccounts.WriteBack | src/core/balancer.rs:2746-2779 | closes, then opens, then flushes, to the rows of each client |
| ClientLoop.ClientAccounts.Tick | src/core/balancer.rs:2632-2779 | one tick is, for every client at once, the one-client tick |
| ClientLoop.ClientAccounts.RunRound | src/core/balancer.rs:2565-2782 | sampling, tick and forgetting together move every client's ledger by one entry |
| ClientLoop.ClientAccounts.FlushBuckets | src/core/balancer.rs:2946-2968 | the shutdown flush turns every non-empty bucket into a row |

## Left out

- Failover.EveryStepIsSafe: requires the installs of the step to succeed; a failed install keeps the previous provider, as `Balancing.Balancer.MoveRoute` and `Balancing.Balancer.CommitSnapshot` have it.
- Failover.FailbacksAreSpaced: sequential runs without operator pins, because a pin switches without waiting by design; interleaved runs are the subject of `StaleViews`.
- StaleViews.FreshFailbacksAreSpaced: one way only; that a switch on older views may keep the distance all the same is not characterised.
- Failover.FailbacksAreFew: the cap on the window must be representable as a clock duration and the shortest window positive.
- TwoPhase.RouteMatchesExactly: assumes that nothing outside writes the table and no install half-fails; `TwoPhase.WatchdogRepairsExactly` covers what happens when something does.
- Failover.WindowCountsEverySwitch: needs threshold <= 240, a representable window, stored rows in time order and a clock that goes forward; database writes succeed.
- Failover.AimMatchesExactly: the batch that re-aims the chain is accepted, here and in `Failover.AimTracksRun`; a rejected one leaves the previous aim, as `Balancing.Balancer.Repin` has it.
- Balancing.Balancer.constructor: does not model a start with a flap window the clock library cannot represent; the conversion there differs from the one in `src/core/selection.rs`.
- Pinning.MarksApartExactly: stated for all marks from the lowest to the highest, not for the gaps of one list of priorities.
- FlapDamping.RestartKeepsBackoff: needs threshold <= 240 (see `FlapDamping.BufferAgreesExactly`) and a representable window.
- Uplinks.TrafficConserved: a chain that vanished is noticed by a failed reading; counters reset between two good readings are `Uplinks.Attribute`'s case.
- Clients.ClientBytesAccounted: the rules of one client go in and come out as a pair, and the counter read at start succeeds; a half-installed pair, and the duplicate rules that may follow it, are not modelled.
- Clients.SessionsStaySeparate: database writes succeed and a tick is not interrupted between the live table and the database.
- Versions.IdentifiersDecide: identifiers of letters, digits and hyphens, as section 9 of Semantic Versioning 2.0.0 has them, numeric ones within 64 bits.
- Failover.OwnRouteIsAdopted: no two providers share both next hop and interface; if two do, the first configured is adopted, as `Failover.AdoptExactly` has it.
- Chunked.CutDecodes: chunks are non-empty, as section 7.1 of RFC 9112 requires of all but the last.
- Dns.AnswerFound: owner names are labels, optionally followed by a pointer; that any other bytes are walked safely is `Dns.DnsExtractFirstA`.
- Pinning.UniquenessCheckExactly: stated for priorities; names go through the same check.
- The kernel's `ip route replace` is taken to displace entries with the same metric and proto, as the comments in `src/net/router.rs` describe it.
- Conntrack flush decisions and the `route_unchanged` shortcut in the reconcile, the notifications and log lines there, and `still_settling`: they change neither the route nor the history.
- The pin chain inside the reconcile is the provider it is aimed at; its rules and connections have their own state machine, driven by arbitrary re-aims. When evictions run is not tied to the health machine.
- Storing and deleting the operator's pin is taken to succeed.
- Dry runs, beyond the router's own flag.
- Concurrency below the grain of the locks.
- Overflow of sums of 64-bit traffic counters, of the counter of log lines, and of dates.
- The floating-point arithmetic of `classify_throughput` and of display rates: the verdict is an input, and so is whether a slow reading counts on a busy link.
- Text below the token level: command output other than default routes, the response header block, database time stamps.
- HTTP transfer, TLS, SHA-256 (a parameter), DNS transport, retries.
- Per-session byte totals: a flush in the tick that opens or closes a session misses it, so they are not conserved.
- Presence probes, name resolution, roster rows, and the order in which a tick meets new clients.
- The pin chain's jump, the `remove` paths, and the reinstallation of counting chains that vanished.
- The self-updater except version precedence, host bring-up, the user interface, the control protocol, reports, notifications and system metrics.
