/**
 Writes to the kernel's main routing table (`src/net/router.rs`). Only default routes are modelled.
 Commands are table updates that may fail; where the kernel puts a new entry is left open.
 */
module Routing {
  import opened Basics

  type Address = u32

  /** A default route in the main table; `via` is absent on a point-to-point link. */
  datatype Route = Route(via: Option<Address>, dev: string, metric: nat, proto: Option<string>)

  /** A default route as `ip route show` prints it: metric 0 is not printed. */
  datatype InstalledRoute = InstalledRoute(gateway: Address, interface: string, metric: Option<nat>, proto: Option<string>) {
    function EffectiveMetric(): nat {
      if metric.Some? then metric.value else 0
    }

    predicate Leads(gateway: Address, interface: string) {
      this.gateway == gateway && this.interface == interface
    }
  }

  const BOOTSTRAP_METRIC: nat := 4096

  const STATIC := Some("static")

  function Show(r: Route): InstalledRoute
    requires r.via.Some?
  {
    InstalledRoute(r.via.value, r.dev, if r.metric == 0 then None else Some(r.metric), r.proto)
  }

  /** Every default that names a next hop, in table order. */
  function Listed(table: seq<Route>): seq<InstalledRoute> {
    if |table| == 0 then []
    else (if table[0].via.Some? then [Show(table[0])] else []) + Listed(table[1..])
  }

  /** The route the kernel prefers: the first of the lowest metric. */
  function Preferred(routes: seq<InstalledRoute>): Option<InstalledRoute> {
    if |routes| == 0 then None
    else
      var last := routes[|routes| - 1];
      match Preferred(routes[..|routes| - 1])
      case None => Some(last)
      case Some(r) => if last.EffectiveMetric() < r.EffectiveMetric() then Some(last) else Some(r)
  }

  /** What `ip route del` names; no proto matches any. */
  datatype Target = Target(via: Option<Address>, dev: Option<string>, metric: nat, proto: Option<string>) {
    predicate Matches(r: Route) {
      && (via.Some? ==> r.via == via)
      && (dev.Some? ==> r.dev == dev.value)
      && r.metric == metric
      && (proto.Some? ==> r.proto == proto)
    }
  }

  function DeleteFirst(table: seq<Route>, t: Target): seq<Route> {
    if |table| == 0 then []
    else if t.Matches(table[0]) then table[1..]
    else [table[0]] + DeleteFirst(table[1..], t)
  }

  function WithoutKey(table: seq<Route>, metric: nat, proto: Option<string>): seq<Route> {
    if |table| == 0 then []
    else (if table[0].metric == metric && table[0].proto == proto then [] else [table[0]])
         + WithoutKey(table[1..], metric, proto)
  }

  function InsertAt(table: seq<Route>, at: nat, r: Route): seq<Route> {
    var k := Min(at, |table|);
    table[..k] + [r] + table[k..]
  }

  /** `ip route replace`: displaces the entries with the same metric and proto. */
  function Replace(table: seq<Route>, r: Route, at: nat): seq<Route> {
    InsertAt(WithoutKey(table, r.metric, r.proto), at, r)
  }

  /** How the commands of one installation fare. */
  datatype Shell = Shell(replaceOk: bool, at: nat, listOk: bool, failedDeletes: set<nat>) {
    predicate AllOk() {
      replaceOk && listOk && failedDeletes == {}
    }
  }

  predicate Rival(r: InstalledRoute, gateway: Address, interface: string) {
    r.EffectiveMetric() == 0 && !(r.Leads(gateway, interface) && r.proto == STATIC)
  }

  function DeleteListed(table: seq<Route>, r: InstalledRoute): seq<Route> {
    DeleteFirst(table, Target(Some(r.gateway), Some(r.interface), r.EffectiveMetric(), r.proto))
  }

  /** Delete, one by one, the rivals of a listing taken beforehand, from entry `k` on. */
  function RemoveCompeting(table: seq<Route>, listing: seq<InstalledRoute>, k: nat, gateway: Address, interface: string, failed: set<nat>): seq<Route>
    decreases |listing| - k
  {
    if k >= |listing| then table
    else
      var next := if Rival(listing[k], gateway, interface) && k !in failed then DeleteListed(table, listing[k]) else table;
      RemoveCompeting(next, listing, k + 1, gateway, interface, failed)
  }

  function DropBootstrap(table: seq<Route>, owns: bool): seq<Route> {
    if owns then DeleteFirst(table, Target(None, None, BOOTSTRAP_METRIC, STATIC)) else table
  }

  function OurRoute(gateway: Address, interface: string): Route {
    Route(Some(gateway), interface, 0, STATIC)
  }

  function InstallDefault(table: seq<Route>, owns: bool, gateway: Address, interface: string, sh: Shell): (seq<Route>, bool) {
    if !sh.replaceOk then (table, owns)
    else
      var replaced := Replace(table, OurRoute(gateway, interface), sh.at);
      var cleared := if sh.listOk then RemoveCompeting(replaced, Listed(replaced), 0, gateway, interface, sh.failedDeletes) else replaced;
      (DropBootstrap(cleared, owns), false)
  }

  lemma FailedInstallChangesNothing(table: seq<Route>, owns: bool, gateway: Address, interface: string, sh: Shell)
    requires !sh.replaceOk
    ensures InstallDefault(table, owns, gateway, interface, sh) == (table, owns)
  {
  }

  /** The kernel's main table, which other tools write too. */
  class MainTable {
    var routes: seq<Route>

    constructor (routes: seq<Route>)
      ensures this.routes == routes
    {
      this.routes := routes;
    }
  }

  class Router {
    const kernel: MainTable
    const dryRun: bool
    var ownsBootstrap: bool

    constructor (kernel: MainTable, dryRun: bool, installedBootstrap: bool)
      ensures this.kernel == kernel && this.dryRun == dryRun && ownsBootstrap == installedBootstrap
    {
      this.kernel := kernel;
      this.dryRun := dryRun;
      ownsBootstrap := installedBootstrap;
    }

    method SetDefaultRoute(gateway: Address, interface: string, sh: Shell) returns (ok: bool)
      modifies kernel, this`ownsBootstrap
      ensures ok == (dryRun || sh.replaceOk)
      ensures if dryRun then kernel.routes == old(kernel.routes) && ownsBootstrap == old(ownsBootstrap)
              else (kernel.routes, ownsBootstrap) == InstallDefault(old(kernel.routes), old(ownsBootstrap), gateway, interface, sh)
    {
      if dryRun {
        return true;
      }
      if !sh.replaceOk {
        return false;
      }
      kernel.routes := Replace(kernel.routes, OurRoute(gateway, interface), sh.at);
      if sh.listOk {
        RemoveCompetingDefaults(gateway, interface, sh.failedDeletes);
      }
      if ownsBootstrap {
        ownsBootstrap := false;
        kernel.routes := DeleteFirst(kernel.routes, Target(None, None, BOOTSTRAP_METRIC, STATIC));
      }
      ok := true;
    }

    method RemoveCompetingDefaults(gateway: Address, interface: string, failed: set<nat>)
      modifies kernel
      ensures kernel.routes == RemoveCompeting(old(kernel.routes), Listed(old(kernel.routes)), 0, gateway, interface, failed)
    {
      var listing := Listed(kernel.routes);
      ghost var final := RemoveCompeting(kernel.routes, listing, 0, gateway, interface, failed);
      for k := 0 to |listing|
        invariant RemoveCompeting(kernel.routes, listing, k, gateway, interface, failed) == final
      {
        if listing[k].EffectiveMetric() != 0 {
          continue;
        }
        if listing[k].Leads(gateway, interface) && listing[k].proto == STATIC {
          continue;
        }
        if k !in failed {
          kernel.routes := DeleteListed(kernel.routes, listing[k]);
        }
      }
    }
  }

  // ── one owner for the default route ───────────────────────────────────

  predicate AtStake(r: Route) {
    r.metric == 0 && r.via.Some?
  }

  predicate LeadsTo(r: Route, gateway: Address, interface: string) {
    r.via == Some(gateway) && r.dev == interface
  }

  /** Every default with a next hop at metric 0 leads to this one place, and there is one. */
  ghost predicate Settled(table: seq<Route>, gateway: Address, interface: string) {
    && (forall k | 0 <= k < |table| && AtStake(table[k]) :: LeadsTo(table[k], gateway, interface))
    && (exists k | 0 <= k < |table| :: AtStake(table[k]) && LeadsTo(table[k], gateway, interface))
  }

  /** The listed defaults at metric 0 that lead elsewhere. */
  function Foreign(listing: seq<InstalledRoute>, gateway: Address, interface: string): seq<InstalledRoute> {
    if |listing| == 0 then []
    else (if listing[0].EffectiveMetric() == 0 && !listing[0].Leads(gateway, interface) then [listing[0]] else [])
         + Foreign(listing[1..], gateway, interface)
  }

  /** How many of them lead the right way, and how many of those are not exactly our entry. */
  function Own(listing: seq<InstalledRoute>, gateway: Address, interface: string): nat {
    if |listing| == 0 then 0
    else (if listing[0].EffectiveMetric() == 0 && listing[0].Leads(gateway, interface) then 1 else 0)
         + Own(listing[1..], gateway, interface)
  }

  function OwnRivals(listing: seq<InstalledRoute>, gateway: Address, interface: string): nat {
    if |listing| == 0 then 0
    else (if Rival(listing[0], gateway, interface) && listing[0].Leads(gateway, interface) then 1 else 0)
         + OwnRivals(listing[1..], gateway, interface)
  }

  function ForeignIn(table: seq<Route>, gateway: Address, interface: string): seq<InstalledRoute> {
    Foreign(Listed(table), gateway, interface)
  }

  function OwnIn(table: seq<Route>, gateway: Address, interface: string): nat {
    Own(Listed(table), gateway, interface)
  }

  /** One table entry at a time. */
  lemma EntryByEntry(r: Route, rest: seq<Route>, gateway: Address, interface: string)
    ensures ForeignIn([r] + rest, gateway, interface)
         == (if AtStake(r) && !LeadsTo(r, gateway, interface) then [Show(r)] else []) + ForeignIn(rest, gateway, interface)
    ensures OwnIn([r] + rest, gateway, interface)
         == (if AtStake(r) && LeadsTo(r, gateway, interface) then 1 else 0) + OwnIn(rest, gateway, interface)
  {
    assert ([r] + rest)[1..] == rest;
    if r.via.Some? {
      assert Listed([r] + rest) == [Show(r)] + Listed(rest);
      assert Listed([r] + rest)[1..] == Listed(rest);
    } else {
      assert Listed([r] + rest) == Listed(rest);
    }
  }

  lemma {:induction false} SettledByListing(table: seq<Route>, gateway: Address, interface: string)
    ensures ForeignIn(table, gateway, interface) == [] <==>
            forall k | 0 <= k < |table| && AtStake(table[k]) :: LeadsTo(table[k], gateway, interface)
    ensures OwnIn(table, gateway, interface) >= 1 <==>
            exists k | 0 <= k < |table| :: AtStake(table[k]) && LeadsTo(table[k], gateway, interface)
  {
    if |table| != 0 {
      var rest := table[1..];
      SettledByListing(rest, gateway, interface);
      EntryByEntry(table[0], rest, gateway, interface);
      assert table == [table[0]] + rest;
      assert forall k | 1 <= k < |table| :: table[k] == rest[k - 1];
      assert forall k | 0 <= k < |rest| :: rest[k] == table[k + 1];
    }
  }

  /** Deleting by an entry that leads the right way costs at most one such entry and touches no other. */
  lemma {:induction false} DeleteOwn(table: seq<Route>, r: InstalledRoute, gateway: Address, interface: string)
    requires r.EffectiveMetric() == 0 && r.Leads(gateway, interface)
    ensures ForeignIn(DeleteListed(table, r), gateway, interface) == ForeignIn(table, gateway, interface)
    ensures OwnIn(DeleteListed(table, r), gateway, interface) + 1 >= OwnIn(table, gateway, interface)
  {
    if |table| != 0 {
      var rest := table[1..];
      DeleteOwn(rest, r, gateway, interface);
      EntryByEntry(table[0], rest, gateway, interface);
      EntryByEntry(table[0], DeleteListed(rest, r), gateway, interface);
      assert table == [table[0]] + rest;
    }
  }

  /** Deleting by the first foreign entry removes exactly it: anything its description matches is foreign
      too, so nothing earlier in the table can match. */
  lemma {:induction false} DeleteForeign(table: seq<Route>, r: InstalledRoute, gateway: Address, interface: string)
    requires r.EffectiveMetric() == 0 && !r.Leads(gateway, interface)
    requires var f := ForeignIn(table, gateway, interface); |f| >= 1 && f[0] == r
    ensures ForeignIn(DeleteListed(table, r), gateway, interface) == ForeignIn(table, gateway, interface)[1..]
    ensures OwnIn(DeleteListed(table, r), gateway, interface) == OwnIn(table, gateway, interface)
  {
    var t, rest := Target(Some(r.gateway), Some(r.interface), r.EffectiveMetric(), r.proto), table[1..];
    EntryByEntry(table[0], rest, gateway, interface);
    assert table == [table[0]] + rest;
    if !t.Matches(table[0]) {
      DeleteForeign(rest, r, gateway, interface);
      EntryByEntry(table[0], DeleteListed(rest, r), gateway, interface);
    }
  }

  lemma {:induction false} RemovalSettles(table: seq<Route>, listing: seq<InstalledRoute>, k: nat, gateway: Address, interface: string)
    requires k <= |listing|
    requires ForeignIn(table, gateway, interface) == Foreign(listing[k..], gateway, interface)
    requires OwnIn(table, gateway, interface) >= 1 + OwnRivals(listing[k..], gateway, interface)
    ensures Settled(RemoveCompeting(table, listing, k, gateway, interface, {}), gateway, interface)
    decreases |listing| - k
  {
    if k == |listing| {
      SettledByListing(table, gateway, interface);
    } else {
      var r := listing[k];
      assert listing[k..][1..] == listing[k + 1..] && listing[k..][0] == r;
      if Rival(r, gateway, interface) {
        if r.Leads(gateway, interface) {
          DeleteOwn(table, r, gateway, interface);
        } else {
          DeleteForeign(table, r, gateway, interface);
        }
        RemovalSettles(DeleteListed(table, r), listing, k + 1, gateway, interface);
      } else {
        RemovalSettles(table, listing, k + 1, gateway, interface);
      }
    }
  }

  lemma {:induction false} OwnSplits(listing: seq<InstalledRoute>, gateway: Address, interface: string)
    ensures Own(listing, gateway, interface) >= OwnRivals(listing, gateway, interface)
    ensures InstalledRoute(gateway, interface, None, STATIC) in listing ==>
              Own(listing, gateway, interface) >= 1 + OwnRivals(listing, gateway, interface)
  {
    if |listing| != 0 {
      OwnSplits(listing[1..], gateway, interface);
      assert listing == [listing[0]] + listing[1..];
    }
  }

  lemma {:induction false} ListedHas(table: seq<Route>, r: Route)
    requires r in table && r.via.Some?
    ensures Show(r) in Listed(table)
  {
    if table[0] != r {
      ListedHas(table[1..], r);
    }
  }

  /** Deleting at another metric leaves the metric-0 defaults alone. */
  lemma {:induction false} DeleteElsewhere(table: seq<Route>, t: Target, gateway: Address, interface: string)
    requires t.metric != 0
    ensures ForeignIn(DeleteFirst(table, t), gateway, interface) == ForeignIn(table, gateway, interface)
    ensures OwnIn(DeleteFirst(table, t), gateway, interface) == OwnIn(table, gateway, interface)
  {
    if |table| != 0 {
      var rest := table[1..];
      DeleteElsewhere(rest, t, gateway, interface);
      EntryByEntry(table[0], rest, gateway, interface);
      EntryByEntry(table[0], DeleteFirst(rest, t), gateway, interface);
      assert table == [table[0]] + rest;
    }
  }

  /** Cleaning up the provisional startup route never changes who owns the default. */
  lemma BootstrapIsNotAtStake(table: seq<Route>, owns: bool, gateway: Address, interface: string)
    ensures Settled(DropBootstrap(table, owns), gateway, interface) <==> Settled(table, gateway, interface)
  {
    DeleteElsewhere(table, Target(None, None, BOOTSTRAP_METRIC, STATIC), gateway, interface);
    SettledByListing(table, gateway, interface);
    SettledByListing(DropBootstrap(table, owns), gateway, interface);
  }

  /** After an installation whose commands all succeed, whatever was in the table and wherever the kernel
      put our entry, the default route has one owner. A delete without a proto may hit our own entry
      instead of its look-alike; then the look-alike is what is left, and it leads the same way. */
  lemma InstallSettles(table: seq<Route>, owns: bool, gateway: Address, interface: string, sh: Shell)
    requires sh.AllOk()
    ensures Settled(InstallDefault(table, owns, gateway, interface, sh).0, gateway, interface)
  {
    var replaced := Replace(table, OurRoute(gateway, interface), sh.at);
    assert OurRoute(gateway, interface) in replaced;
    ListedHas(replaced, OurRoute(gateway, interface));
    OwnSplits(Listed(replaced), gateway, interface);
    assert Listed(replaced)[0..] == Listed(replaced);
    RemovalSettles(replaced, Listed(replaced), 0, gateway, interface);
    var cleared := RemoveCompeting(replaced, Listed(replaced), 0, gateway, interface, {});
    BootstrapIsNotAtStake(cleared, owns, gateway, interface);
  }

  lemma {:induction false} WithoutKeyExactly(table: seq<Route>, metric: nat, proto: Option<string>, r: Route)
    ensures r in WithoutKey(table, metric, proto) <==> r in table && !(r.metric == metric && r.proto == proto)
  {
    if |table| != 0 {
      WithoutKeyExactly(table[1..], metric, proto, r);
      assert table == [table[0]] + table[1..];
    }
  }

  /** Replacing displaces the entries with the same metric and proto, and those only. */
  lemma ReplaceDisplaces(table: seq<Route>, ours: Route, at: nat, r: Route)
    ensures r in Replace(table, ours, at) <==> r == ours || (r in table && !(r.metric == ours.metric && r.proto == ours.proto))
  {
    var kept := WithoutKey(table, ours.metric, ours.proto);
    var k := Min(at, |kept|);
    WithoutKeyExactly(table, ours.metric, ours.proto, r);
    assert kept == kept[..k] + kept[k..];
  }

  // ── when deletes fail ─────────────────────────────────────────────────

  function Without<T>(s: seq<T>, i: nat): seq<T>
    requires i < |s|
  {
    s[..i] + s[i + 1..]
  }

  lemma WithoutTail<T>(x: T, s: seq<T>, i: nat)
    requires i < |s|
    ensures Without([x] + s, i + 1) == [x] + Without(s, i) 
  {
  }

  /** A foreign description matches foreign entries only, its own among them. */
  lemma Described(r: InstalledRoute, row: Route, gateway: Address, interface: string)
    requires r.EffectiveMetric() == 0 && !r.Leads(gateway, interface)
    ensures var t := Target(Some(r.gateway), Some(r.interface), r.EffectiveMetric(), r.proto);
            && (t.Matches(row) ==> AtStake(row) && !LeadsTo(row, gateway, interface))
            && (AtStake(row) && Show(row) == r ==> t.Matches(row))
  {
  }

  /** Deleting by the description of the `j`-th foreign entry removes a foreign entry, that one or one before it. */
  lemma {:induction false} DeleteAmong(table: seq<Route>, r: InstalledRoute, j: nat, gateway: Address, interface: string) returns (i: nat)
    requires r.EffectiveMetric() == 0 && !r.Leads(gateway, interface)
    requires var f := ForeignIn(table, gateway, interface); j < |f| && f[j] == r
    ensures i <= j && ForeignIn(DeleteListed(table, r), gateway, interface) == Without(ForeignIn(table, gateway, interface), i)
    ensures OwnIn(DeleteListed(table, r), gateway, interface) == OwnIn(table, gateway, interface)
  {
    hide Show, LeadsTo, InstalledRoute.Leads, InstalledRoute.EffectiveMetric, Target.Matches, Without, ForeignIn, OwnIn;
    if |table| == 0 {
      NothingForeign(gateway, interface);
    } else {
      var row, rest := table[0], table[1..];
      EntryByEntry(row, rest, gateway, interface);
      assert table == [row] + rest;
      Described(r, row, gateway, interface);
      var f := ForeignIn(rest, gateway, interface);
      if Target(Some(r.gateway), Some(r.interface), r.EffectiveMetric(), r.proto).Matches(row) {
        i := 0;
        FirstGone(Show(row), f);
      } else if AtStake(row) && !LeadsTo(row, gateway, interface) {
        var n := DeleteAmong(rest, r, j - 1, gateway, interface);
        EntryByEntry(row, DeleteListed(rest, r), gateway, interface);
        i := n + 1;
        WithoutTail(Show(row), f, n);
      } else {
        assert [] + f == f;
        i := DeleteAmong(rest, r, j, gateway, interface);
        EntryByEntry(row, DeleteListed(rest, r), gateway, interface);
        assert [] + ForeignIn(DeleteListed(rest, r), gateway, interface) == ForeignIn(DeleteListed(rest, r), gateway, interface);
      }
    }
  }

  lemma FirstGone<T>(x: T, s: seq<T>)
    ensures Without([x] + s, 0) == s
  {
  }

  lemma NothingForeign(gateway: Address, interface: string)
    ensures ForeignIn([], gateway, interface) == []
  {
  }

  /** A foreign entry from `k` on whose delete fails. */
  ghost predicate ForeignFails(listing: seq<InstalledRoute>, k: nat, gateway: Address, interface: string, failed: set<nat>) {
    exists j | k <= j < |listing| :: j in failed && listing[j].EffectiveMetric() == 0 && !listing[j].Leads(gateway, interface)
  }

  lemma FailsNext(listing: seq<InstalledRoute>, k: nat, gateway: Address, interface: string, failed: set<nat>)
    requires k < |listing|
    ensures ForeignFails(listing, k, gateway, interface, failed) <==>
            (k in failed && listing[k].EffectiveMetric() == 0 && !listing[k].Leads(gateway, interface))
            || ForeignFails(listing, k + 1, gateway, interface, failed)
  {
  }

  /** With `kept` foreign entries left over so far, and the rest of the listing still in the table. */
  lemma {:induction false} RemovalWithFailures(table: seq<Route>, listing: seq<InstalledRoute>, k: nat, gateway: Address, interface: string,
                                               failed: set<nat>, kept: seq<InstalledRoute>)
    requires k <= |listing|
    requires ForeignIn(table, gateway, interface) == kept + Foreign(listing[k..], gateway, interface)
    requires OwnIn(table, gateway, interface) >= 1 + OwnRivals(listing[k..], gateway, interface)
    ensures var after := RemoveCompeting(table, listing, k, gateway, interface, failed);
            && OwnIn(after, gateway, interface) >= 1
            && (ForeignIn(after, gateway, interface) == [] <==> kept == [] && !ForeignFails(listing, k, gateway, interface, failed))
    decreases |listing| - k
  {
    hide Rival, InstalledRoute.Leads, InstalledRoute.EffectiveMetric, DeleteListed, ForeignFails;
    if k == |listing| {
      assert listing[k..] == [] && kept + [] == kept;
      NoneFail(listing, gateway, interface, failed);
    } else {
      var r, rest := listing[k], Foreign(listing[k + 1..], gateway, interface);
      assert listing[k..][1..] == listing[k + 1..] && listing[k..][0] == r;
      FailsNext(listing, k, gateway, interface, failed);
      RivalMeaning(r, gateway, interface);
      var foreign := r.EffectiveMetric() == 0 && !r.Leads(gateway, interface);
      if Rival(r, gateway, interface) && k !in failed {
        if foreign {
          assert ForeignIn(table, gateway, interface) == kept + [r] + rest;
          var i := DeleteAmong(table, r, |kept|, gateway, interface);
          assert Without(kept + [r] + rest, i) == Without(kept + [r], i) + rest;
          RemovalWithFailures(DeleteListed(table, r), listing, k + 1, gateway, interface, failed, Without(kept + [r], i));
          assert |Without(kept + [r], i)| == |kept|;
        } else {
          assert [] + rest == rest;
          DeleteOwn(table, r, gateway, interface);
          RemovalWithFailures(DeleteListed(table, r), listing, k + 1, gateway, interface, failed, kept);
        }
      } else if foreign {
        assert kept + ([r] + rest) == (kept + [r]) + rest;
        RemovalWithFailures(table, listing, k + 1, gateway, interface, failed, kept + [r]);
      } else {
        assert [] + rest == rest;
        RemovalWithFailures(table, listing, k + 1, gateway, interface, failed, kept);
      }
    }
  }

  lemma RivalMeaning(r: InstalledRoute, gateway: Address, interface: string)
    ensures r.EffectiveMetric() == 0 && !r.Leads(gateway, interface) ==> Rival(r, gateway, interface)
    ensures Rival(r, gateway, interface) ==> r.EffectiveMetric() == 0
  {
  }

  lemma NoneFail(listing: seq<InstalledRoute>, gateway: Address, interface: string, failed: set<nat>)
    ensures !ForeignFails(listing, |listing|, gateway, interface, failed)
  {
  }

  /** However the commands of an installation fare, once its entry is in: the route has one owner exactly if no other
      metric-0 default was there, or the listing could be read and no delete of one of those failed. */
  lemma InstallSettlesExactly(table: seq<Route>, owns: bool, gateway: Address, interface: string, sh: Shell)
    requires sh.replaceOk
    ensures var replaced := Replace(table, OurRoute(gateway, interface), sh.at);
            Settled(InstallDefault(table, owns, gateway, interface, sh).0, gateway, interface) <==>
            || ForeignIn(replaced, gateway, interface) == []
            || (sh.listOk && !ForeignFails(Listed(replaced), 0, gateway, interface, sh.failedDeletes))
  {
    hide ForeignFails, RemoveCompeting, Replace;
    var replaced := Replace(table, OurRoute(gateway, interface), sh.at);
    OursIsIn(table, gateway, interface, sh.at);
    ListedHas(replaced, OurRoute(gateway, interface));
    OwnSplits(Listed(replaced), gateway, interface);
    assert Listed(replaced)[0..] == Listed(replaced);
    assert [] + Foreign(Listed(replaced), gateway, interface) == Foreign(Listed(replaced), gateway, interface);
    RemovalWithFailures(replaced, Listed(replaced), 0, gateway, interface, sh.failedDeletes, []);
    var cleared := if sh.listOk then RemoveCompeting(replaced, Listed(replaced), 0, gateway, interface, sh.failedDeletes) else replaced;
    SettledByListing(cleared, gateway, interface);
    BootstrapIsNotAtStake(cleared, owns, gateway, interface);
    if ForeignIn(replaced, gateway, interface) == [] {
      NothingForeignFails(Listed(replaced), gateway, interface, sh.failedDeletes);
    }
  }

  lemma OursIsIn(table: seq<Route>, gateway: Address, interface: string, at: nat)
    ensures OurRoute(gateway, interface) in Replace(table, OurRoute(gateway, interface), at)
  {
  }

  lemma {:induction false} NothingForeignFails(listing: seq<InstalledRoute>, gateway: Address, interface: string, failed: set<nat>)
    requires Foreign(listing, gateway, interface) == []
    ensures !ForeignFails(listing, 0, gateway, interface, failed)
  {
    forall j | 0 <= j < |listing| ensures !(listing[j].EffectiveMetric() == 0 && !listing[j].Leads(gateway, interface)) {
      NotForeign(listing, j, gateway, interface);
    }
  }

  lemma {:induction false} NotForeign(listing: seq<InstalledRoute>, j: nat, gateway: Address, interface: string)
    requires Foreign(listing, gateway, interface) == [] && j < |listing|
    ensures !(listing[j].EffectiveMetric() == 0 && !listing[j].Leads(gateway, interface))
  {
    if j != 0 {
      NotForeign(listing[1..], j - 1, gateway, interface);
    }
  }

  // ── what an installation leaves alone ─────────────────────────────────

  /** The entries at other metrics than 0. */
  function Elsewhere(table: seq<Route>): seq<Route> {
    if |table| == 0 then []
    else (if table[0].metric != 0 then [table[0]] else []) + Elsewhere(table[1..])
  }

  lemma ElsewhereStep(r: Route, rest: seq<Route>)
    ensures Elsewhere([r] + rest) == (if r.metric != 0 then [r] else []) + Elsewhere(rest)
  {
    assert ([r] + rest)[1..] == rest;
  }

  lemma {:induction false} ElsewhereConcat(a: seq<Route>, b: seq<Route>)
    ensures Elsewhere(a + b) == Elsewhere(a) + Elsewhere(b)
  {
    if |a| == 0 {
      assert a + b == b;
    } else {
      hide Elsewhere;
      ElsewhereConcat(a[1..], b);
      ElsewhereStep(a[0], a[1..] + b);
      ElsewhereStep(a[0], a[1..]);
      assert a + b == [a[0]] + (a[1..] + b) && a == [a[0]] + a[1..];
    }
  }

  lemma {:induction false} DeleteAtZero(table: seq<Route>, t: Target)
    requires t.metric == 0
    ensures Elsewhere(DeleteFirst(table, t)) == Elsewhere(table)
  {
    if |table| != 0 && !t.Matches(table[0]) {
      DeleteAtZero(table[1..], t);
      ElsewhereStep(table[0], DeleteFirst(table[1..], t));
    }
  }

  lemma {:induction false} DeleteNotAtZero(table: seq<Route>, t: Target)
    requires t.metric != 0
    ensures Elsewhere(DeleteFirst(table, t)) == DeleteFirst(Elsewhere(table), t)
  {
    if |table| != 0 {
      var rest := table[1..];
      if t.Matches(table[0]) {
        assert Elsewhere(table)[1..] == Elsewhere(rest);
      } else {
        DeleteNotAtZero(rest, t);
        ElsewhereStep(table[0], DeleteFirst(rest, t));
        if table[0].metric != 0 {
          assert Elsewhere(table)[1..] == Elsewhere(rest);
        } else {
          assert Elsewhere(table) == Elsewhere(rest);
        }
      }
    }
  }

  lemma {:induction false} WithoutOurKey(table: seq<Route>)
    ensures Elsewhere(WithoutKey(table, 0, STATIC)) == Elsewhere(table)
  {
    if |table| != 0 {
      WithoutOurKey(table[1..]);
      assert [] + WithoutKey(table[1..], 0, STATIC) == WithoutKey(table[1..], 0, STATIC);
      ElsewhereStep(table[0], WithoutKey(table[1..], 0, STATIC));
    }
  }

  lemma ReplaceSparesOthers(table: seq<Route>, gateway: Address, interface: string, at: nat)
    ensures Elsewhere(Replace(table, OurRoute(gateway, interface), at)) == Elsewhere(table)
  {
    var kept, ours := WithoutKey(table, 0, STATIC), OurRoute(gateway, interface);
    var k := Min(at, |kept|);
    WithoutOurKey(table);
    hide WithoutKey;
    ElsewhereConcat(kept[..k] + [ours], kept[k..]);
    ElsewhereConcat(kept[..k], [ours]);
    ElsewhereConcat(kept[..k], kept[k..]);
    assert kept == kept[..k] + kept[k..];
    assert [ours][1..] == [] && Elsewhere([ours]) == [];
    hide Elsewhere;
    assert Elsewhere(kept[..k]) + [] == Elsewhere(kept[..k]);
  }

  lemma {:induction false} RemovalSparesOthers(table: seq<Route>, listing: seq<InstalledRoute>, k: nat, gateway: Address, interface: string, failed: set<nat>)
    ensures Elsewhere(RemoveCompeting(table, listing, k, gateway, interface, failed)) == Elsewhere(table)
    decreases |listing| - k
  {
    if k < |listing| {
      var r := listing[k];
      if Rival(r, gateway, interface) && k !in failed {
        DeleteAtZero(table, Target(Some(r.gateway), Some(r.interface), r.EffectiveMetric(), r.proto));
        RemovalSparesOthers(DeleteListed(table, r), listing, k + 1, gateway, interface, failed);
      } else {
        RemovalSparesOthers(table, listing, k + 1, gateway, interface, failed);
      }
    }
  }

  /** However its commands fare, an installation touches no entry at another metric, save that the first one that works
      takes this process's own startup route away, which it then owns no more. */
  lemma InstallSparesOthers(table: seq<Route>, owns: bool, gateway: Address, interface: string, sh: Shell)
    ensures var (after, owned) := InstallDefault(table, owns, gateway, interface, sh);
            && (owned <==> owns && !sh.replaceOk)
            && Elsewhere(after) ==
               if owns && sh.replaceOk then DeleteFirst(Elsewhere(table), Target(None, None, 4096, Some("static")))
               else Elsewhere(table)
  {
    if sh.replaceOk {
      var replaced := Replace(table, OurRoute(gateway, interface), sh.at);
      ReplaceSparesOthers(table, gateway, interface, sh.at);
      RemovalSparesOthers(replaced, Listed(replaced), 0, gateway, interface, sh.failedDeletes);
      var cleared := if sh.listOk then RemoveCompeting(replaced, Listed(replaced), 0, gateway, interface, sh.failedDeletes) else replaced;
      DeleteNotAtZero(cleared, Target(None, None, BOOTSTRAP_METRIC, STATIC));
    }
  }

  // ── the route a start finds ───────────────────────────────────────────

  /** Entry `k` has the least metric, and is the first that has. */
  ghost predicate FirstOfLeast(routes: seq<InstalledRoute>, k: nat) {
    && k < |routes|
    && (forall j | 0 <= j < |routes| :: routes[k].EffectiveMetric() <= routes[j].EffectiveMetric())
    && (forall j | 0 <= j < k :: routes[k].EffectiveMetric() < routes[j].EffectiveMetric())
  }

  lemma OneMoreListed(routes: seq<InstalledRoute>, k: nat)
    requires |routes| != 0 && FirstOfLeast(routes[..|routes| - 1], k)
    ensures var n := |routes| - 1;
            FirstOfLeast(routes, if routes[n].EffectiveMetric() < routes[k].EffectiveMetric() then n else k)
  {
    hide InstalledRoute.EffectiveMetric;
    var init := routes[..|routes| - 1];
    assert forall j | 0 <= j < |init| :: init[j] == routes[j];
  }

  /** The preferred route is the first of least metric; there is none only in an empty listing. */
  lemma {:induction false} PreferredIsLeast(routes: seq<InstalledRoute>)
    ensures match Preferred(routes)
            case None => routes == []
            case Some(r) => exists k: nat :: FirstOfLeast(routes, k) && routes[k] == r
  {
    if |routes| != 0 {
      var n := |routes| - 1;
      PreferredIsLeast(routes[..n]);
      if n == 0 {
        assert FirstOfLeast(routes, 0);
      } else {
        var k: nat :| FirstOfLeast(routes[..n], k) && routes[..n][k] == Preferred(routes[..n]).value;
        OneMoreListed(routes, k);
      }
    }
  }

  /** The first metric-0 default with a next hop in a table. */
  ghost predicate FirstAtStake(table: seq<Route>, k: nat) {
    k < |table| && AtStake(table[k]) && forall j | 0 <= j < k :: !AtStake(table[j])
  }

  function FirstZero(listing: seq<InstalledRoute>): Option<InstalledRoute> {
    if |listing| == 0 then None
    else if listing[0].EffectiveMetric() == 0 then Some(listing[0])
    else FirstZero(listing[1..])
  }

  lemma {:induction false} FirstZeroIsPreferred(listing: seq<InstalledRoute>, k: nat)
    requires FirstOfLeast(listing, k)
    ensures FirstZero(listing) == if listing[k].EffectiveMetric() == 0 then Some(listing[k]) else None
  {
    if |listing| > 1 && listing[0].EffectiveMetric() != 0 {
      var tail := listing[1..];
      assert forall j | 0 <= j < |tail| :: tail[j] == listing[j + 1];
      if k != 0 {
        assert FirstOfLeast(tail, k - 1);
        FirstZeroIsPreferred(tail, k - 1);
      } else {
        NoZero(tail);
      }
    }
  }

  lemma {:induction false} NoZero(listing: seq<InstalledRoute>)
    requires forall j | 0 <= j < |listing| :: listing[j].EffectiveMetric() != 0
    ensures FirstZero(listing).None?
  {
    if |listing| != 0 {
      NoZero(listing[1..]);
    }
  }

  lemma {:induction false} FirstZeroOfTable(table: seq<Route>)
    ensures match FirstZero(Listed(table))
            case None => forall k: nat :: !FirstAtStake(table, k)
            case Some(r) => exists k: nat :: FirstAtStake(table, k) && r == Show(table[k])
  {
    if |table| != 0 {
      var tail := table[1..];
      FirstZeroOfTable(tail);
      assert forall j | 0 <= j < |tail| :: tail[j] == table[j + 1];
      if AtStake(table[0]) {
        assert Listed(table)[0] == Show(table[0]);
        assert FirstAtStake(table, 0);
      } else {
        assert FirstZero(Listed(table)) == FirstZero(Listed(tail)) by {
          assert table[0].via.Some? ==> Listed(table)[1..] == Listed(tail);
          assert table[0].via.None? ==> Listed(table) == Listed(tail);
        }
        if FirstZero(Listed(tail)).Some? {
          var k: nat :| FirstAtStake(tail, k) && FirstZero(Listed(tail)).value == Show(tail[k]);
          assert FirstAtStake(table, k + 1);
        } else {
          forall k: nat ensures !FirstAtStake(table, k) {
            assert k >= 1 ==> !FirstAtStake(tail, k - 1);
          }
        }
      }
    }
  }

  /** The route the kernel prefers is at metric 0 exactly if the table has a default with a next hop there, and then it
      is the first of those. */
  lemma PreferredAtZero(table: seq<Route>)
    ensures var p := Preferred(Listed(table));
            if p.Some? && p.value.EffectiveMetric() == 0 then exists k: nat :: FirstAtStake(table, k) && p.value == Show(table[k])
            else forall k: nat :: !FirstAtStake(table, k)
  {
    hide Preferred, Listed, FirstAtStake;
    PreferredIsLeast(Listed(table));
    FirstZeroOfTable(table);
    if Preferred(Listed(table)).Some? {
      var k: nat :| FirstOfLeast(Listed(table), k) && Listed(table)[k] == Preferred(Listed(table)).value;
      FirstZeroIsPreferred(Listed(table), k);
    }
  }

  /** A delete really can take our own entry away: here the only metric-0 default left carries no proto. */
  lemma OwnEntryCanBeDeleted(gateway: Address, interface: string)
    ensures var lookAlike := Route(Some(gateway), interface, 0, None);
            InstallDefault([lookAlike], false, gateway, interface, Shell(true, 0, true, {})).0 == [lookAlike]
  {
    var lookAlike := Route(Some(gateway), interface, 0, None);
    var replaced := Replace([lookAlike], OurRoute(gateway, interface), 0);
    assert WithoutKey([lookAlike], 0, STATIC) == [lookAlike] + WithoutKey([], 0, STATIC);
    assert replaced == [OurRoute(gateway, interface), lookAlike];
    assert replaced[1..] == [lookAlike] && [lookAlike][1..] == [];
    var listing := Listed(replaced);
    assert Listed([lookAlike]) == [Show(lookAlike)];
    assert listing == [Show(OurRoute(gateway, interface)), Show(lookAlike)];
    assert RemoveCompeting(replaced, listing, 0, gateway, interface, {}) == RemoveCompeting(replaced, listing, 1, gateway, interface, {});
    assert DeleteListed(replaced, listing[1]) == [lookAlike];
    assert RemoveCompeting(replaced, listing, 1, gateway, interface, {}) == RemoveCompeting([lookAlike], listing, 2, gateway, interface, {});
  }
}
