/**
 Traffic per uplink, from forwarded packet to database row: the counting chain and its reading
 (`src/net/uplinks.rs`), counter differences (`src/net/traffic.rs`), and the rows that each traffic
 interval writes (`src/core/balancer.rs`).
 */
module Uplinks {
  import opened Basics
  import Pinning

  type Direction = Pinning.Direction

  // ── counters ──────────────────────────────────────────────────────────

  datatype IfCounters = IfCounters(rxBytes: nat, rxPackets: nat, txBytes: nat, txPackets: nat) {
    function Plus(other: IfCounters): IfCounters {
      IfCounters(rxBytes + other.rxBytes, rxPackets + other.rxPackets, txBytes + other.txBytes, txPackets + other.txPackets)
    }

    predicate Reaches(later: IfCounters) {
      rxBytes <= later.rxBytes && rxPackets <= later.rxPackets && txBytes <= later.txBytes && txPackets <= later.txPackets
    }
  }

  const NOTHING := IfCounters(0, 0, 0, 0)

  lemma PlusNothing(c: IfCounters)
    ensures c.Plus(NOTHING) == c && NOTHING.Plus(c) == c
  {
  }

  lemma PlusSwaps(a: IfCounters, b: IfCounters, c: IfCounters)
    ensures a.Plus(b) == b.Plus(a) && a.Plus(b).Plus(c) == a.Plus(b.Plus(c)) && a.Plus(b).Plus(c) == a.Plus(c).Plus(b)
  {
  }

  lemma PlusInterleaves(a: IfCounters, b: IfCounters, c: IfCounters, d: IfCounters)
    ensures a.Plus(b).Plus(c.Plus(d)) == a.Plus(c).Plus(b.Plus(d))
  {
  }

  type Reading = map<Option<u32>, IfCounters>

  function CheckedSub(a: nat, b: nat): Option<nat> {
    if b <= a then Some(a - b) else None
  }

  /** The growth between two readings; none at all when any counter went backwards. */
  function Delta(prev: IfCounters, curr: IfCounters): (r: Option<IfCounters>)
    ensures r.Some? <==> prev.Reaches(curr)
    ensures r.Some? ==> prev.Plus(r.value) == curr
  {
    var rb := CheckedSub(curr.rxBytes, prev.rxBytes);
    var rp := CheckedSub(curr.rxPackets, prev.rxPackets);
    var tb := CheckedSub(curr.txBytes, prev.txBytes);
    var tp := CheckedSub(curr.txPackets, prev.txPackets);
    if rb.Some? && rp.Some? && tb.Some? && tp.Some? then Some(IfCounters(rb.value, rp.value, tb.value, tp.value)) else None
  }

  // ── the counting chain ────────────────────────────────────────────────

  /** A rule counts one direction of the connections with one mark, or of whatever is left. */
  datatype CountingRule = CountingRule(key: Option<u32>, dir: Direction)

  datatype Packet = Packet(connmark: bv32, dir: Direction, bytes: nat)

  function Pair(key: Option<u32>): seq<CountingRule> {
    [CountingRule(key, Pinning.Original), CountingRule(key, Pinning.Reply)]
  }

  function RulesFor(marks: seq<u32>): seq<CountingRule> {
    if |marks| == 0 then Pair(None) else Pair(Some(marks[0])) + RulesFor(marks[1..])
  }

  method BuildRules(marks: seq<u32>) returns (rules: seq<CountingRule>)
    ensures rules == RulesFor(marks)
  {
    hide RulesFor, Pair;
    rules := [];
    RulesLeft(marks, 0);
    for i := 0 to |marks|
      invariant rules + RulesFor(marks[i..]) == RulesFor(marks)
    {
      RulesLeft(marks, i);
      Regroup(rules, Pair(Some(marks[i])), RulesFor(marks[i + 1..]));
      rules := PushPair(rules, Some(marks[i]));
    }
    RulesLeft(marks, |marks|);
    rules := PushPair(rules, None);
  }

  method PushPair(before: seq<CountingRule>, key: Option<u32>) returns (rules: seq<CountingRule>)
    ensures rules == before + Pair(key)
  {
    rules := before;
    var dirs := [Pinning.Original, Pinning.Reply];
    for d := 0 to 2
      invariant rules == before + Pair(key)[..d]
    {
      rules := rules + [CountingRule(key, dirs[d])];
    }
  }

  lemma RulesLeft(marks: seq<u32>, i: nat)
    requires i <= |marks|
    ensures [] + RulesFor(marks[0..]) == RulesFor(marks)
    ensures RulesFor(marks[i..]) == if i == |marks| then Pair(None) else Pair(Some(marks[i])) + RulesFor(marks[i + 1..])
  {
    assert marks[0..] == marks;
    if i < |marks| {
      assert marks[i..][1..] == marks[i + 1..];
    }
  }

  lemma Regroup<T>(a: seq<T>, b: seq<T>, c: seq<T>)
    ensures a + (b + c) == (a + b) + c
  {
  }

  predicate Matches(rule: CountingRule, mask: u32, p: Packet) {
    && rule.dir == p.dir
    && (rule.key.Some? ==> Pinning.Inside(p.connmark, Pinning.Word(mask)) == Pinning.Word(rule.key.value))
  }

  /** Every rule returns, so a packet is counted by the first that matches. */
  function FirstHit(rules: seq<CountingRule>, mask: u32, p: Packet): (k: nat)
    ensures k <= |rules|
  {
    if |rules| == 0 || Matches(rules[0], mask, p) then 0 else 1 + FirstHit(rules[1..], mask, p)
  }

  /** The counter a packet belongs to, read off its connection's mark alone. */
  function KeyOf(marks: seq<u32>, mask: u32, p: Packet): Option<u32> {
    if |marks| == 0 then None
    else if Pinning.Inside(p.connmark, Pinning.Word(mask)) == Pinning.Word(marks[0]) then Some(marks[0])
    else KeyOf(marks[1..], mask, p)
  }

  /** Every forwarded packet is counted, by one rule, in its own direction and under its own key. */
  lemma {:induction false} OneCounterPerPacket(marks: seq<u32>, mask: u32, p: Packet)
    ensures var k := FirstHit(RulesFor(marks), mask, p);
            k < |RulesFor(marks)| && RulesFor(marks)[k] == CountingRule(KeyOf(marks, mask, p), p.dir)
  {
    var rules := RulesFor(marks);
    if |marks| == 0 {
      assert rules[1..] == [CountingRule(None, Pinning.Reply)];
    } else {
      OneCounterPerPacket(marks[1..], mask, p);
      assert rules[1..] == [CountingRule(Some(marks[0]), Pinning.Reply)] + RulesFor(marks[1..]);
      assert rules[1..][1..] == RulesFor(marks[1..]);
    }
  }

  /** A marked connection is counted under its own mark and never as unmarked; every other connection is
      counted as unmarked. */
  lemma {:induction false} KeyMeaning(marks: seq<u32>, mask: u32, p: Packet, m: u32)
    ensures KeyOf(marks, mask, p) == Some(m) <==> m in marks && Pinning.Inside(p.connmark, Pinning.Word(mask)) == Pinning.Word(m)
  {
    hide Pinning.Inside, Pinning.Bits;
    if |marks| != 0 {
      KeyMeaning(marks[1..], mask, p, m);
      assert m in marks <==> m == marks[0] || m in marks[1..];
      Pinning.WordMeaning(m, marks[0]);
    }
  }

  /** Pinning and counting agree: from the moment a connection is stamped with an uplink's mark until it is
      forgotten, whatever happens to the chain meanwhile, each of its packets is counted for that uplink. */
  lemma PinnedTrafficIsCredited(marks: seq<u32>, mask: u32, t: Pinning.Tracking, hs: seq<Pinning.Happening>, conn: nat, m: u32, p: Packet)
    requires Pinning.Aimed(Pinning.Word(mask), t)
    requires m in marks && Pinning.Word(m) != 0
    requires conn in t.conns && Pinning.Inside(t.conns[conn], Pinning.Word(mask)) == Pinning.Word(m)
    requires forall k | 0 <= k < |hs| :: !Pinning.Forgets(hs[k], conn, Pinning.Word(m))
    requires p.connmark == Pinning.ConnMark(Pinning.AfterAll(Pinning.Word(mask), t, hs), conn)
    ensures var rules := RulesFor(marks);
            FirstHit(rules, mask, p) < |rules| && rules[FirstHit(rules, mask, p)] == CountingRule(Some(m), p.dir)
  {
    hide Pinning.Inside, Pinning.Bits, Pinning.AfterAll, Pinning.Aimed, RulesFor, KeyOf;
    Pinning.PinnedForLife(Pinning.Word(mask), t, hs, conn);
    KeyMeaning(marks, mask, p, m);
    OneCounterPerPacket(marks, mask, p);
  }

  // ── the kernel's tallies and their reading ────────────────────────────

  datatype Tally = Tally(packets: nat, bytes: nat)

  type Tallies = map<CountingRule, Tally>

  function KeysFor(marks: seq<u32>): seq<Option<u32>> {
    if |marks| == 0 then [None] else [Some(marks[0])] + KeysFor(marks[1..])
  }

  ghost predicate Counts(marks: seq<u32>, kernel: Tallies) {
    forall rule: CountingRule :: rule in kernel <==> rule.key in KeysFor(marks)
  }

  /** A forwarded packet adds itself to the rule it hits. */
  function Forward(marks: seq<u32>, mask: u32, kernel: Tallies, p: Packet): Tallies
    requires Counts(marks, kernel)
  {
    OneCounterPerPacket(marks, mask, p);
    var rule := RulesFor(marks)[FirstHit(RulesFor(marks), mask, p)];
    KeyListed(marks, mask, p);
    kernel[rule := Tally(kernel[rule].packets + 1, kernel[rule].bytes + p.bytes)]
  }

  lemma {:induction false} KeyListed(marks: seq<u32>, mask: u32, p: Packet)
    ensures KeyOf(marks, mask, p) in KeysFor(marks)
  {
    hide Pinning.Inside, Pinning.Bits;
    if |marks| != 0 {
      KeyListed(marks[1..], mask, p);
    }
  }

  function Both(reply: Tally, original: Tally): IfCounters {
    IfCounters(reply.bytes, reply.packets, original.bytes, original.packets)
  }

  /** Downloads are the reply direction, uploads the original one. */
  function ReadingOf(marks: seq<u32>, kernel: Tallies): Reading
    requires Counts(marks, kernel)
  {
    map key | key in KeysFor(marks) ::
      Both(kernel[CountingRule(key, Pinning.Reply)], kernel[CountingRule(key, Pinning.Original)])
  }

  /** A rule as `iptables-save -c` lists it. */
  datatype SavedRule = SavedRule(rule: CountingRule, tally: Tally)

  function Listing(rules: seq<CountingRule>, kernel: Tallies): seq<SavedRule>
    requires forall r | r in rules :: r in kernel
  {
    seq(|rules|, i requires 0 <= i < |rules| => SavedRule(rules[i], kernel[rules[i]]))
  }

  function EntryFor(out: Reading, key: Option<u32>): IfCounters {
    if key in out then out[key] else NOTHING
  }

  function Enter(out: Reading, row: SavedRule): Reading {
    var entry := EntryFor(out, row.rule.key);
    out[row.rule.key := if row.rule.dir == Pinning.Reply
                        then entry.(rxBytes := row.tally.bytes, rxPackets := row.tally.packets)
                        else entry.(txBytes := row.tally.bytes, txPackets := row.tally.packets)]
  }

  function Entered(rows: seq<SavedRule>): Reading {
    if |rows| == 0 then map[] else Enter(Entered(rows[..|rows| - 1]), rows[|rows| - 1])
  }

  method Parse(rows: seq<SavedRule>) returns (out: Reading)
    ensures out == Entered(rows)
  {
    out := map[];
    for i := 0 to |rows|
      invariant out == Entered(rows[..i])
    {
      var row := rows[i];
      var entry := if row.rule.key in out then out[row.rule.key] else NOTHING;
      match row.rule.dir {
        case Reply => entry := entry.(rxBytes := row.tally.bytes, rxPackets := row.tally.packets);
        case Original => entry := entry.(txBytes := row.tally.bytes, txPackets := row.tally.packets);
      }
      out := out[row.rule.key := entry];
      assert rows[..i + 1][..i] == rows[..i];
    }
    assert rows[..|rows|] == rows;
  }

  lemma {:induction false} RuleKeys(marks: seq<u32>, r: CountingRule)
    ensures r in RulesFor(marks) <==> r.key in KeysFor(marks)
  {
    if |marks| == 0 {
      assert r in Pair(None) <==> r.key == None by { PairMembers(None, r); }
    } else {
      RuleKeys(marks[1..], r);
      PairMembers(Some(marks[0]), r);
    }
  }

  lemma PairMembers(key: Option<u32>, r: CountingRule)
    ensures r in Pair(key) <==> r.key == key
  {
    assert Pair(key)[0] == CountingRule(key, Pinning.Original) && Pair(key)[1] == CountingRule(key, Pinning.Reply);
    if r.key == key {
      assert r == if r.dir == Pinning.Original then Pair(key)[0] else Pair(key)[1];
    }
  }

  /** Rows that agree with the kernel: what has been entered is the kernel's tally, and what has no row yet
      reads zero. */
  lemma {:induction false} EnteredAgrees(rows: seq<SavedRule>, kernel: Tallies, key: Option<u32>)
    requires forall i | 0 <= i < |rows| :: rows[i].rule in kernel && rows[i].tally == kernel[rows[i].rule]
    ensures var reply, original := CountingRule(key, Pinning.Reply), CountingRule(key, Pinning.Original);
            && (key in Entered(rows) <==> HasRow(rows, reply) || HasRow(rows, original))
            && EntryFor(Entered(rows), key) ==
               Both(if HasRow(rows, reply) then kernel[reply] else Tally(0, 0),
                    if HasRow(rows, original) then kernel[original] else Tally(0, 0))
  {
    if |rows| != 0 {
      var init := rows[..|rows| - 1];
      EnteredAgrees(init, kernel, key);
      RowAppended(rows, CountingRule(key, Pinning.Reply));
      RowAppended(rows, CountingRule(key, Pinning.Original));
    }
  }

  ghost predicate HasRow(rows: seq<SavedRule>, rule: CountingRule) {
    exists i :: 0 <= i < |rows| && rows[i].rule == rule
  }

  lemma RowAppended(rows: seq<SavedRule>, rule: CountingRule)
    requires |rows| != 0
    ensures HasRow(rows, rule) <==> HasRow(rows[..|rows| - 1], rule) || rows[|rows| - 1].rule == rule
  {
    var init := rows[..|rows| - 1];
    if HasRow(init, rule) {
      var i :| 0 <= i < |init| && init[i].rule == rule;
      assert rows[i].rule == rule;
    }
    if HasRow(rows, rule) && rows[|rows| - 1].rule != rule {
      var i :| 0 <= i < |rows| && rows[i].rule == rule;
      assert init[i].rule == rule;
    }
  }

  lemma ListedOnce(marks: seq<u32>, kernel: Tallies, rule: CountingRule)
    requires Counts(marks, kernel)
    ensures (forall r | r in RulesFor(marks) :: r in kernel)
    ensures HasRow(Listing(RulesFor(marks), kernel), rule) <==> rule.key in KeysFor(marks)
  {
    var rules := RulesFor(marks);
    forall r ensures r in rules <==> r.key in KeysFor(marks) { RuleKeys(marks, r); }
    if rule in rules {
      var i :| 0 <= i < |rules| && rules[i] == rule;
      assert Listing(rules, kernel)[i].rule == rule;
    }
  }

  /** Listing the chain and parsing the list gives the kernel's tallies back, download and upload on their
      own sides. */
  lemma ListingReadsBack(marks: seq<u32>, kernel: Tallies)
    requires Counts(marks, kernel)
    ensures (forall r | r in RulesFor(marks) :: r in kernel) && Entered(Listing(RulesFor(marks), kernel)) == ReadingOf(marks, kernel)
  {
    hide RulesFor, KeysFor, Entered, HasRow;
    ListedOnce(marks, kernel, CountingRule(None, Pinning.Reply));
    var rows := Listing(RulesFor(marks), kernel);
    forall key ensures (key in Entered(rows) <==> key in KeysFor(marks)) &&
                       (key in Entered(rows) ==> Entered(rows)[key] == ReadingOf(marks, kernel)[key])
    {
      EnteredAgrees(rows, kernel, key);
      ListedOnce(marks, kernel, CountingRule(key, Pinning.Reply));
      ListedOnce(marks, kernel, CountingRule(key, Pinning.Original));
    }
  }

  // ── one interval, per uplink ──────────────────────────────────────────

  function GrowthOf(prev: Reading, curr: Reading, key: Option<u32>): Option<IfCounters> {
    if key in prev && key in curr then Delta(prev[key], curr[key]) else None
  }

  function OrNothing(c: Option<IfCounters>): IfCounters {
    if c.Some? then c.value else NOTHING
  }

  /** The keys whose growth is credited to mark `m`: its own, and the unmarked one while it is active. */
  predicate CreditedTo(key: Option<u32>, activeMark: Option<u32>, m: u32) {
    key == Some(m) || (key == None && activeMark == Some(m))
  }

  /** The growth credited to `m` out of a set of keys. */
  ghost function Credit(prev: Reading, curr: Reading, activeMark: Option<u32>, keys: set<Option<u32>>, m: u32): Option<IfCounters> {
    var own := if Some(m) in keys then GrowthOf(prev, curr, Some(m)) else None;
    var unmarked := if None in keys && activeMark == Some(m) then GrowthOf(prev, curr, None) else None;
    if own.None? then unmarked else if unmarked.None? then own else Some(own.value.Plus(unmarked.value))
  }

  /** The per-mark split of an interval: exactly the marks with some credited growth, each with all of it. */
  ghost predicate IsSplit(out: map<u32, IfCounters>, prev: Reading, curr: Reading, activeMark: Option<u32>, keys: set<Option<u32>>) {
    forall m: u32 :: (m in out <==> Credit(prev, curr, activeMark, keys, m).Some?)
                     && (m in out ==> out[m] == Credit(prev, curr, activeMark, keys, m).value)
  }

  lemma CreditStep(prev: Reading, curr: Reading, activeMark: Option<u32>, done: set<Option<u32>>, key: Option<u32>, m: u32)
    requires key !in done
    ensures var before, after := Credit(prev, curr, activeMark, done, m), Credit(prev, curr, activeMark, done + {key}, m);
            after == if CreditedTo(key, activeMark, m) && GrowthOf(prev, curr, key).Some?
                     then Some(OrNothing(before).Plus(GrowthOf(prev, curr, key).value)) else before
  {
    hide GrowthOf;
  }

  lemma SplitSkips(out: map<u32, IfCounters>, prev: Reading, curr: Reading, activeMark: Option<u32>,
                   done: set<Option<u32>>, key: Option<u32>)
    requires key !in done && IsSplit(out, prev, curr, activeMark, done)
    requires GrowthOf(prev, curr, key).None? || (key.None? && activeMark.None?)
    ensures IsSplit(out, prev, curr, activeMark, done + {key})
  {
    hide GrowthOf, Credit;
    forall m: u32 ensures Credit(prev, curr, activeMark, done + {key}, m) == Credit(prev, curr, activeMark, done, m) {
      CreditStep(prev, curr, activeMark, done, key, m);
    }
  }

  lemma SplitGrows(out: map<u32, IfCounters>, prev: Reading, curr: Reading, activeMark: Option<u32>,
                   done: set<Option<u32>>, key: Option<u32>, mark: u32)
    requires key !in done && IsSplit(out, prev, curr, activeMark, done) && GrowthOf(prev, curr, key).Some?
    requires key == Some(mark) || (key == None && activeMark == Some(mark))
    ensures var entry := if mark in out then out[mark] else NOTHING;
            IsSplit(out[mark := entry.Plus(GrowthOf(prev, curr, key).value)], prev, curr, activeMark, done + {key})
  {
    hide GrowthOf, Credit;
    forall m: u32 ensures Credit(prev, curr, activeMark, done + {key}, m) ==
      if m == mark then Some(OrNothing(Credit(prev, curr, activeMark, done, m)).Plus(GrowthOf(prev, curr, key).value))
      else Credit(prev, curr, activeMark, done, m)
    {
      CreditStep(prev, curr, activeMark, done, key, m);
    }
  }

  /** The keys of `curr` come in hash order; the split does not depend on it. */
  method Attribute(prev: Reading, curr: Reading, activeMark: Option<u32>) returns (out: map<u32, IfCounters>)
    ensures IsSplit(out, prev, curr, activeMark, curr.Keys)
  {
    hide Credit, IsSplit;
    out := map[];
    var left := curr.Keys;
    NothingSplit(prev, curr, activeMark);
    assert curr.Keys - left == {};
    while left != {}
      invariant left <= curr.Keys
      invariant IsSplit(out, prev, curr, activeMark, curr.Keys - left)
      decreases |left|
    {
      var key :| key in left;
      ghost var done := curr.Keys - left;
      left := left - {key};
      assert curr.Keys - left == done + {key};
      if key !in prev {
        SplitSkips(out, prev, curr, activeMark, done, key);
        continue;
      }
      var d := Delta(prev[key], curr[key]);
      if d.None? {
        SplitSkips(out, prev, curr, activeMark, done, key);
        continue;
      }
      var credited := if key.Some? then key else activeMark;
      if credited.None? {
        SplitSkips(out, prev, curr, activeMark, done, key);
        continue;
      }
      SplitGrows(out, prev, curr, activeMark, done, key, credited.value);
      var entry := if credited.value in out then out[credited.value] else NOTHING;
      out := out[credited.value := entry.Plus(d.value)];
    }
    assert curr.Keys - left == curr.Keys;
  }

  lemma NothingSplit(prev: Reading, curr: Reading, activeMark: Option<u32>)
    ensures IsSplit(map[], prev, curr, activeMark, {})
  {
  }

  // ── the rows of one interval ──────────────────────────────────────────

  datatype Uplink = Uplink(name: string, iface: string, mark: u32)

  datatype Row = Row(provider: string, iface: string, delta: IfCounters)

  function UplinkRow(u: Uplink, perMark: map<u32, IfCounters>): Row {
    Row(u.name, u.iface, if u.mark in perMark then perMark[u.mark] else NOTHING)
  }

  function UplinkRows(ups: seq<Uplink>, perMark: map<u32, IfCounters>): seq<Row> {
    seq(|ups|, i requires 0 <= i < |ups| => UplinkRow(ups[i], perMark))
  }

  function Users(ups: seq<Uplink>, iface: string): nat {
    if |ups| == 0 then 0 else Users(ups[..|ups| - 1], iface) + (if ups[|ups| - 1].iface == iface then 1 else 0)
  }

  /** The rows the first `n` uplinks give rise to: one for each interface, at its first user, under that
      user's name when it has the interface to itself and under no name when it shares it. */
  function InterfaceRows(ups: seq<Uplink>, d: map<string, IfCounters>, n: nat): seq<Row>
    requires n <= |ups|
  {
    if n == 0 then []
    else
      var before := InterfaceRows(ups, d, n - 1);
      var u := ups[n - 1];
      if u.iface in d && Users(ups[..n - 1], u.iface) == 0
      then before + [Row(if Users(ups, u.iface) == 1 then u.name else "", u.iface, d[u.iface])]
      else before
  }

  /** How many uplinks use each interface. */
  ghost predicate Counted(sharing: map<string, nat>, ups: seq<Uplink>) {
    forall f :: (f in sharing <==> Users(ups, f) != 0) && (f in sharing ==> sharing[f] == Users(ups, f))
  }

  lemma CountedOneMore(sharing: map<string, nat>, ups: seq<Uplink>, i: nat)
    requires i < |ups| && Counted(sharing, ups[..i])
    ensures var f := ups[i].iface;
            Counted(sharing[f := (if f in sharing then sharing[f] else 0) + 1], ups[..i + 1])
  {
    assert ups[..i + 1][..i] == ups[..i];
  }

  method TrafficRows(ups: seq<Uplink>, ifaceDelta: map<string, IfCounters>, perMark: Option<map<u32, IfCounters>>)
    returns (rows: seq<Row>)
    ensures rows == if perMark.Some? then UplinkRows(ups, perMark.value) else InterfaceRows(ups, ifaceDelta, |ups|)
  {
    if perMark.Some? {
      return UplinkRows(ups, perMark.value);
    }
    var sharing: map<string, nat> := map[];
    for i := 0 to |ups|
      invariant Counted(sharing, ups[..i])
    {
      var f := ups[i].iface;
      CountedOneMore(sharing, ups, i);
      sharing := sharing[f := (if f in sharing then sharing[f] else 0) + 1];
    }
    assert ups[..|ups|] == ups;
    rows := [];
    var totalsWritten: set<string> := {};
    for i := 0 to |ups|
      invariant rows == InterfaceRows(ups, ifaceDelta, i)
      invariant forall f | Users(ups, f) > 1 && f in ifaceDelta :: f in totalsWritten <==> Users(ups[..i], f) != 0
    {
      var u := ups[i];
      assert ups[..i + 1][..i] == ups[..i];
      UsersGrow(ups, i, i + 1, u.iface);
      UsersGrow(ups, i + 1, |ups|, u.iface);
      assert ups[..|ups|] == ups;
      if u.iface in ifaceDelta {
        if sharing[u.iface] == 1 {
          rows := rows + [Row(u.name, u.iface, ifaceDelta[u.iface])];
        } else if u.iface !in totalsWritten {
          totalsWritten := totalsWritten + {u.iface};
          rows := rows + [Row("", u.iface, ifaceDelta[u.iface])];
        }
      }
    }
  }

  lemma {:induction false} UsersGrow(ups: seq<Uplink>, i: nat, j: nat, iface: string)
    requires i <= j <= |ups|
    ensures Users(ups[..i], iface) <= Users(ups[..j], iface)
  {
    if i < j {
      UsersGrow(ups, i, j - 1, iface);
      assert ups[..j][..j - 1] == ups[..j - 1];
    }
  }

  /** The traffic credited to an interface. */
  function IfaceTotal(rows: seq<Row>, iface: string): IfCounters {
    if |rows| == 0 then NOTHING
    else
      var before := IfaceTotal(rows[..|rows| - 1], iface);
      if rows[|rows| - 1].iface == iface then before.Plus(rows[|rows| - 1].delta) else before
  }

  lemma TotalAppended(rows: seq<Row>, row: Row, iface: string)
    ensures IfaceTotal(rows + [row], iface) ==
            if row.iface == iface then IfaceTotal(rows, iface).Plus(row.delta) else IfaceTotal(rows, iface)
  {
    assert (rows + [row])[..|rows|] == rows;
  }

  /** Without per-uplink counters every interface in use is credited exactly once, however many share it. */
  lemma {:induction false} InterfaceCreditedOnce(ups: seq<Uplink>, d: map<string, IfCounters>, n: nat, iface: string)
    requires n <= |ups|
    ensures IfaceTotal(InterfaceRows(ups, d, n), iface) ==
            if iface in d && Users(ups[..n], iface) != 0 then d[iface] else NOTHING
  {
    hide IfaceTotal;
    if n == 0 {
      NoTotal(iface);
    } else {
      InterfaceCreditedOnce(ups, d, n - 1, iface);
      assert ups[..n][..n - 1] == ups[..n - 1];
      var u := ups[n - 1];
      if u.iface in d {
        TotalAppended(InterfaceRows(ups, d, n - 1), Row(if Users(ups, u.iface) == 1 then u.name else "", u.iface, d[u.iface]), iface);
      }
    }
  }

  lemma NoTotal(iface: string)
    ensures IfaceTotal([], iface) == NOTHING
  {
  }

  /** A named row belongs to the one uplink with that interface; a row for a shared interface names no one. */
  lemma {:induction false} RowNamesSoleUser(ups: seq<Uplink>, d: map<string, IfCounters>, n: nat, k: nat)
    requires n <= |ups| && k < |InterfaceRows(ups, d, n)|
    ensures var row := InterfaceRows(ups, d, n)[k];
            && Users(ups, row.iface) != 0 && row.iface in d && row.delta == d[row.iface]
            && (Users(ups, row.iface) == 1 ==> exists i :: 0 <= i < |ups| && ups[i].iface == row.iface && ups[i].name == row.provider)
            && (Users(ups, row.iface) > 1 ==> row.provider == "")
  {
    var before := InterfaceRows(ups, d, n - 1);
    if k < |before| {
      RowNamesSoleUser(ups, d, n - 1, k);
    } else {
      var u := ups[n - 1];
      assert ups[..n][..n - 1] == ups[..n - 1];
      UsersGrow(ups, n, |ups|, u.iface);
      assert ups[..|ups|] == ups;
    }
  }

  // ── the sampling loop ─────────────────────────────────────────────────

  /** What the loop remembers, and the rows it has written. An empty reading means: no baseline yet. */
  datatype LoopState = LoopState(prev: map<string, IfCounters>, counters: Option<Reading>, rows: seq<Row>, perUplink: bool)

  /** One tick: the interface table, the chain's counters unless reading them failed, the active provider. */
  datatype Sample = Sample(snap: map<string, IfCounters>, reading: Option<Reading>, active: Option<string>)

  function MarkOf(ups: seq<Uplink>, name: string): Option<u32> {
    if |ups| == 0 then None else if ups[0].name == name then Some(ups[0].mark) else MarkOf(ups[1..], name)
  }

  function ActiveMark(ups: seq<Uplink>, active: Option<string>): Option<u32> {
    if active.Some? then MarkOf(ups, active.value) else None
  }

  ghost function PerMark(prev: Reading, curr: Reading, activeMark: Option<u32>): map<u32, IfCounters> {
    var candidates := (set key | key in curr && key.Some? :: key.value) + (if activeMark.Some? then {activeMark.value} else {});
    map m | m in candidates && Credit(prev, curr, activeMark, curr.Keys, m).Some? ::
      Credit(prev, curr, activeMark, curr.Keys, m).value
  }

  lemma SplitIsPerMark(out: map<u32, IfCounters>, prev: Reading, curr: Reading, activeMark: Option<u32>)
    requires IsSplit(out, prev, curr, activeMark, curr.Keys)
    ensures out == PerMark(prev, curr, activeMark)
  {
    forall m: u32 ensures m in out <==> m in PerMark(prev, curr, activeMark) {
      if Credit(prev, curr, activeMark, curr.Keys, m).Some? {
        assert Some(m) in curr.Keys || activeMark == Some(m);
      }
    }
  }

  function Watched(ups: seq<Uplink>): set<string> {
    set i | 0 <= i < |ups| :: ups[i].iface
  }

  function IfaceDeltas(watched: set<string>, prev: map<string, IfCounters>, snap: map<string, IfCounters>): map<string, IfCounters> {
    map f | f in watched && f in snap && f in prev && Delta(prev[f], snap[f]).Some? :: Delta(prev[f], snap[f]).value
  }

  function Remembered(watched: set<string>, prev: map<string, IfCounters>, snap: map<string, IfCounters>): map<string, IfCounters> {
    map f | f in prev.Keys + (watched * snap.Keys) :: if f in watched && f in snap then snap[f] else prev[f]
  }

  lemma NothingSampled(prev: map<string, IfCounters>, snap: map<string, IfCounters>)
    ensures IfaceDeltas({}, prev, snap) == map[] && Remembered({}, prev, snap) == prev
  {
  }

  lemma DeltasStep(done: set<string>, prev: map<string, IfCounters>, snap: map<string, IfCounters>, f: string)
    requires f !in done
    ensures var deltas := IfaceDeltas(done, prev, snap);
            IfaceDeltas(done + {f}, prev, snap) ==
            (if f in snap && f in prev && Delta(prev[f], snap[f]).Some? then deltas[f := Delta(prev[f], snap[f]).value] else deltas)
  {
    hide Delta;
  }

  lemma KnownStep(done: set<string>, prev: map<string, IfCounters>, snap: map<string, IfCounters>, f: string)
    requires f !in done
    ensures var known := Remembered(done, prev, snap);
            && (f in known <==> f in prev) && (f in prev ==> known[f] == prev[f])
            && Remembered(done + {f}, prev, snap) == (if f in snap then known[f := snap[f]] else known)
  {
  }

  ghost function RowsOf(ups: seq<Uplink>, s: LoopState, x: Sample): seq<Row> {
    if s.counters.Some? && x.reading.Some? then
      if s.counters.value == map[] then []
      else UplinkRows(ups, PerMark(s.counters.value, x.reading.value, ActiveMark(ups, x.active)))
    else InterfaceRows(ups, IfaceDeltas(Watched(ups), s.prev, x.snap), |ups|)
  }

  ghost function AfterTick(ups: seq<Uplink>, s: LoopState, x: Sample): LoopState {
    LoopState(Remembered(Watched(ups), s.prev, x.snap),
              if s.counters.None? then None else if x.reading.Some? then x.reading else Some(map[]),
              s.rows + RowsOf(ups, s, x),
              s.counters.Some? && x.reading.Some?)
  }

  class TrafficLoop {
    const ups: seq<Uplink>
    const watched: set<string>
    var prev: map<string, IfCounters>
    var counters: Option<Reading>
    var perUplink: bool
    /** The traffic table of the statistics database. */
    var rows: seq<Row>

    ghost function View(): LoopState
      reads this
    {
      LoopState(prev, counters, rows, perUplink)
    }

    /** `installed` says whether the counting chain is wanted and went in. */
    constructor (ups: seq<Uplink>, installed: bool)
      ensures this.ups == ups && watched == Watched(ups)
      ensures View() == LoopState(map[], if installed then Some(map[]) else None, [], false)
    {
      this.ups := ups;
      watched := Watched(ups);
      prev := map[];
      counters := if installed then Some(map[]) else None;
      perUplink := false;
      rows := [];
    }

    method Tick(x: Sample)
      requires watched == Watched(ups)
      modifies this
      ensures View() == AfterTick(ups, old(View()), x)
    {
      hide InterfaceRows, PerMark, IsSplit, Credit;
      var ifaceDelta := SampleInterfaces(x.snap);
      var perMark: Option<map<u32, IfCounters>> := None;
      var baselineOnly := false;
      if counters.Some? {
        if x.reading.Some? {
          var activeMark := ActiveMark(ups, x.active);
          if counters.value == map[] {
            baselineOnly := true;
          } else {
            var split := Attribute(counters.value, x.reading.value, activeMark);
            SplitIsPerMark(split, counters.value, x.reading.value, activeMark);
            perMark := Some(split);
          }
          counters := x.reading;
        } else {
          counters := Some(map[]);
        }
      }
      perUplink := perMark.Some? || baselineOnly;
      if !baselineOnly {
        var written := TrafficRows(ups, ifaceDelta, perMark);
        rows := rows + written;
      }
    }

    /** All interface differences first, each interface once, whatever order they come in. */
    method SampleInterfaces(snap: map<string, IfCounters>) returns (ifaceDelta: map<string, IfCounters>)
      modifies this`prev
      ensures ifaceDelta == IfaceDeltas(watched, old(prev), snap)
      ensures prev == Remembered(watched, old(prev), snap)
    {
      hide IfaceDeltas, Remembered, Delta;
      ifaceDelta := map[];
      var left := watched;
      assert watched - left == {};
      NothingSampled(prev, snap);
      while left != {}
        invariant left <= watched
        invariant ifaceDelta == IfaceDeltas(watched - left, old(prev), snap)
        invariant prev == Remembered(watched - left, old(prev), snap)
        decreases |left|
      {
        var f :| f in left;
        DeltasStep(watched - left, old(prev), snap, f);
        KnownStep(watched - left, old(prev), snap, f);
        assert watched - (left - {f}) == (watched - left) + {f};
        left := left - {f};
        if f !in snap {
          continue;
        }
        if f in prev {
          var d := Delta(prev[f], snap[f]);
          if d.Some? {
            ifaceDelta := ifaceDelta[f := d.value];
          }
        }
        prev := prev[f := snap[f]];
      }
      assert watched - left == watched;
    }
  }

  // ── conservation, per uplink ──────────────────────────────────────────

  function MarksOf(ups: seq<Uplink>): seq<u32> {
    if |ups| == 0 then [] else [ups[0].mark] + MarksOf(ups[1..])
  }

  function RowsTotal(rows: seq<Row>): IfCounters {
    if |rows| == 0 then NOTHING else rows[0].delta.Plus(RowsTotal(rows[1..]))
  }

  ghost predicate SameKeys(marks: seq<u32>, r: Reading) {
    forall key :: key in r <==> key in KeysFor(marks)
  }

  function ReadingTotal(keys: seq<Option<u32>>, r: Reading): IfCounters {
    if |keys| == 0 then NOTHING else EntryFor(r, keys[0]).Plus(ReadingTotal(keys[1..], r))
  }

  ghost predicate NoReset(prev: Reading, curr: Reading) {
    forall key | key in prev && key in curr :: prev[key].Reaches(curr[key])
  }

  lemma PerMarkMeaning(prev: Reading, curr: Reading, activeMark: Option<u32>, m: u32)
    ensures (if m in PerMark(prev, curr, activeMark) then PerMark(prev, curr, activeMark)[m] else NOTHING) ==
            OrNothing(Credit(prev, curr, activeMark, curr.Keys, m))
  {
    hide GrowthOf;
    if Credit(prev, curr, activeMark, curr.Keys, m).Some? {
      assert Some(m) in curr.Keys || activeMark == Some(m);
    }
  }

  lemma CreditMeaning(prev: Reading, curr: Reading, activeMark: Option<u32>, m: u32)
    ensures OrNothing(Credit(prev, curr, activeMark, curr.Keys, m)) ==
            OrNothing(GrowthOf(prev, curr, Some(m)))
            .Plus(if activeMark == Some(m) then OrNothing(GrowthOf(prev, curr, None)) else NOTHING)
  {
    hide Delta, IfCounters.Plus;
    PlusNothing(OrNothing(GrowthOf(prev, curr, Some(m))));
    PlusNothing(OrNothing(GrowthOf(prev, curr, None)));
  }

  /** Each row of an interval is its uplink's own growth, plus the unmarked growth for the active one. */
  lemma RowIsItsShare(ups: seq<Uplink>, prev: Reading, curr: Reading, activeMark: Option<u32>, k: nat)
    requires k < |ups|
    ensures UplinkRows(ups, PerMark(prev, curr, activeMark))[k].delta ==
            OrNothing(GrowthOf(prev, curr, Some(ups[k].mark)))
            .Plus(if activeMark == Some(ups[k].mark) then OrNothing(GrowthOf(prev, curr, None)) else NOTHING)
  {
    hide GrowthOf, PerMark, Credit;
    PerMarkMeaning(prev, curr, activeMark, ups[k].mark);
    CreditMeaning(prev, curr, activeMark, ups[k].mark);
  }

  /** What a counter grew by between two readings: nothing if either lacks it or it went backwards. */
  ghost predicate IsGrowth(prev: Reading, curr: Reading, key: Option<u32>, g: IfCounters) {
    if key in prev && key in curr && prev[key].Reaches(curr[key]) then prev[key].Plus(g) == curr[key] else g == NOTHING
  }

  lemma GrowthIsGrowth(prev: Reading, curr: Reading, key: Option<u32>)
    ensures IsGrowth(prev, curr, key, OrNothing(GrowthOf(prev, curr, key)))
  {
    hide IfCounters.Plus;
  }

  ghost predicate AllNamed(ups: seq<Uplink>) {
    forall i, j | 0 <= i < j < |ups| :: ups[i].name != ups[j].name && ups[i].mark != ups[j].mark
  }

  lemma {:induction false} MarkOfNamed(ups: seq<Uplink>, k: nat, name: string)
    requires AllNamed(ups) && k < |ups|
    ensures MarkOf(ups, name) == Some(ups[k].mark) <==> name == ups[k].name
  {
    if |ups| > 1 {
      assert forall i | 0 <= i < |ups| - 1 :: ups[1..][i] == ups[i + 1];
      if k != 0 {
        assert ups[0].name != ups[k].name && ups[0].mark != ups[k].mark;
        MarkOfNamed(ups[1..], k - 1, name);
      } else {
        MarkElsewhere(ups[1..], name, ups[0].mark);
      }
    }
  }

  lemma {:induction false} MarkElsewhere(ups: seq<Uplink>, name: string, mark: u32)
    requires forall i | 0 <= i < |ups| :: ups[i].mark != mark
    ensures MarkOf(ups, name) != Some(mark)
  {
    if |ups| != 0 {
      MarkElsewhere(ups[1..], name, mark);
    }
  }

  /** A tick with a baseline and a good reading writes one row per uplink, in order: its name, its interface, its own
      growth, and on top of that the unmarked growth exactly if it is the active one. The tick is flagged as told
      apart. */
  lemma UplinkRowsExactly(ups: seq<Uplink>, s: LoopState, x: Sample, k: nat)
    requires AllNamed(ups) && k < |ups| && x.reading.Some? && s.counters.Some? && s.counters.value != map[]
    ensures var rows, last, curr := RowsOf(ups, s, x), s.counters.value, x.reading.value;
            && |rows| == |ups| && rows[k].provider == ups[k].name && rows[k].iface == ups[k].iface
            && AfterTick(ups, s, x).rows == s.rows + rows && AfterTick(ups, s, x).perUplink
            && exists own, unmarked ::
                 && IsGrowth(last, curr, Some(ups[k].mark), own) && IsGrowth(last, curr, None, unmarked)
                 && rows[k].delta == if x.active == Some(ups[k].name) then own.Plus(unmarked) else own
  {
    hide PerMark, GrowthOf, MarkOf, Remembered, IfCounters.Plus, AllNamed;
    var last, curr, mark := s.counters.value, x.reading.value, ActiveMark(ups, x.active);
    RowIsItsShare(ups, last, curr, mark, k);
    GrowthIsGrowth(last, curr, Some(ups[k].mark));
    GrowthIsGrowth(last, curr, None);
    PlusNothing(OrNothing(GrowthOf(last, curr, Some(ups[k].mark))));
    if x.active.Some? {
      MarkOfNamed(ups, k, x.active.value);
    }
  }

  /** The first good reading after a start or a failed one writes nothing; then, too, the tick counts as told apart. */
  lemma BaselineWritesNothing(ups: seq<Uplink>, s: LoopState, x: Sample)
    requires s.counters == Some(map[]) && x.reading.Some?
    ensures var after := AfterTick(ups, s, x);
            after.rows == s.rows && after.counters == x.reading && after.perUplink
  {
    hide Remembered;
  }

  /** A tick that cannot tell uplinks apart credits each watched interface with its growth since it was last seen. */
  lemma FallbackRowsExactly(ups: seq<Uplink>, s: LoopState, x: Sample, iface: string)
    requires s.counters.None? || x.reading.None?
    ensures var rows, after := RowsOf(ups, s, x), AfterTick(ups, s, x);
            && after.rows == s.rows + rows && !after.perUplink
            && (s.counters.Some? ==> after.counters == Some(map[]))
            && (if Users(ups, iface) != 0 && iface in x.snap && iface in s.prev && s.prev[iface].Reaches(x.snap[iface])
                then s.prev[iface].Plus(IfaceTotal(rows, iface)) == x.snap[iface]
                else IfaceTotal(rows, iface) == NOTHING)
  {
    hide InterfaceRows, IfaceTotal, Users, Remembered, IfCounters.Plus;
    InterfaceCreditedOnce(ups, IfaceDeltas(Watched(ups), s.prev, x.snap), |ups|, iface);
    assert ups[..|ups|] == ups;
    UsersAreWatched(ups, iface);
  }

  lemma {:induction false} UsersAreWatched(ups: seq<Uplink>, iface: string)
    ensures Users(ups, iface) != 0 <==> iface in Watched(ups)
  {
    if |ups| != 0 {
      var n := |ups| - 1;
      UsersAreWatched(ups[..n], iface);
      assert Watched(ups) == Watched(ups[..n]) + {ups[n].iface};
    }
  }

  function OwnGrowth(ups: seq<Uplink>, prev: Reading, curr: Reading): IfCounters {
    if |ups| == 0 then NOTHING else OrNothing(GrowthOf(prev, curr, Some(ups[0].mark))).Plus(OwnGrowth(ups[1..], prev, curr))
  }

  predicate IsAmong(mark: Option<u32>, marks: seq<u32>) {
    mark.Some? && mark.value in marks
  }

  lemma DistinctTail(ups: seq<Uplink>)
    requires |ups| != 0 && AllDiffer(MarksOf(ups))
    ensures AllDiffer(MarksOf(ups[1..])) && ups[0].mark !in MarksOf(ups[1..])
    ensures forall m :: m in MarksOf(ups) <==> m == ups[0].mark || m in MarksOf(ups[1..])
  {
    hide AllDiffer;
    TailDiffers(ups[0].mark, MarksOf(ups[1..]));
  }

  lemma {:induction false} RowsTotalIs(ups: seq<Uplink>, prev: Reading, curr: Reading, activeMark: Option<u32>)
    requires AllDiffer(MarksOf(ups))
    ensures RowsTotal(UplinkRows(ups, PerMark(prev, curr, activeMark))) ==
            OwnGrowth(ups, prev, curr)
            .Plus(if IsAmong(activeMark, MarksOf(ups)) then OrNothing(GrowthOf(prev, curr, None)) else NOTHING)
  {
    hide GrowthOf, PerMark, AllDiffer, IfCounters.Plus;
    PlusNothing(NOTHING);
    if |ups| != 0 {
      var rows := UplinkRows(ups, PerMark(prev, curr, activeMark));
      assert rows[1..] == UplinkRows(ups[1..], PerMark(prev, curr, activeMark));
      RowIsItsShare(ups, prev, curr, activeMark, 0);
      DistinctTail(ups);
      RowsTotalIs(ups[1..], prev, curr, activeMark);
      assert IsAmong(activeMark, MarksOf(ups)) <==> activeMark == Some(ups[0].mark) || IsAmong(activeMark, MarksOf(ups[1..]));
      var unmarked := OrNothing(GrowthOf(prev, curr, None));
      PlusInterleaves(OrNothing(GrowthOf(prev, curr, Some(ups[0].mark))),
                      if activeMark == Some(ups[0].mark) then unmarked else NOTHING,
                      OwnGrowth(ups[1..], prev, curr),
                      if IsAmong(activeMark, MarksOf(ups[1..])) then unmarked else NOTHING);
      PlusNothing(unmarked);
    }
  }

  lemma GrowthFits(prev: Reading, curr: Reading, key: Option<u32>)
    requires key in prev && key in curr && NoReset(prev, curr)
    ensures EntryFor(prev, key).Plus(OrNothing(GrowthOf(prev, curr, key))) == EntryFor(curr, key)
  {
    hide Delta;
    assert prev[key].Reaches(curr[key]);
    assert Delta(prev[key], curr[key]).Some?;
  }

  lemma {:induction false} OwnGrowthFits(ups: seq<Uplink>, prev: Reading, curr: Reading)
    requires forall key | key in KeysFor(MarksOf(ups)) :: key in prev && key in curr
    requires NoReset(prev, curr)
    ensures var keys := KeysFor(MarksOf(ups));
            ReadingTotal(keys, prev).Plus(OwnGrowth(ups, prev, curr)).Plus(OrNothing(GrowthOf(prev, curr, None))) ==
            ReadingTotal(keys, curr)
  {
    hide GrowthOf, EntryFor, NoReset;
    var keys := KeysFor(MarksOf(ups));
    assert keys[0] in keys;
    GrowthFits(prev, curr, keys[0]);
    if |ups| != 0 {
      assert MarksOf(ups)[1..] == MarksOf(ups[1..]);
      assert keys[1..] == KeysFor(MarksOf(ups[1..]));
      forall key | key in keys[1..] ensures key in prev && key in curr { assert key in keys; }
      OwnGrowthFits(ups[1..], prev, curr);
    }
  }

  /** The unmarked growth of an interval that nothing was active to receive. */
  function Uncredited(ups: seq<Uplink>, prev: Reading, curr: Reading, activeMark: Option<u32>): IfCounters {
    if IsAmong(activeMark, MarksOf(ups)) then NOTHING else OrNothing(GrowthOf(prev, curr, None))
  }

  /** One interval: what its rows say, plus what no one was there to receive, is what the counters grew by. */
  lemma IntervalConserved(ups: seq<Uplink>, prev: Reading, curr: Reading, activeMark: Option<u32>)
    requires AllDiffer(MarksOf(ups)) && NoReset(prev, curr)
    requires SameKeys(MarksOf(ups), prev) && SameKeys(MarksOf(ups), curr)
    ensures var keys := KeysFor(MarksOf(ups));
            ReadingTotal(keys, prev)
            .Plus(RowsTotal(UplinkRows(ups, PerMark(prev, curr, activeMark))))
            .Plus(Uncredited(ups, prev, curr, activeMark)) == ReadingTotal(keys, curr)
  {
    hide GrowthOf, ReadingTotal, RowsTotal, OwnGrowth, PerMark, NoReset, AllDiffer, IfCounters.Plus, UplinkRows;
    RowsTotalIs(ups, prev, curr, activeMark);
    OwnGrowthFits(ups, prev, curr);
    var before, own, unmarked := ReadingTotal(KeysFor(MarksOf(ups)), prev), OwnGrowth(ups, prev, curr), OrNothing(GrowthOf(prev, curr, None));
    PlusSwaps(before, own, unmarked);
    PlusNothing(own);
    PlusNothing(unmarked);
    PlusNothing(before.Plus(own.Plus(unmarked)));
  }

  // ── conservation, from packets to rows ────────────────────────────────

  /** The kernel's tallies and the loop; the traffic that per-uplink rows hold, the unmarked traffic read while
      nothing was active, the traffic that only a new baseline covered, and the traffic since the last good reading. */
  datatype World = World(kernel: Tallies, loop: LoopState, written: IfCounters, uncredited: IfCounters,
                         missed: IfCounters, since: IfCounters)

  /** A packet is forwarded; the loop samples the counters; or it finds them gone, and the chain is put back with
      whatever tallies. */
  datatype Event =
    | Forwarded(p: Packet)
    | Sampled(snap: map<string, IfCounters>, active: Option<string>)
    | Unreadable(snap: map<string, IfCounters>, active: Option<string>, rebuilt: Tallies)

  function AsCounters(p: Packet): IfCounters {
    match p.dir
    case Reply => IfCounters(p.bytes, 1, 0, 0)
    case Original => IfCounters(0, 0, p.bytes, 1)
  }

  ghost function Follow(ups: seq<Uplink>, mask: u32, w: World, e: Event): World
    requires Counts(MarksOf(ups), w.kernel) && w.loop.counters.Some?
  {
    match e
    case Forwarded(p) =>
      w.(kernel := Forward(MarksOf(ups), mask, w.kernel, p), since := w.since.Plus(AsCounters(p)))
    case Unreadable(snap, active, rebuilt) =>
      w.(loop := AfterTick(ups, w.loop, Sample(snap, None, active)),
         kernel := if Counts(MarksOf(ups), rebuilt) then rebuilt else w.kernel)
    case Sampled(snap, active) =>
      var reading := ReadingOf(MarksOf(ups), w.kernel);
      var x := Sample(snap, Some(reading), active);
      var last := w.loop.counters.value;
      if last == map[] then w.(loop := AfterTick(ups, w.loop, x), missed := w.missed.Plus(w.since), since := NOTHING)
      else
        w.(loop := AfterTick(ups, w.loop, x), written := w.written.Plus(RowsTotal(RowsOf(ups, w.loop, x))),
           uncredited := w.uncredited.Plus(Uncredited(ups, last, reading, ActiveMark(ups, active))), since := NOTHING)
  }

  /** What the last good reading left to be read is what was forwarded since. */
  ghost predicate WorldOk(ups: seq<Uplink>, w: World) {
    && Counts(MarksOf(ups), w.kernel) && w.loop.counters.Some?
    && (w.loop.counters.value != map[] ==>
        var last, reading, keys := w.loop.counters.value, ReadingOf(MarksOf(ups), w.kernel), KeysFor(MarksOf(ups));
        && SameKeys(MarksOf(ups), last) && NoReset(last, reading)
        && ReadingTotal(keys, last).Plus(w.since) == ReadingTotal(keys, reading))
  }

  lemma {:induction false} KeysDistinct(marks: seq<u32>)
    requires AllDiffer(marks)
    ensures AllDiffer(KeysFor(marks)) && forall m: u32 :: Some(m) in KeysFor(marks) <==> m in marks
  {
    hide AllDiffer;
    if |marks| == 0 {
      OneKey();
    } else {
      assert marks == [marks[0]] + marks[1..];
      TailDiffers(marks[0], marks[1..]);
      KeysDistinct(marks[1..]);
      TailDiffers(Some(marks[0]), KeysFor(marks[1..]));
    }
  }

  lemma OneKey()
    ensures AllDiffer(KeysFor([])) && KeysFor([]) == [None]
  {
  }

  lemma {:induction false} TotalUnchanged(keys: seq<Option<u32>>, r: Reading, key: Option<u32>, entry: IfCounters)
    requires key !in keys
    ensures ReadingTotal(keys, r[key := entry]) == ReadingTotal(keys, r)
  {
    if |keys| != 0 {
      TotalUnchanged(keys[1..], r, key, entry);
    }
  }

  lemma {:induction false} TotalBumped(keys: seq<Option<u32>>, r: Reading, key: Option<u32>, d: IfCounters)
    requires AllDiffer(keys) && key in keys
    ensures ReadingTotal(keys, r[key := EntryFor(r, key).Plus(d)]) == ReadingTotal(keys, r).Plus(d)
  {
    hide IfCounters.Plus, AllDiffer;
    assert keys == [keys[0]] + keys[1..];
    TailDiffers(keys[0], keys[1..]);
    var bumped := r[key := EntryFor(r, key).Plus(d)];
    if keys[0] == key {
      assert key !in keys[1..];
      TotalUnchanged(keys[1..], r, key, EntryFor(r, key).Plus(d));
      PlusSwaps(EntryFor(r, key), d, ReadingTotal(keys[1..], r));
    } else {
      TotalBumped(keys[1..], r, key, d);
      assert EntryFor(bumped, keys[0]) == EntryFor(r, keys[0]);
      PlusSwaps(EntryFor(r, keys[0]), ReadingTotal(keys[1..], r), d);
    }
  }

  /** Forwarding a packet moves one entry of the reading, by the packet and in its direction. */
  lemma ForwardReads(marks: seq<u32>, mask: u32, kernel: Tallies, p: Packet)
    requires Counts(marks, kernel)
    ensures var after, key := Forward(marks, mask, kernel, p), KeyOf(marks, mask, p);
            && Counts(marks, after) && key in KeysFor(marks)
            && ReadingOf(marks, after) ==
               ReadingOf(marks, kernel)[key := EntryFor(ReadingOf(marks, kernel), key).Plus(AsCounters(p))]
  {
    hide KeysFor, RulesFor, FirstHit, KeyOf;
    OneCounterPerPacket(marks, mask, p);
    KeyListed(marks, mask, p);
  }

  lemma {:induction false} RowsTotalConcat(a: seq<Row>, b: seq<Row>)
    ensures RowsTotal(a + b) == RowsTotal(a).Plus(RowsTotal(b))
  {
    hide IfCounters.Plus;
    if |a| == 0 {
      assert a + b == b;
      PlusNothing(RowsTotal(b));
    } else {
      assert (a + b)[1..] == a[1..] + b;
      RowsTotalConcat(a[1..], b);
      PlusSwaps(a[0].delta, RowsTotal(a[1..]), RowsTotal(b));
    }
  }

  lemma ForwardKeepsOk(ups: seq<Uplink>, mask: u32, w: World, p: Packet)
    requires AllDiffer(MarksOf(ups)) && WorldOk(ups, w)
    ensures WorldOk(ups, Follow(ups, mask, w, Forwarded(p)))
  {
    hide KeysFor, KeyOf, AllDiffer, Forward, AsCounters, ReadingTotal, ReadingOf, IfCounters.Plus;
    var marks := MarksOf(ups);
    ForwardReads(marks, mask, w.kernel, p);
    KeysDistinct(marks);
    var reading, key := ReadingOf(marks, w.kernel), KeyOf(marks, mask, p);
    assert key in reading by { ReadingKeys(marks, w.kernel); }
    TotalBumped(KeysFor(marks), reading, key, AsCounters(p));
    if w.loop.counters.value != map[] {
      BumpIsNoReset(w.loop.counters.value, reading, key, AsCounters(p));
      PlusSwaps(ReadingTotal(KeysFor(marks), w.loop.counters.value), w.since, AsCounters(p));
    }
  }

  lemma ReadingKeys(marks: seq<u32>, kernel: Tallies)
    requires Counts(marks, kernel)
    ensures SameKeys(marks, ReadingOf(marks, kernel))
  {
  }

  lemma BumpIsNoReset(last: Reading, reading: Reading, key: Option<u32>, d: IfCounters)
    requires NoReset(last, reading) && key in reading
    ensures NoReset(last, reading[key := EntryFor(reading, key).Plus(d)])
  {
  }

  lemma SampleKeepsOk(ups: seq<Uplink>, mask: u32, w: World, snap: map<string, IfCounters>, active: Option<string>)
    requires WorldOk(ups, w)
    ensures WorldOk(ups, Follow(ups, mask, w, Sampled(snap, active)))
  {
    hide KeysFor, ReadingTotal, RowsTotal, IfCounters.Plus, Remembered, RowsOf, Uncredited, ReadingOf;
    var reading := ReadingOf(MarksOf(ups), w.kernel);
    ReadingKeys(MarksOf(ups), w.kernel);
    PlusNothing(ReadingTotal(KeysFor(MarksOf(ups)), reading));
    NoGrowthResets(reading);
  }

  lemma NoGrowthResets(r: Reading)
    ensures NoReset(r, r)
  {
  }

  lemma FollowKeepsOk(ups: seq<Uplink>, mask: u32, w: World, e: Event)
    requires AllDiffer(MarksOf(ups)) && WorldOk(ups, w)
    ensures WorldOk(ups, Follow(ups, mask, w, e))
  {
    match e {
      case Forwarded(p) =>
        hide Follow;
        ForwardKeepsOk(ups, mask, w, p);
      case Sampled(snap, active) =>
        hide Follow;
        SampleKeepsOk(ups, mask, w, snap, active);
      case Unreadable(_, _, _) =>
        hide Counts, Remembered, RowsOf;
    }
  }

  ghost function FollowAll(ups: seq<Uplink>, mask: u32, w: World, es: seq<Event>): (r: World)
    requires AllDiffer(MarksOf(ups)) && WorldOk(ups, w)
    ensures WorldOk(ups, r)
  {
    if |es| == 0 then w
    else
      var before := FollowAll(ups, mask, w, es[..|es| - 1]);
      FollowKeepsOk(ups, mask, before, es[|es| - 1]);
      Follow(ups, mask, before, es[|es| - 1])
  }

  /** The traffic of a run. */
  function Sent(es: seq<Event>): IfCounters {
    if |es| == 0 then NOTHING
    else
      var last := es[|es| - 1];
      if last.Forwarded? then Sent(es[..|es| - 1]).Plus(AsCounters(last.p)) else Sent(es[..|es| - 1])
  }

  function Accounted(w: World): IfCounters {
    w.written.Plus(w.uncredited).Plus(w.missed).Plus(w.since)
  }

  lemma MoveSince(w: World, rows: IfCounters, lost: IfCounters)
    requires rows.Plus(lost) == w.since
    ensures w.written.Plus(rows).Plus(w.uncredited.Plus(lost)).Plus(w.missed).Plus(NOTHING) == Accounted(w)
    ensures w.written.Plus(w.uncredited).Plus(w.missed.Plus(w.since)).Plus(NOTHING) == Accounted(w)
  {
  }

  lemma CancelPlus(a: IfCounters, b: IfCounters, c: IfCounters, d: IfCounters)
    requires a.Plus(b).Plus(c) == a.Plus(d)
    ensures b.Plus(c) == d
  {
  }

  lemma SampleAccounts(ups: seq<Uplink>, mask: u32, w: World, snap: map<string, IfCounters>, active: Option<string>)
    requires AllDiffer(MarksOf(ups)) && WorldOk(ups, w)
    ensures Accounted(Follow(ups, mask, w, Sampled(snap, active))) == Accounted(w)
  {
    hide KeysFor, ReadingTotal, RowsTotal, IfCounters.Plus, Remembered, Uncredited, ReadingOf, InterfaceRows, UplinkRows, PerMark, AllDiffer, NoReset, ActiveMark;
    var reading, last := ReadingOf(MarksOf(ups), w.kernel), w.loop.counters.value;
    if last == map[] {
      PlusNothing(w.since);
      MoveSince(w, w.since, NOTHING);
    } else {
      var mark := ActiveMark(ups, active);
      var rows, lost := RowsTotal(UplinkRows(ups, PerMark(last, reading, mark))), Uncredited(ups, last, reading, mark);
      ReadingKeys(MarksOf(ups), w.kernel);
      IntervalConserved(ups, last, reading, mark);
      CancelPlus(ReadingTotal(KeysFor(MarksOf(ups)), last), rows, lost, w.since);
      MoveSince(w, rows, lost);
    }
  }

  ghost function BeforeBaseline(kernel: Tallies): World {
    World(kernel, LoopState(map[], Some(map[]), [], false), NOTHING, NOTHING, NOTHING, NOTHING)
  }

  /** Over any interleaving of forwarded packets, good samples and samples that found the chain gone, from the moment
      the loop starts: every byte and packet forwarded is in exactly one place. It is in a per-uplink row, or was
      unmarked and read while nothing was active, or was covered only by the baseline that a start or a lost chain
      makes necessary, or came after the last good sample. */
  lemma {:induction false} TrafficConserved(ups: seq<Uplink>, mask: u32, kernel: Tallies, es: seq<Event>)
    requires AllDiffer(MarksOf(ups)) && Counts(MarksOf(ups), kernel)
    ensures var w := FollowAll(ups, mask, BeforeBaseline(kernel), es);
            && w.written.Plus(w.uncredited).Plus(w.missed).Plus(w.since) == Sent(es)
            && (|es| != 0 && es[|es| - 1].Sampled? ==> w.since == NOTHING)
  {
    hide IfCounters.Plus, AllDiffer, AfterTick, Forward, Uncredited, RowsOf, RowsTotal, ReadingOf, Counts;
    if |es| == 0 {
      PlusNothing(NOTHING);
    } else {
      var init, e := es[..|es| - 1], es[|es| - 1];
      TrafficConserved(ups, mask, kernel, init);
      var w := FollowAll(ups, mask, BeforeBaseline(kernel), init);
      match e {
        case Forwarded(p) => PlusSwaps(w.written.Plus(w.uncredited).Plus(w.missed), w.since, AsCounters(p));
        case Sampled(snap, active) => SampleAccounts(ups, mask, w, snap, active);
        case Unreadable(_, _, _) =>
      }
    }
  }

  lemma {:induction false} ConfiguredHasMark(ups: seq<Uplink>, name: string, k: nat)
    requires k < |ups| && ups[k].name == name
    ensures IsAmong(MarkOf(ups, name), MarksOf(ups))
  {
    if ups[0].name != name {
      ConfiguredHasMark(ups[1..], name, k - 1);
    }
  }

  /** Every sample is good and finds a configured provider active. */
  ghost predicate AlwaysActive(ups: seq<Uplink>, es: seq<Event>) {
    && (forall i | 0 <= i < |es| && es[i].Sampled? :: es[i].active.Some? && exists k :: 0 <= k < |ups| && ups[k].name == es[i].active.value)
    && (forall i | 0 <= i < |es| :: !es[i].Unreadable?)
  }

  lemma ActiveSample(ups: seq<Uplink>, mask: u32, w: World, snap: map<string, IfCounters>, name: string)
    requires WorldOk(ups, w) && w.loop.counters.value != map[] && w.uncredited == NOTHING
    requires RowsTotal(w.loop.rows) == w.written && IsAmong(MarkOf(ups, name), MarksOf(ups))
    ensures var after := Follow(ups, mask, w, Sampled(snap, Some(name)));
            after.uncredited == NOTHING && RowsTotal(after.loop.rows) == after.written && after.missed == w.missed
  {
    hide IfCounters.Plus, RowsTotal, RowsOf, ReadingOf, Remembered, GrowthOf, IsAmong, Counts;
    RowsTotalConcat(w.loop.rows, RowsOf(ups, w.loop, Sample(snap, Some(ReadingOf(MarksOf(ups), w.kernel)), Some(name))));
    PlusNothing(NOTHING);
  }

  lemma SampledIsBaseline(ups: seq<Uplink>, mask: u32, w: World, snap: map<string, IfCounters>, active: Option<string>)
    requires WorldOk(ups, w)
    ensures Follow(ups, mask, w, Sampled(snap, active)).loop.counters.value != map[]
  {
    UnmarkedIsKey(MarksOf(ups));
    assert None in ReadingOf(MarksOf(ups), w.kernel);
  }

  lemma UnmarkedIsKey(marks: seq<u32>)
    ensures None in KeysFor(marks)
  {
    if |marks| != 0 {
      UnmarkedIsKey(marks[1..]);
    }
  }

  lemma FirstSample(ups: seq<Uplink>, mask: u32, kernel: Tallies, snap: map<string, IfCounters>, active: Option<string>)
    requires Counts(MarksOf(ups), kernel)
    ensures var w := Follow(ups, mask, BeforeBaseline(kernel), Sampled(snap, active));
            && w.uncredited == NOTHING && w.missed == NOTHING && RowsTotal(w.loop.rows) == w.written && w.loop.counters.Some?
            && w.loop.counters.value != map[]
  {
    hide ReadingOf, Remembered, IfCounters.Plus, UplinkRows, InterfaceRows, PerMark, IfaceDeltas, RowsTotal, Counts, ActiveMark, Uncredited;
    SampledIsBaseline(ups, mask, BeforeBaseline(kernel), snap, active);
    PlusNothing(NOTHING);
    NoRowsTotal();
    assert Follow(ups, mask, BeforeBaseline(kernel), Sampled(snap, active)).loop.rows == [];
  }

  lemma NoRowsTotal()
    ensures RowsTotal([]) == NOTHING
  {
  }

  /** From the first sample on, as long as every sample is good and finds a configured provider active, nothing is
      lost: at each sample the rows are exactly the traffic. */
  lemma {:induction false} NothingLostWhileActive(ups: seq<Uplink>, mask: u32, kernel: Tallies, es: seq<Event>)
    requires AllDiffer(MarksOf(ups)) && Counts(MarksOf(ups), kernel) && AlwaysActive(ups, es)
    requires |es| != 0 && es[0].Sampled?
    ensures var w := FollowAll(ups, mask, BeforeBaseline(kernel), es);
            && w.uncredited == NOTHING && w.missed == NOTHING && RowsTotal(w.loop.rows) == w.written && w.loop.counters.value != map[]
            && (es[|es| - 1].Sampled? ==> RowsTotal(w.loop.rows) == Sent(es))
  {
    hide Follow, IfCounters.Plus, AllDiffer, RowsTotal, NoReset, SameKeys, ReadingTotal, ReadingOf;
    TrafficConserved(ups, mask, kernel, es);
    var init, e := es[..|es| - 1], es[|es| - 1];
    if |es| == 1 {
      assert FollowAll(ups, mask, BeforeBaseline(kernel), init) == BeforeBaseline(kernel);
      FirstSample(ups, mask, kernel, e.snap, e.active);
    } else {
      NothingLostWhileActive(ups, mask, kernel, init);
      var w := FollowAll(ups, mask, BeforeBaseline(kernel), init);
      assert !e.Unreadable?;
      if e.Sampled? {
        var k :| 0 <= k < |ups| && ups[k].name == e.active.value;
        ConfiguredHasMark(ups, e.active.value, k);
        ActiveSample(ups, mask, w, e.snap, e.active.value);
        SampledIsBaseline(ups, mask, w, e.snap, e.active);
      } else {
        ForwardedLeavesRows(ups, mask, w, e.p);
      }
    }
    var w := FollowAll(ups, mask, BeforeBaseline(kernel), es);
    PlusNothing(w.written);
  }

  lemma ForwardedLeavesRows(ups: seq<Uplink>, mask: u32, w: World, p: Packet)
    requires WorldOk(ups, w)
    ensures var after := Follow(ups, mask, w, Forwarded(p));
            after.loop == w.loop && after.written == w.written && after.uncredited == w.uncredited && after.missed == w.missed
  {
  }

  // ── conservation, per interface ───────────────────────────────────────

  ghost function AfterTicks(ups: seq<Uplink>, s: LoopState, xs: seq<Sample>): LoopState {
    if |xs| == 0 then s else AfterTick(ups, AfterTicks(ups, s, xs[..|xs| - 1]), xs[|xs| - 1])
  }

  lemma {:induction false} IfaceTotalConcat(a: seq<Row>, b: seq<Row>, iface: string)
    ensures IfaceTotal(a + b, iface) == IfaceTotal(a, iface).Plus(IfaceTotal(b, iface))
  {
    hide IfCounters.Plus;
    if |b| == 0 {
      assert a + b == a;
      PlusNothing(IfaceTotal(a, iface));
    } else {
      var init, last := b[..|b| - 1], b[|b| - 1];
      IfaceTotalConcat(a, init, iface);
      assert a + b == (a + init) + [last];
      TotalAppended(a + init, last, iface);
      PlusSwaps(IfaceTotal(a, iface), IfaceTotal(init, iface), last.delta);
    }
  }

  lemma {:induction false} SomeUser(ups: seq<Uplink>, iface: string)
    ensures Users(ups, iface) != 0 <==> iface in Watched(ups)
  {
    if |ups| != 0 {
      SomeUser(ups[..|ups| - 1], iface);
      if iface in Watched(ups[..|ups| - 1]) {
        var i :| 0 <= i < |ups[..|ups| - 1]| && ups[..|ups| - 1][i].iface == iface;
        assert ups[i].iface == iface;
      }
      if iface in Watched(ups) && ups[|ups| - 1].iface != iface {
        var i :| 0 <= i < |ups| && ups[i].iface == iface;
        assert ups[..|ups| - 1][i].iface == iface;
      }
    }
  }

  lemma InterfaceTick(ups: seq<Uplink>, s: LoopState, x: Sample, iface: string)
    requires s.counters.None? && iface in Watched(ups) && iface in s.prev
    requires iface in x.snap ==> s.prev[iface].Reaches(x.snap[iface])
    ensures var after := AfterTick(ups, s, x);
            && after.counters.None? && iface in after.prev
            && IfaceTotal(after.rows, iface).Plus(s.prev[iface]) == IfaceTotal(s.rows, iface).Plus(after.prev[iface])
  {
    hide IfaceTotal, InterfaceRows, Delta, Users, Watched;
    var d := IfaceDeltas(Watched(ups), s.prev, x.snap);
    InterfaceCreditedOnce(ups, d, |ups|, iface);
    assert ups[..|ups|] == ups;
    SomeUser(ups, iface);
    IfaceTotalConcat(s.rows, InterfaceRows(ups, d, |ups|), iface);
    if iface in x.snap {
      assert Delta(s.prev[iface], x.snap[iface]).Some?;
    }
  }

  /** Without per-uplink counters, and with interface counters that do not go backwards, the rows written for an
      interface add up to its own growth since the first reading, also across ticks at which it was missing,
      and however many uplinks share it. */
  lemma {:induction false} InterfaceConserved(ups: seq<Uplink>, s: LoopState, xs: seq<Sample>, iface: string)
    requires s.counters.None? && iface in Watched(ups) && iface in s.prev
    requires forall k | 0 <= k < |xs| && iface in xs[k].snap && iface in AfterTicks(ups, s, xs[..k]).prev ::
               AfterTicks(ups, s, xs[..k]).prev[iface].Reaches(xs[k].snap[iface])
    ensures var after := AfterTicks(ups, s, xs);
            && after.counters.None? && iface in after.prev
            && IfaceTotal(after.rows, iface).Plus(s.prev[iface]) == IfaceTotal(s.rows, iface).Plus(after.prev[iface])
  {
    hide IfaceTotal, AfterTick;
    if |xs| != 0 {
      var init := xs[..|xs| - 1];
      forall k | 0 <= k < |init| && iface in init[k].snap && iface in AfterTicks(ups, s, init[..k]).prev
        ensures AfterTicks(ups, s, init[..k]).prev[iface].Reaches(init[k].snap[iface])
      {
        assert init[..k] == xs[..k] && init[k] == xs[k];
      }
      InterfaceConserved(ups, s, init, iface);
      InterfaceTick(ups, AfterTicks(ups, s, init), xs[|xs| - 1], iface);
    }
  }
}
