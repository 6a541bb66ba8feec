/**
 Connection pinning: the five-rule `VLB_PIN` chain (`src/net/pin.rs`), eviction by mark
 (`src/net/router.rs`), and the checks that keep marks, tables and rule preferences apart
 (`src/core/config.rs`).
 */
module Pinning {
  import opened Basics

  // ── marks under a mask ────────────────────────────────────────────────

  function Inside(mark: bv32, mask: bv32): bv32 {
    mark & mask
  }

  function Outside(mark: bv32, mask: bv32): bv32 {
    mark & !mask
  }

  /** What `--set-xmark value/mask` leaves. */
  function Xmark(mark: bv32, value: bv32, mask: bv32): bv32 {
    Outside(mark, mask) ^ value
  }

  predicate FitsMask(mark: bv32, mask: bv32) {
    Outside(mark, mask) == 0
  }

  lemma XmarkBits(mark: bv32, value: bv32, mask: bv32)
    requires FitsMask(value, mask)
    ensures Inside(Xmark(mark, value, mask), mask) == value
    ensures Outside(Xmark(mark, value, mask), mask) == Outside(mark, mask)
  {
  }

  lemma XmarkInside(mark: bv32, value: bv32, mask: bv32)
    ensures Inside(Xmark(mark, value, mask), mask) == Inside(value, mask)
  {
  }

  lemma InsideTwice(mark: bv32, mask: bv32)
    ensures Inside(Inside(mark, mask), mask) == Inside(mark, mask)
  {
  }

  lemma XmarkOverwrites(mark: bv32, first: bv32, second: bv32, mask: bv32)
    requires FitsMask(first, mask)
    ensures Xmark(Xmark(mark, first, mask), second, mask) == Xmark(mark, second, mask)
  {
    hide Outside, FitsMask;
    XmarkBits(mark, first, mask);
  }

  lemma InsideFits(mark: bv32, mask: bv32)
    ensures FitsMask(Inside(mark, mask), mask) && FitsMask(0, mask) && Inside(0, mask) == 0
  {
  }

  lemma XmarkLeaks(value: bv32, mask: bv32)
    ensures Outside(Xmark(0, value, mask), mask) == Outside(value, mask)
  {
  }

  // ── the chain ─────────────────────────────────────────────────────────

  datatype Direction = Original | Reply

  datatype Rule =
    | ReturnOnReply
    | RestoreMark(nfmask: bv32, ctmask: bv32)
    | ReturnIfMarked(mask: bv32)
    | SetXmark(value: bv32, mask: bv32)
    | SaveMark(nfmask: bv32, ctmask: bv32)

  /** The mark on a packet and the mark on its connection. */
  datatype Marks = Marks(packet: bv32, conn: bv32)

  function PinRules(active: bv32, mask: bv32): seq<Rule> {
    [ReturnOnReply, RestoreMark(mask, mask), ReturnIfMarked(mask), SetXmark(active, mask), SaveMark(mask, mask)]
  }

  predicate Returns(r: Rule, dir: Direction, m: Marks) {
    match r
    case ReturnOnReply => dir == Reply
    case ReturnIfMarked(mask) => Inside(m.packet, mask) != 0
    case _ => false
  }

  function Rewrite(r: Rule, m: Marks): Marks {
    match r
    case RestoreMark(nfmask, ctmask) => m.(packet := Xmark(m.packet, Inside(m.conn, ctmask), nfmask))
    case SetXmark(value, mask) => m.(packet := Xmark(m.packet, value, mask))
    case SaveMark(nfmask, ctmask) => m.(conn := Xmark(m.conn, Inside(m.packet, nfmask), ctmask))
    case _ => m
  }

  /** A packet meets the rules in order until one returns. */
  function Traverse(rules: seq<Rule>, dir: Direction, m: Marks): Marks {
    if |rules| == 0 || Returns(rules[0], dir, m) then m else Traverse(rules[1..], dir, Rewrite(rules[0], m))
  }

  lemma FirstRule(rule: Rule, rest: seq<Rule>, dir: Direction, m: Marks)
    ensures Traverse([rule] + rest, dir, m) == if Returns(rule, dir, m) then m else Traverse(rest, dir, Rewrite(rule, m))
  {
    hide Inside, Outside, Xmark;
    assert ([rule] + rest)[1..] == rest;
  }

  lemma TraverseOnce(active: bv32, mask: bv32, dir: Direction, m: Marks)
    ensures var stamped := Xmark(m.packet, active, mask);
            Traverse(PinRules(active, mask), dir, m) ==
            if dir == Reply then m
            else if Inside(m.conn, mask) != 0 then Marks(Xmark(m.packet, Inside(m.conn, mask), mask), m.conn)
            else Marks(stamped, Xmark(m.conn, Inside(stamped, mask), mask))
  {
    hide Inside, Outside, Xmark, FitsMask, Traverse;
    var save := [SaveMark(mask, mask)];
    var stamp := [SetXmark(active, mask)] + save;
    var check := [ReturnIfMarked(mask)] + stamp;
    var restore := [RestoreMark(mask, mask)] + check;
    assert PinRules(active, mask) == [ReturnOnReply] + restore;
    var restored := Rewrite(RestoreMark(mask, mask), m);
    FirstRule(ReturnOnReply, restore, dir, m);
    FirstRule(RestoreMark(mask, mask), check, dir, m);
    FirstRule(ReturnIfMarked(mask), stamp, dir, restored);
    InsideFits(m.conn, mask);
    XmarkBits(m.packet, Inside(m.conn, mask), mask);
    assert Inside(restored.packet, mask) == Inside(m.conn, mask);
    var stamped := Rewrite(SetXmark(active, mask), restored);
    FirstRule(SetXmark(active, mask), save, dir, restored);
    assert save == save + [];
    FirstRule(SaveMark(mask, mask), [], dir, stamped);
    NoRules(dir, Rewrite(SaveMark(mask, mask), stamped));
    XmarkOverwrites(m.packet, Inside(m.conn, mask), active, mask);
  }

  lemma NoRules(dir: Direction, m: Marks)
    ensures Traverse([], dir, m) == m
  {
    hide Inside, Outside, Xmark;
  }

  /** What one packet means for itself and its connection: a reply is left alone, a stamped connection's
      packets carry its stamp, an unstamped connection is stamped with the active mark as far as the mask goes;
      outside the mask the connection never changes, and the packet only if the active mark does not fit. */
  lemma PacketMeaning(active: bv32, mask: bv32, dir: Direction, m: Marks)
    ensures var after := Traverse(PinRules(active, mask), dir, m);
            && Outside(after.conn, mask) == Outside(m.conn, mask)
            && (FitsMask(active, mask) || Inside(m.conn, mask) != 0 ==> Outside(after.packet, mask) == Outside(m.packet, mask))
            && (dir == Reply ==> after == m)
            && (dir == Original ==> Inside(after.packet, mask) == Inside(after.conn, mask))
            && (dir == Original ==>
                Inside(after.conn, mask) == if Inside(m.conn, mask) != 0 then Inside(m.conn, mask) else Inside(active, mask))
  {
    hide Inside, Outside, Xmark, FitsMask, Traverse;
    TraverseOnce(active, mask, dir, m);
    InsideFits(m.conn, mask);
    XmarkBits(m.packet, Inside(m.conn, mask), mask);
    var stamped := Xmark(m.packet, active, mask);
    XmarkInside(m.packet, active, mask);
    if FitsMask(active, mask) {
      XmarkBits(m.packet, active, mask);
    }
    InsideFits(stamped, mask);
    XmarkBits(m.conn, Inside(stamped, mask), mask);
    InsideTwice(stamped, mask);
  }

  /** The chain leaves every bit outside the mask alone, on all traffic, exactly when the mark it was
      rendered with fits the mask. */
  lemma ChainKeepsToMaskExactly(active: bv32, mask: bv32)
    ensures FitsMask(active, mask) <==>
            forall dir, m: Marks :: Outside(Traverse(PinRules(active, mask), dir, m).packet, mask) == Outside(m.packet, mask)
  {
    hide Inside, Outside, Xmark, Traverse;
    if FitsMask(active, mask) {
      forall dir, m: Marks ensures Outside(Traverse(PinRules(active, mask), dir, m).packet, mask) == Outside(m.packet, mask) {
        PacketMeaning(active, mask, dir, m);
      }
    } else {
      TraverseOnce(active, mask, Original, Marks(0, 0));
      XmarkLeaks(active, mask);
      InsideFits(0, mask);
      assert Outside(Traverse(PinRules(active, mask), Original, Marks(0, 0)).packet, mask) != Outside(Marks(0, 0).packet, mask);
    }
  }

  // ── connections over time ─────────────────────────────────────────────

  /** The rules in force and the marks of the tracked connections. */
  datatype Tracking = Tracking(rules: seq<Rule>, conns: map<nat, bv32>)

  datatype Happening =
    | Packet(conn: nat, dir: Direction, mark: bv32)
    | Reaim(active: bv32, accepted: bool)
    | Evict(mark: bv32)
    | Expire(conn: nat)

  function ConnMark(t: Tracking, conn: nat): bv32 {
    if conn in t.conns then t.conns[conn] else 0
  }

  function MarksOut(t: Tracking, h: Happening): Marks
    requires h.Packet?
  {
    Traverse(t.rules, h.dir, Marks(h.mark, ConnMark(t, h.conn)))
  }

  /** A rejected rule set rolls back; eviction forgets the connections whose masked mark is the one named. */
  function Happen(mask: bv32, t: Tracking, h: Happening): Tracking {
    match h
    case Packet(conn, _, _) => t.(conns := t.conns[conn := MarksOut(t, h).conn])
    case Reaim(active, accepted) => if accepted then t.(rules := PinRules(active, mask)) else t
    case Evict(mark) => t.(conns := map c | c in t.conns && Inside(t.conns[c], mask) != mark :: t.conns[c])
    case Expire(conn) => t.(conns := map c | c in t.conns && c != conn :: t.conns[c])
  }

  function AfterAll(mask: bv32, t: Tracking, hs: seq<Happening>): Tracking {
    if |hs| == 0 then t else Happen(mask, AfterAll(mask, t, hs[..|hs| - 1]), hs[|hs| - 1])
  }

  /** The chain is empty, or rendered for some mark. */
  ghost predicate Aimed(mask: bv32, t: Tracking) {
    t.rules == [] || exists active :: t.rules == PinRules(active, mask)
  }

  predicate Forgets(h: Happening, conn: nat, stamp: bv32) {
    h == Evict(stamp) || h == Expire(conn)
  }

  lemma {:induction false} StaysAimed(mask: bv32, t: Tracking, hs: seq<Happening>)
    requires Aimed(mask, t)
    ensures Aimed(mask, AfterAll(mask, t, hs))
  {
    hide Traverse, Inside, PinRules;
    if |hs| != 0 {
      StaysAimed(mask, t, hs[..|hs| - 1]);
    }
  }

  /** A stamp is written once: whatever happens, save forgetting the connection, leaves it as it is. */
  lemma StampStays(mask: bv32, t: Tracking, h: Happening, conn: nat)
    requires Aimed(mask, t) && conn in t.conns && Inside(t.conns[conn], mask) != 0
    requires !Forgets(h, conn, Inside(t.conns[conn], mask))
    ensures var after := Happen(mask, t, h);
            conn in after.conns && Inside(after.conns[conn], mask) == Inside(t.conns[conn], mask)
  {
    hide Traverse, Inside, Outside;
    if h.Packet? && h.conn == conn {
      PacketOnRules(mask, t, h);
    }
  }

  lemma PacketOnRules(mask: bv32, t: Tracking, h: Happening)
    requires Aimed(mask, t) && h.Packet?
    ensures var before, out := ConnMark(t, h.conn), MarksOut(t, h);
            && Outside(out.conn, mask) == Outside(before, mask)
            && (h.dir == Reply ==> out == Marks(h.mark, before))
            && (Inside(before, mask) != 0 ==>
                Inside(out.conn, mask) == Inside(before, mask) && Outside(out.packet, mask) == Outside(h.mark, mask))
            && (h.dir == Original && t.rules != [] ==> Inside(out.packet, mask) == Inside(out.conn, mask))
  {
    hide Traverse, Inside, Outside, PinRules;
    var m := Marks(h.mark, ConnMark(t, h.conn));
    if t.rules != [] {
      var active :| t.rules == PinRules(active, mask);
      PacketMeaning(active, mask, h.dir, m);
    } else {
      NoRules(h.dir, m);
    }
  }

  /** Over any interleaving of packets, re-aims, evictions and expiries: from the moment a connection is
      stamped until it is forgotten its stamp never changes, and each of its ORIGINAL packets leaves the
      chain carrying exactly that stamp, and its own bits outside the mask. */
  lemma {:induction false} PinnedForLife(mask: bv32, t: Tracking, hs: seq<Happening>, conn: nat)
    requires Aimed(mask, t) && conn in t.conns && Inside(t.conns[conn], mask) != 0
    requires forall k | 0 <= k < |hs| :: !Forgets(hs[k], conn, Inside(t.conns[conn], mask))
    ensures var after := AfterAll(mask, t, hs);
            conn in after.conns && Inside(after.conns[conn], mask) == Inside(t.conns[conn], mask)
    ensures var after := AfterAll(mask, t, hs);
            forall h: Happening | h.Packet? && h.conn == conn && h.dir == Original && after.rules != [] ::
              && Inside(MarksOut(after, h).packet, mask) == Inside(t.conns[conn], mask)
              && Outside(MarksOut(after, h).packet, mask) == Outside(h.mark, mask)
  {
    hide Traverse, Happen, Inside, Outside, Aimed;
    if |hs| != 0 {
      var init := hs[..|hs| - 1];
      assert !Forgets(hs[|hs| - 1], conn, Inside(t.conns[conn], mask));
      PinnedForLife(mask, t, init, conn);
      StaysAimed(mask, t, init);
      StampStays(mask, AfterAll(mask, t, init), hs[|hs| - 1], conn);
    }
    StaysAimed(mask, t, hs);
    var after := AfterAll(mask, t, hs);
    forall h: Happening | h.Packet? && h.conn == conn && h.dir == Original && after.rules != []
      ensures Inside(MarksOut(after, h).packet, mask) == Inside(t.conns[conn], mask)
              && Outside(MarksOut(after, h).packet, mask) == Outside(h.mark, mask)
    {
      PacketOnRules(mask, after, h);
    }
  }

  /** The first ORIGINAL packet stamps its connection with the mark the chain was last aimed at, as far as the
      mask goes. */
  lemma FirstPacketStamps(mask: bv32, t: Tracking, h: Happening, active: bv32)
    requires t.rules == PinRules(active, mask)
    requires h.Packet? && h.dir == Original && Inside(ConnMark(t, h.conn), mask) == 0
    ensures var after := Happen(mask, t, h);
            && h.conn in after.conns && Inside(after.conns[h.conn], mask) == Inside(active, mask)
            && Inside(MarksOut(t, h).packet, mask) == Inside(active, mask) && after.rules == t.rules
  {
    hide Traverse, Inside, Outside, PinRules;
    PacketMeaning(active, mask, Original, Marks(h.mark, ConnMark(t, h.conn)));
  }

  // ── eviction ──────────────────────────────────────────────────────────

  /** A connection stamped while the chain was aimed at `active`, and not forgotten in between: evicting `evicted`
      costs it exactly when the two marks are the same as far as the mask can tell. */
  lemma EvictionCostsExactly(mask: bv32, t: Tracking, h: Happening, hs: seq<Happening>, active: bv32, evicted: bv32)
    requires t.rules == PinRules(active, mask) && Inside(active, mask) != 0
    requires h.Packet? && h.dir == Original && Inside(ConnMark(t, h.conn), mask) == 0
    requires forall k | 0 <= k < |hs| :: !Forgets(hs[k], h.conn, Inside(active, mask))
    ensures var before := AfterAll(mask, Happen(mask, t, h), hs);
            var after := Happen(mask, before, Evict(evicted));
            && h.conn in before.conns && (h.conn !in after.conns <==> Inside(active, mask) == evicted)
  {
    hide Traverse, Inside, AfterAll, PinRules;
    FirstPacketStamps(mask, t, h, active);
    PinnedForLife(mask, Happen(mask, t, h), hs, h.conn);
  }

  /** Some tracked connection is stamped with `mark`. */
  ghost predicate Carried(mask: bv32, t: Tracking, mark: bv32) {
    exists conn :: conn in t.conns && Inside(t.conns[conn], mask) == mark
  }

  /** The packet of a connection not yet stamped, in the direction that stamps. */
  predicate Stamps(mask: bv32, t: Tracking, h: Happening) {
    h.Packet? && h.dir == Original && Inside(ConnMark(t, h.conn), mask) == 0
  }

  /** The packet at `k` stamps its connection, which nothing forgets afterwards. */
  ghost predicate LeavesStamp(mask: bv32, start: Tracking, dead: bv32, hs: seq<Happening>, k: nat) {
    && k < |hs| && Stamps(mask, AfterAll(mask, start, hs[..k]), hs[k])
    && forall m | k < m < |hs| :: !Forgets(hs[m], hs[k].conn, dead)
  }

  ghost predicate GetsStamped(mask: bv32, start: Tracking, dead: bv32, hs: seq<Happening>, conn: nat) {
    exists k: nat :: LeavesStamp(mask, start, dead, hs, k) && hs[k].conn == conn
  }

  lemma GetsStampedNext(mask: bv32, start: Tracking, dead: bv32, hs: seq<Happening>, conn: nat)
    requires |hs| != 0
    ensures var n := |hs| - 1;
            GetsStamped(mask, start, dead, hs, conn) <==>
            || (GetsStamped(mask, start, dead, hs[..n], conn) && !Forgets(hs[n], conn, dead))
            || (Stamps(mask, AfterAll(mask, start, hs[..n]), hs[n]) && hs[n].conn == conn)
  {
    hide Forgets, AfterAll, Inside, ConnMark;
    var n := |hs| - 1;
    forall k: nat | k < n ensures hs[..n][..k] == hs[..k] && hs[..n][k] == hs[k] {
    }
    if GetsStamped(mask, start, dead, hs, conn) {
      var k: nat :| LeavesStamp(mask, start, dead, hs, k) && hs[k].conn == conn;
      assert k == n || LeavesStamp(mask, start, dead, hs[..n], k);
    }
    if GetsStamped(mask, start, dead, hs[..n], conn) && !Forgets(hs[n], conn, dead) {
      var k: nat :| LeavesStamp(mask, start, dead, hs[..n], k) && hs[..n][k].conn == conn;
      assert LeavesStamp(mask, start, dead, hs, k);
    }
    if Stamps(mask, AfterAll(mask, start, hs[..n]), hs[n]) && hs[n].conn == conn {
      assert LeavesStamp(mask, start, dead, hs, n);
    }
  }

  /** `conn` is tracked, and stamped with `mark`. */
  predicate Carries(mask: bv32, t: Tracking, conn: nat, mark: bv32) {
    conn in t.conns && Inside(t.conns[conn], mask) == mark
  }

  /** One happening short of a re-aim, while the chain is aimed at `dead`. */
  lemma OneHappening(mask: bv32, t: Tracking, dead: bv32, h: Happening, conn: nat)
    requires t.rules == PinRules(dead, mask) && Inside(dead, mask) == dead && dead != 0
    requires h.Reaim? ==> !h.accepted
    ensures var after := Happen(mask, t, h);
            && after.rules == t.rules
            && (Carries(mask, after, conn, dead) <==>
                (Carries(mask, t, conn, dead) && !Forgets(h, conn, dead)) || (Stamps(mask, t, h) && h.conn == conn))
  {
    hide Traverse, Inside, Outside, PinRules;
    InsideFits(0, mask);
    if h.Packet? {
      PacketMeaning(dead, mask, h.dir, Marks(h.mark, ConnMark(t, h.conn)));
    }
  }

  /** While the chain stays aimed at `dead`, a connection carries it exactly if a packet stamped it for good. */
  lemma {:induction false} CarriesIfStamped(mask: bv32, start: Tracking, dead: bv32, hs: seq<Happening>, conn: nat)
    requires start.rules == PinRules(dead, mask) && Inside(dead, mask) == dead && dead != 0
    requires !Carries(mask, start, conn, dead) && forall k | 0 <= k < |hs| && hs[k].Reaim? :: !hs[k].accepted
    ensures AfterAll(mask, start, hs).rules == start.rules
    ensures Carries(mask, AfterAll(mask, start, hs), conn, dead) <==> GetsStamped(mask, start, dead, hs, conn)
  {
    hide Happen, Inside, PinRules, GetsStamped, Carries, Stamps, Forgets;
    if |hs| == 0 {
      NeverStamped(mask, start, dead, conn);
    } else {
      var n := |hs| - 1;
      CarriesIfStamped(mask, start, dead, hs[..n], conn);
      GetsStampedNext(mask, start, dead, hs, conn);
      OneHappening(mask, AfterAll(mask, start, hs[..n]), dead, hs[n], conn);
    }
  }

  lemma NeverStamped(mask: bv32, start: Tracking, dead: bv32, conn: nat)
    ensures !GetsStamped(mask, start, dead, [], conn)
  {
  }

  /** Eviction runs before the chain is re-aimed. Until the re-aim, whatever else expires or is evicted, some
      connection carries the dead mark again exactly if one without a stamp sent a packet in the original direction
      and was not forgotten since. (A mark that does not fit the mask is carried by nothing, before or after.) */
  lemma EvictionLastsExactly(mask: bv32, t: Tracking, dead: bv32, hs: seq<Happening>)
    requires dead != 0 && t.rules == PinRules(dead, mask)
    requires forall k | 0 <= k < |hs| && hs[k].Reaim? :: !hs[k].accepted
    ensures var start := Happen(mask, t, Evict(dead));
            Carried(mask, AfterAll(mask, start, hs), dead) <==>
            FitsMask(dead, mask) && exists k: nat :: LeavesStamp(mask, start, dead, hs, k)
  {
    hide Traverse, Inside, Outside, PinRules, AfterAll, FitsMask, LeavesStamp;
    var start := Happen(mask, t, Evict(dead));
    var after := AfterAll(mask, start, hs);
    FittingMark(dead, mask);
    if Carried(mask, after, dead) {
      var conn :| conn in after.conns && Inside(after.conns[conn], mask) == dead;
      InsideFits(after.conns[conn], mask);
      CarriesIfStamped(mask, start, dead, hs, conn);
      assert Carries(mask, after, conn, dead);
    }
    if FitsMask(dead, mask) {
      if k: nat :| LeavesStamp(mask, start, dead, hs, k) {
        StampIsPacket(mask, start, dead, hs, k);
        CarriesIfStamped(mask, start, dead, hs, hs[k].conn);
        assert GetsStamped(mask, start, dead, hs, hs[k].conn);
      }
    }
  }

  lemma StampIsPacket(mask: bv32, start: Tracking, dead: bv32, hs: seq<Happening>, k: nat)
    requires LeavesStamp(mask, start, dead, hs, k)
    ensures k < |hs| && hs[k].Packet?
  {
  }

  /** In the other order nothing comes back: once the chain is aimed elsewhere and the dead mark evicted, no sequel
      stamps it again unless the chain is aimed at it again. */
  lemma {:induction false} ReaimedEvictionLasts(mask: bv32, t: Tracking, dead: bv32, next: bv32, hs: seq<Happening>)
    requires dead != 0 && t.rules == PinRules(next, mask) && Inside(next, mask) != dead
    requires forall k | 0 <= k < |hs| && hs[k].Reaim? && hs[k].accepted :: Inside(hs[k].active, mask) != dead
    ensures var after := AfterAll(mask, Happen(mask, t, Evict(dead)), hs);
            && !Carried(mask, after, dead)
            && exists active :: after.rules == PinRules(active, mask) && Inside(active, mask) != dead
  {
    hide Traverse, Inside, Outside, PinRules;
    var start := Happen(mask, t, Evict(dead));
    if |hs| != 0 {
      var init, last := hs[..|hs| - 1], hs[|hs| - 1];
      ReaimedEvictionLasts(mask, t, dead, next, init);
      var before := AfterAll(mask, start, init);
      var active :| before.rules == PinRules(active, mask) && Inside(active, mask) != dead;
      if last.Packet? {
        PacketMeaning(active, mask, last.dir, Marks(last.mark, ConnMark(before, last.conn)));
        InsideFits(0, mask);
      }
      StillNotCarried(mask, before, last, dead);
    }
  }

  lemma StillNotCarried(mask: bv32, before: Tracking, last: Happening, dead: bv32)
    requires !Carried(mask, before, dead)
    requires last.Packet? ==> Inside(MarksOut(before, last).conn, mask) != dead
    ensures !Carried(mask, Happen(mask, before, last), dead)
  {
    hide Traverse, Inside;
  }

  // ── keeping providers apart ───────────────────────────────────────────

  datatype RoutingConfig = RoutingConfig(tableBase: u32, fwmarkBase: u32, fwmarkMask: u32, rulePref: u32)

  function SaturatingAdd(a: u32, b: u32): u32 {
    Min(a + b, U32_MAX)
  }

  function MaxPriority(priorities: seq<u32>): u32 {
    if |priorities| == 0 then 0 else Max(priorities[0], MaxPriority(priorities[1..]))
  }

  function Push(x: bv32, bit: bool): bv32 {
    (x << 1) | (if bit then 1 else 0)
  }

  /** The lowest `w` binary digits of a number, as a word. */
  function Bits(n: nat, w: nat): bv32 {
    if w == 0 then 0 else Push(Bits(n / 2, w - 1), n % 2 == 1)
  }

  function Word(n: u32): bv32 {
    Bits(n, 32)
  }

  /** The routing checks of validation, in its order. */
  ghost predicate Validates(c: RoutingConfig, priorities: seq<u32>) {
    var top := MaxPriority(priorities);
    var lastTable := SaturatingAdd(c.tableBase, top);
    && |priorities| != 0
    && AllDiffer(priorities)
    && c.tableBase != 0
    && !(c.tableBase <= 253 <= lastTable) && !(c.tableBase <= 254 <= lastTable) && !(c.tableBase <= 255 <= lastTable)
    && lastTable <= 0xFFFF_FFFE
    && SaturatingAdd(c.rulePref, top) < 32766
    && c.fwmarkBase != 0 && c.fwmarkMask != 0
    && c.fwmarkBase + top <= U32_MAX
    && FitsMask(Word(c.fwmarkBase + top), Word(c.fwmarkMask))
    && Inside(Word(c.fwmarkBase), Word(c.fwmarkMask)) != 0
    && c.rulePref >= 100
  }

  // Uniqueness is checked by sorting a copy, dropping repeats of neighbours, and comparing lengths.

  function Dedup(s: seq<u32>): (r: seq<u32>)
    ensures |r| <= |s|
  {
    if |s| <= 1 then s
    else if s[0] == s[1] then Dedup(s[1..])
    else [s[0]] + Dedup(s[1..])
  }

  lemma {:induction false} DedupOfSorted(s: seq<u32>)
    requires NonDecreasing(s)
    ensures |Dedup(s)| == |s| <==> AllDiffer(s)
  {
    if |s| > 1 {
      var tail := s[1..];
      assert NonDecreasing(tail);
      DedupOfSorted(tail);
      if s[0] == s[1] {
        assert !AllDiffer(s);
      } else {
        assert forall k | 0 <= k < |tail| :: tail[k] == s[k + 1] && s[0] < s[k + 1];
        if AllDiffer(tail) {
          forall i, j | 0 <= i < j < |s| ensures s[i] != s[j] {
            assert i > 0 ==> tail[i - 1] != tail[j - 1];
          }
        } else {
          var i, j :| 0 <= i < j < |tail| && tail[i] == tail[j];
          assert s[i + 1] == s[j + 1];
        }
      }
    }
  }

  lemma DifferByCount(s: seq<u32>)
    ensures AllDiffer(s) <==> forall x: u32 :: multiset(s)[x] <= 1
  {
    if |s| != 0 {
      var init, last := s[..|s| - 1], s[|s| - 1];
      assert s == init + [last];
      DifferByCount(init);
      if AllDiffer(s) {
        assert AllDiffer(init);
        assert last !in init;
      } else if AllDiffer(init) {
        var i, j :| 0 <= i < j < |s| && s[i] == s[j];
        assert j == |s| - 1;
        assert init[i] == last;
        assert last in multiset(init);
      } else {
        var x: u32 :| multiset(init)[x] > 1;
        assert multiset(s)[x] > 1;
      }
    }
  }

  /** Whatever order the sort leaves equal keys in, the lengths agree exactly when the priorities all differ. */
  lemma UniquenessCheckExactly(priorities: seq<u32>, sorted: seq<u32>)
    requires NonDecreasing(sorted) && multiset(sorted) == multiset(priorities)
    ensures |Dedup(sorted)| == |priorities| <==> AllDiffer(priorities)
  {
    assert |sorted| == |multiset(sorted)| == |multiset(priorities)| == |priorities|;
    DedupOfSorted(sorted);
    DifferByCount(sorted);
    DifferByCount(priorities);
  }

  /** Unchecked 32-bit sums. */
  function MarkFor(c: RoutingConfig, priority: u32): u32 {
    (c.fwmarkBase + priority) % (U32_MAX + 1)
  }

  function TableFor(c: RoutingConfig, priority: u32): u32 {
    (c.tableBase + priority) % (U32_MAX + 1)
  }

  function RulePrefFor(c: RoutingConfig, priority: u32): u32 {
    (c.rulePref + priority) % (U32_MAX + 1)
  }

  /** The mask test on numbers, binary digit by binary digit. */
  predicate Fits(n: nat, mask: nat) {
    n == 0 || ((n % 2 == 1 ==> mask % 2 == 1) && Fits(n / 2, mask / 2))
  }

  /** The mask has every binary digit from the lowest up to the highest one in which `lo` and `hi` differ, and
      the digits above that they share. */
  predicate Covers(mask: nat, lo: nat, hi: nat)
    decreases hi
  {
    if lo >= hi then Fits(hi, mask) else mask % 2 == 1 && Covers(mask / 2, lo / 2, hi / 2)
  }

  /** Ones from the lowest digit up: the masks of the form 2^k - 1. */
  predicate Contiguous(mask: nat) {
    mask == 0 || (mask % 2 == 1 && Contiguous(mask / 2))
  }

  lemma {:induction false} CoveredFits(mask: nat, lo: nat, hi: nat, x: nat)
    requires Covers(mask, lo, hi) && lo <= x <= hi
    ensures Fits(x, mask)
    decreases hi
  {
    if lo < hi {
      CoveredFits(mask / 2, lo / 2, hi / 2, x / 2);
    }
  }

  ghost predicate AllFit(mask: nat, lo: nat, hi: nat) {
    forall x: nat | lo <= x <= hi :: Fits(x, mask)
  }

  lemma FitsHalf(n: nat, mask: nat)
    requires Fits(n, mask)
    ensures Fits(n / 2, mask / 2) && (n % 2 == 1 ==> mask % 2 == 1)
  {
  }

  lemma HalvesFit(mask: nat, lo: nat, hi: nat)
    requires lo < hi && AllFit(mask, lo, hi)
    ensures AllFit(mask / 2, lo / 2, hi / 2) && mask % 2 == 1
  {
    hide Fits;
    FitsHalf(lo, mask);
    FitsHalf(lo + 1, mask);
    forall y: nat | lo / 2 <= y <= hi / 2 ensures Fits(y, mask / 2) {
      FitsHalf(Max(lo, 2 * y), mask);
    }
  }

  lemma {:induction false} FittingIsCovered(mask: nat, lo: nat, hi: nat)
    requires lo <= hi && AllFit(mask, lo, hi)
    ensures Covers(mask, lo, hi)
    decreases hi
  {
    hide Fits;
    if lo < hi {
      HalvesFit(mask, lo, hi);
      FittingIsCovered(mask / 2, lo / 2, hi / 2);
    }
  }

  /** Every number of a range fits a mask exactly when the mask covers the range. */
  lemma RangeFitsExactly(mask: nat, lo: nat, hi: nat)
    requires lo <= hi
    ensures Covers(mask, lo, hi) <==> AllFit(mask, lo, hi)
  {
    if Covers(mask, lo, hi) {
      forall x: nat | lo <= x <= hi ensures Fits(x, mask) {
        CoveredFits(mask, lo, hi, x);
      }
    }
    if AllFit(mask, lo, hi) {
      FittingIsCovered(mask, lo, hi);
    }
  }

  /** A mask of the form 2^k - 1 that fits the highest number covers the range. */
  lemma {:induction false} ContiguousCovers(mask: nat, lo: nat, hi: nat)
    requires Contiguous(mask) && Fits(hi, mask) && lo <= hi
    ensures Covers(mask, lo, hi)
    decreases hi
  {
    if lo < hi {
      if mask == 0 {
        OnlyZeroFitsZero(hi);
      }
      ContiguousCovers(mask / 2, lo / 2, hi / 2);
    }
  }

  lemma {:induction false} OnlyZeroFitsZero(n: nat)
    requires Fits(n, 0)
    ensures n == 0
  {
    if n != 0 {
      OnlyZeroFitsZero(n / 2);
    }
  }

  /** What a mask leaves of a number. */
  function And(n: nat, mask: nat): nat {
    if n == 0 then 0 else 2 * And(n / 2, mask / 2) + (if n % 2 == 1 && mask % 2 == 1 then 1 else 0)
  }

  lemma {:induction false} AndIsPart(n: nat, mask: nat)
    ensures And(n, mask) <= n
    ensures And(n, mask) == n <==> Fits(n, mask)
  {
    if n != 0 {
      AndIsPart(n / 2, mask / 2);
    }
  }

  lemma AndStep(n: nat, mask: nat)
    ensures And(n, mask) / 2 == And(n / 2, mask / 2) && (And(n, mask) % 2 == 1 <==> n % 2 == 1 && mask % 2 == 1)
  {
  }

  /** From the lowest digit up the mask has ones, as far as `lo` and `hi` differ there, save perhaps at the last such
      step, where the two are neighbours. */
  predicate Apart(mask: nat, lo: nat, hi: nat)
    decreases hi
  {
    lo >= hi || (if mask % 2 == 1 then Apart(mask / 2, lo / 2, hi / 2) else hi == lo + 1)
  }

  lemma {:induction false} ApartDiffer(mask: nat, lo: nat, hi: nat, x: nat, y: nat)
    requires Apart(mask, lo, hi) && Fits(hi, mask) && lo <= x < y <= hi
    ensures And(x, mask) != And(y, mask)
    decreases hi
  {
    hide Fits;
    FitsHalf(hi, mask);
    AndStep(x, mask);
    AndStep(y, mask);
    if mask % 2 == 0 {
      AndIsPart(x, mask);
      AndIsPart(y, mask);
    } else if x % 2 == y % 2 {
      ApartDiffer(mask / 2, lo / 2, hi / 2, x / 2, y / 2);
    }
  }

  ghost predicate AllDistinguished(mask: nat, lo: nat, hi: nat) {
    forall x: nat, y: nat | lo <= x < y <= hi :: And(x, mask) != And(y, mask)
  }

  /** A pair of neighbours that differ in the lowest digit only looks the same under an even mask. */
  lemma EvenMaskPairs(mask: nat, k: nat)
    requires mask % 2 == 0 && k % 2 == 0
    ensures And(k, mask) == And(k + 1, mask)
  {
    AndStep(k, mask);
    AndStep(k + 1, mask);
  }

  lemma HalvesDistinguished(mask: nat, lo: nat, hi: nat)
    requires AllDistinguished(mask, lo, hi) && Fits(hi, mask) && lo < hi && mask % 2 == 1
    ensures AllDistinguished(mask / 2, lo / 2, hi / 2)
  {
    hide And, Fits;
    forall a: nat, b: nat | lo / 2 <= a < b <= hi / 2 ensures And(a, mask / 2) != And(b, mask / 2) {
      var x, y := if 2 * b + 1 <= hi then 2 * a + 1 else 2 * a, if 2 * b + 1 <= hi then 2 * b + 1 else 2 * b;
      AndStep(x, mask);
      AndStep(y, mask);
      if x < lo {
        FitsHalf(hi, mask);
        AndIsPart(a, mask / 2);
        AndIsPart(b, mask / 2);
      } else {
        assert And(x, mask) != And(y, mask);
      }
    }
  }

  lemma {:induction false} DistinguishedAreApart(mask: nat, lo: nat, hi: nat)
    requires AllDistinguished(mask, lo, hi) && Fits(hi, mask)
    ensures Apart(mask, lo, hi)
    decreases hi
  {
    hide Fits, AllDistinguished, And;
    if lo < hi {
      if mask % 2 == 1 {
        FitsHalf(hi, mask);
        HalvesDistinguished(mask, lo, hi);
        DistinguishedAreApart(mask / 2, lo / 2, hi / 2);
      } else if hi >= lo + 2 {
        SomePair(mask, lo, hi);
      }
    }
  }

  lemma SomePair(mask: nat, lo: nat, hi: nat)
    requires mask % 2 == 0 && hi >= lo + 2
    ensures !AllDistinguished(mask, lo, hi)
  {
    hide And;
    var k := (lo + 1) / 2 * 2;
    EvenMaskPairs(mask, k);
  }

  /** Given that the highest number of a range fits, the mask tells all its numbers apart exactly under this
      condition, which is weaker than that they all fit. */
  lemma RangeApartExactly(mask: nat, lo: nat, hi: nat)
    requires Fits(hi, mask)
    ensures Apart(mask, lo, hi) <==> AllDistinguished(mask, lo, hi)
  {
    hide Apart, Fits, And;
    if Apart(mask, lo, hi) {
      forall x: nat, y: nat | lo <= x < y <= hi ensures And(x, mask) != And(y, mask) {
        ApartDiffer(mask, lo, hi, x, y);
      }
    }
    if AllDistinguished(mask, lo, hi) {
      DistinguishedAreApart(mask, lo, hi);
    }
  }

  /** Under it no number past the lowest is masked away entirely. */
  lemma {:induction false} ApartNonZero(mask: nat, lo: nat, hi: nat, x: nat)
    requires Apart(mask, lo, hi) && Fits(hi, mask) && lo < x <= hi
    ensures And(x, mask) != 0
    decreases hi
  {
    hide Fits;
    FitsHalf(hi, mask);
    AndStep(x, mask);
    if mask % 2 == 0 {
      AndIsPart(x, mask);
    } else if x % 2 == 0 {
      ApartNonZero(mask / 2, lo / 2, hi / 2, x / 2);
    }
  }

  lemma CoveredAreApart(mask: nat, lo: nat, hi: nat)
    requires lo <= hi && Covers(mask, lo, hi)
    ensures Fits(hi, mask) && Apart(mask, lo, hi)
  {
    hide Apart, Fits, And, Covers;
    RangeFitsExactly(mask, lo, hi);
    forall x: nat | lo <= x <= hi ensures And(x, mask) == x {
      AndIsPart(x, mask);
    }
    RangeApartExactly(mask, lo, hi);
  }

  // Numbers and the words that hold them.

  function Ones(w: nat): bv32 {
    if w == 0 then 0 else Push(Ones(w - 1), true)
  }

  lemma PushOutside(x: bv32, y: bv32, bit: bool)
    requires Outside(x, y) == 0
    ensures Outside(Push(x, bit), Push(y, true)) == 0
  {
  }

  lemma OutsidePush(x: bv32, y: bv32, a: bool, b: bool)
    ensures Outside(Push(x, a), Push(y, b)) == Push(Outside(x, y), a && !b)
  {
    hide Outside, Push;
    if b {
      OutsidePushOne(x, y, a);
    } else if a {
      OutsidePushZero(x, y);
    } else {
      OutsideShift(x, y);
    }
  }

  lemma OutsidePushOne(x: bv32, y: bv32, a: bool)
    ensures Outside(Push(x, a), Push(y, true)) == Push(Outside(x, y), false)
  {
  }

  lemma OutsidePushZero(x: bv32, y: bv32)
    ensures Outside(Push(x, true), Push(y, false)) == Push(Outside(x, y), true)
  {
  }

  lemma OutsideShift(x: bv32, y: bv32)
    ensures Outside(Push(x, false), Push(y, false)) == Push(Outside(x, y), false)
  {
  }

  lemma PushZero(x: bv32, bit: bool)
    requires Outside(x, 0x7FFF_FFFF) == 0
    ensures Push(x, bit) == 0 <==> x == 0 && !bit
  {
  }

  lemma OutsideStaysClear(x: bv32, y: bv32)
    requires Outside(x, 0x7FFF_FFFF) == 0
    ensures Outside(Outside(x, y), 0x7FFF_FFFF) == 0
  {
  }

  lemma PushFits(x: bv32, y: bv32, a: bool, b: bool)
    requires Outside(x, 0x7FFF_FFFF) == 0
    ensures Outside(Push(x, a), Push(y, b)) == 0 <==> Outside(x, y) == 0 && (a ==> b)
  {
    hide Outside, Push;
    OutsidePush(x, y, a, b);
    OutsideStaysClear(x, y);
    PushZero(Outside(x, y), a && !b);
  }

  lemma PushInjective(x: bv32, y: bv32, a: bool, b: bool)
    requires Outside(x, 0x7FFF_FFFF) == 0 && Outside(y, 0x7FFF_FFFF) == 0 && Push(x, a) == Push(y, b)
    ensures x == y && a == b
  {
  }

  lemma InsidePush(x: bv32, y: bv32, a: bool, b: bool)
    ensures Inside(Push(x, a), Push(y, b)) == Push(Inside(x, y), a && b)
  {
    hide Inside, Push;
    if a && b {
      InsidePushOnes(x, y);
    } else if a {
      InsidePushLeft(x, y);
    } else {
      InsidePushRight(x, y, b);
    }
  }

  lemma InsidePushOnes(x: bv32, y: bv32)
    ensures Inside(Push(x, true), Push(y, true)) == Push(Inside(x, y), true)
  {
  }

  lemma InsidePushLeft(x: bv32, y: bv32)
    ensures Inside(Push(x, true), Push(y, false)) == Push(Inside(x, y), false)
  {
  }

  lemma InsidePushRight(x: bv32, y: bv32, b: bool)
    ensures Inside(Push(x, false), Push(y, b)) == Push(Inside(x, y), false)
  {
  }

  lemma {:induction false} BitsAnd(n: nat, mask: nat, w: nat)
    ensures Inside(Bits(n, w), Bits(mask, w)) == Bits(And(n, mask), w)
  {
    hide Push, Inside, And;
    if w == 0 {
      InsideFits(0, 0);
    } else {
      BitsAnd(n / 2, mask / 2, w - 1);
      InsidePush(Bits(n / 2, w - 1), Bits(mask / 2, w - 1), n % 2 == 1, mask % 2 == 1);
      AndStep(n, mask);
    }
  }

  lemma {:induction false} BitsWithinOnes(n: nat, w: nat, v: nat)
    requires w <= v
    ensures Outside(Bits(n, w), Ones(v)) == 0
  {
    hide Push, Outside;
    if w == 0 {
      NothingOutside(Ones(v));
    } else {
      BitsWithinOnes(n / 2, w - 1, v - 1);
      PushOutside(Bits(n / 2, w - 1), Ones(v - 1), n % 2 == 1);
    }
  }

  lemma NothingOutside(y: bv32)
    ensures Outside(0, y) == 0 && Outside(y, y) == 0
  {
  }

  lemma OnesOfAWord()
    ensures Ones(31) == 0x7FFF_FFFF
  {
    assert Ones(8) == 0xFF;
    assert Ones(16) == 0xFFFF;
    assert Ones(24) == 0xFF_FFFF;
  }

  lemma WordSize()
    ensures Pow2(32) == U32_MAX + 1
  {
    assert Pow2(8) == 0x100;
    assert Pow2(16) == 0x1_0000;
    assert Pow2(24) == 0x100_0000;
  }

  lemma TopBitClear(n: nat, w: nat)
    requires w <= 31
    ensures Outside(Bits(n, w), 0x7FFF_FFFF) == 0
  {
    hide Outside, Bits, Ones;
    BitsWithinOnes(n, w, 31);
    OnesOfAWord();
  }

  lemma {:induction false} BitsFit(n: nat, mask: nat, w: nat)
    requires w <= 32 && n < Pow2(w)
    ensures FitsMask(Bits(n, w), Bits(mask, w)) <==> Fits(n, mask)
  {
    hide Push, Outside;
    if w == 0 {
      NothingOutside(0);
    } else {
      BitsFit(n / 2, mask / 2, w - 1);
      TopBitClear(n / 2, w - 1);
      PushFits(Bits(n / 2, w - 1), Bits(mask / 2, w - 1), n % 2 == 1, mask % 2 == 1);
      ZeroFits(mask / 2);
    }
  }

  lemma ZeroFits(mask: nat)
    ensures Fits(0, mask)
  {
  }

  lemma {:induction false} BitsDiffer(m: nat, n: nat, w: nat)
    requires w <= 32 && m < Pow2(w) && n < Pow2(w) && Bits(m, w) == Bits(n, w)
    ensures m == n
  {
    hide Push, Outside;
    if w != 0 {
      TopBitClear(m / 2, w - 1);
      TopBitClear(n / 2, w - 1);
      PushInjective(Bits(m / 2, w - 1), Bits(n / 2, w - 1), m % 2 == 1, n % 2 == 1);
      BitsDiffer(m / 2, n / 2, w - 1);
    }
  }

  /** The mask test on words is the digit test on numbers, and distinct numbers are distinct words. */
  lemma WordMeaning(m: u32, n: u32)
    ensures FitsMask(Word(m), Word(n)) <==> Fits(m, n)
    ensures Word(m) == Word(n) <==> m == n
  {
    hide Bits, FitsMask, Fits;
    WordSize();
    BitsFit(m, n, 32);
    if Word(m) == Word(n) {
      BitsDiffer(m, n, 32);
    }
  }

  lemma {:induction false} MaxPriorityBounds(priorities: seq<u32>, k: nat)
    requires k < |priorities|
    ensures priorities[k] <= MaxPriority(priorities)
  {
    if k != 0 {
      MaxPriorityBounds(priorities[1..], k - 1);
    }
  }

  lemma FittingMark(mark: bv32, mask: bv32)
    ensures FitsMask(mark, mask) ==> Inside(mark, mask) == mark
  {
  }

  /** Validation looks at the highest mark only. Under that check, every mark from the lowest to the highest
      fits the mask exactly when the mask covers the binary digits in which those two differ and every digit
      below them. */
  lemma MarksFitExactly(c: RoutingConfig, priorities: seq<u32>)
    requires Validates(c, priorities)
    ensures var last := c.fwmarkBase + MaxPriority(priorities);
            Covers(c.fwmarkMask, c.fwmarkBase, last) <==>
            forall mark: u32 | c.fwmarkBase <= mark <= last :: FitsMask(Word(mark), Word(c.fwmarkMask))
  {
    hide Fits, Covers, FitsMask, Word;
    var last := c.fwmarkBase + MaxPriority(priorities);
    RangeFitsExactly(c.fwmarkMask, c.fwmarkBase, last);
    if Covers(c.fwmarkMask, c.fwmarkBase, last) {
      forall mark: u32 | c.fwmarkBase <= mark <= last ensures FitsMask(Word(mark), Word(c.fwmarkMask)) {
        WordMeaning(mark, c.fwmarkMask);
      }
    }
    if forall mark: u32 | c.fwmarkBase <= mark <= last :: FitsMask(Word(mark), Word(c.fwmarkMask)) {
      forall x: nat | c.fwmarkBase <= x <= last ensures Fits(x, c.fwmarkMask) {
        WordMeaning(x, c.fwmarkMask);
      }
    }
  }

  /** A mask of the form 2^k - 1 always passes that condition. */
  lemma ContiguousMaskSuffices(c: RoutingConfig, priorities: seq<u32>)
    requires Validates(c, priorities) && Contiguous(c.fwmarkMask)
    ensures Covers(c.fwmarkMask, c.fwmarkBase, c.fwmarkBase + MaxPriority(priorities))
  {
    hide Fits, Covers, FitsMask, Word, Contiguous;
    WordMeaning(c.fwmarkBase + MaxPriority(priorities), c.fwmarkMask);
    ContiguousCovers(c.fwmarkMask, c.fwmarkBase, c.fwmarkBase + MaxPriority(priorities));
  }

  /** What the mask leaves of a mark, as a word and as a number. */
  lemma MaskedMeaning(m: u32, n: u32, mask: u32)
    ensures And(m, mask) <= U32_MAX && And(n, mask) <= U32_MAX && Inside(Word(m), Word(mask)) == Word(And(m, mask))
    ensures Inside(Word(m), Word(mask)) == Inside(Word(n), Word(mask)) <==> And(m, mask) == And(n, mask)
    ensures Inside(Word(m), Word(mask)) == Word(m) <==> Fits(m, mask)
    ensures Inside(Word(m), Word(mask)) == 0 <==> And(m, mask) == 0
  {
    hide Inside, Bits, And, Fits, FitsMask;
    BitsAnd(m, mask, 32);
    BitsAnd(n, mask, 32);
    AndIsPart(m, mask);
    AndIsPart(n, mask);
    WordMeaning(And(m, mask), And(n, mask));
    WordMeaning(And(m, mask), m);
    WordMeaning(And(m, mask), 0);
    ZeroBits(32);
  }

  /** Every validated provider's numbers: no sum leaves 32 bits, and no table or preference is a reserved one. */
  lemma NumbersInRange(c: RoutingConfig, priorities: seq<u32>, i: nat)
    requires Validates(c, priorities) && i < |priorities|
    ensures var p, top := priorities[i], MaxPriority(priorities);
            && MarkFor(c, p) == c.fwmarkBase + p <= c.fwmarkBase + top <= U32_MAX
            && TableFor(c, p) == c.tableBase + p && TableFor(c, p) != 0 && !(253 <= TableFor(c, p) <= 255)
            && RulePrefFor(c, p) == c.rulePref + p && 100 <= RulePrefFor(c, p) < 32766
            && Fits(c.fwmarkBase + top, c.fwmarkMask) && And(c.fwmarkBase, c.fwmarkMask) != 0
  {
    hide Fits, FitsMask, Bits, Inside, And;
    MaxPriorityBounds(priorities, i);
    WordMeaning(c.fwmarkBase + MaxPriority(priorities), c.fwmarkMask);
    MaskedMeaning(c.fwmarkBase, c.fwmarkBase, c.fwmarkMask);
  }

  /** Validation looks at the highest mark only. Under that check, the mask tells the marks from the lowest to the
      highest apart, and so any providers with such priorities, exactly under this condition on the mask. */
  lemma MarksApartExactly(c: RoutingConfig, priorities: seq<u32>)
    requires Validates(c, priorities)
    ensures var last := c.fwmarkBase + MaxPriority(priorities);
            Apart(c.fwmarkMask, c.fwmarkBase, last) <==>
            forall m: u32, n: u32 | c.fwmarkBase <= m < n <= last ::
              Inside(Word(m), Word(c.fwmarkMask)) != Inside(Word(n), Word(c.fwmarkMask))
  {
    hide Fits, FitsMask, Bits, Inside, And, Apart;
    var base, last := c.fwmarkBase, c.fwmarkBase + MaxPriority(priorities);
    NumbersInRange(c, priorities, 0);
    RangeApartExactly(c.fwmarkMask, base, last);
    if Apart(c.fwmarkMask, base, last) {
      forall m: u32, n: u32 | base <= m < n <= last ensures Inside(Word(m), Word(c.fwmarkMask)) != Inside(Word(n), Word(c.fwmarkMask)) {
        MaskedMeaning(m, n, c.fwmarkMask);
      }
    }
    if forall m: u32, n: u32 | base <= m < n <= last :: Inside(Word(m), Word(c.fwmarkMask)) != Inside(Word(n), Word(c.fwmarkMask)) {
      forall x: nat, y: nat | base <= x < y <= last ensures And(x, c.fwmarkMask) != And(y, c.fwmarkMask) {
        MaskedMeaning(x, y, c.fwmarkMask);
      }
    }
  }

  /** A mask under which all marks fit tells them apart. */
  lemma CoveringMaskSuffices(c: RoutingConfig, priorities: seq<u32>)
    requires Validates(c, priorities)
    ensures var last := c.fwmarkBase + MaxPriority(priorities);
            Covers(c.fwmarkMask, c.fwmarkBase, last) ==> Apart(c.fwmarkMask, c.fwmarkBase, last)
  {
    hide Fits, FitsMask, Bits, Inside, And, Apart, Covers;
    if Covers(c.fwmarkMask, c.fwmarkBase, c.fwmarkBase + MaxPriority(priorities)) {
      CoveredAreApart(c.fwmarkMask, c.fwmarkBase, c.fwmarkBase + MaxPriority(priorities));
    }
  }

  /** Validated providers never share a table or a rule preference; with a mask that tells the marks apart they never
      share a mark as far as the mask goes either, and none is masked away. */
  lemma ProvidersStayApart(c: RoutingConfig, priorities: seq<u32>, i: nat, j: nat)
    requires Validates(c, priorities) && i < |priorities| && j < |priorities| && i != j
    ensures var p, q, mask := priorities[i], priorities[j], Word(c.fwmarkMask);
            && TableFor(c, p) != TableFor(c, q) && RulePrefFor(c, p) != RulePrefFor(c, q)
            && (Apart(c.fwmarkMask, c.fwmarkBase, c.fwmarkBase + MaxPriority(priorities)) ==>
                && Inside(Word(MarkFor(c, p)), mask) != Inside(Word(MarkFor(c, q)), mask)
                && Inside(Word(MarkFor(c, p)), mask) != 0)
  {
    hide Fits, FitsMask, Bits, Inside, And, Apart, MarkFor, TableFor, RulePrefFor;
    var p, q := priorities[i], priorities[j];
    NumbersInRange(c, priorities, i);
    NumbersInRange(c, priorities, j);
    assert p != q by {
      if i < j {
        assert priorities[i] != priorities[j];
      } else {
        assert priorities[j] != priorities[i];
      }
    }
    var last := c.fwmarkBase + MaxPriority(priorities);
    if Apart(c.fwmarkMask, c.fwmarkBase, last) {
      MaskedMeaning(MarkFor(c, p), MarkFor(c, q), c.fwmarkMask);
      ApartDiffer(c.fwmarkMask, c.fwmarkBase, last, Min(MarkFor(c, p), MarkFor(c, q)), Max(MarkFor(c, p), MarkFor(c, q)));
      if MarkFor(c, p) != c.fwmarkBase {
        ApartNonZero(c.fwmarkMask, c.fwmarkBase, last, MarkFor(c, p));
      }
    }
  }

  /** Evicting provider `j` costs a connection stamped for provider `i`, over any run in between that does not forget
      it, exactly when what the mask leaves of the one mark is the other mark. So evicting a provider reaches its own
      connections exactly when its mark fits the mask; and with a mask that tells the marks apart it never reaches
      another's. */
  lemma ProviderEvictionExactly(c: RoutingConfig, priorities: seq<u32>, i: nat, j: nat, t: Tracking, h: Happening, hs: seq<Happening>)
    requires Validates(c, priorities) && i < |priorities| && j < |priorities|
    requires var mask, mark := Word(c.fwmarkMask), Word(MarkFor(c, priorities[i]));
             && t.rules == PinRules(mark, mask) && Inside(mark, mask) != 0 && Stamps(mask, t, h)
             && forall k | 0 <= k < |hs| :: !Forgets(hs[k], h.conn, Inside(mark, mask))
    ensures var mask, mark, evicted := Word(c.fwmarkMask), Word(MarkFor(c, priorities[i])), Word(MarkFor(c, priorities[j]));
            var before := AfterAll(mask, Happen(mask, t, h), hs);
            var lost := h.conn in before.conns && h.conn !in Happen(mask, before, Evict(evicted)).conns;
            && (lost <==> Inside(mark, mask) == evicted)
            && (i == j ==> (lost <==> Fits(MarkFor(c, priorities[i]), c.fwmarkMask)))
            && (i != j && Apart(c.fwmarkMask, c.fwmarkBase, c.fwmarkBase + MaxPriority(priorities)) ==> !lost)
  {
    hide Fits, FitsMask, Bits, Inside, And, Apart, MarkFor, Traverse, Happen, AfterAll, PinRules;
    var mask, mark, evicted := Word(c.fwmarkMask), Word(MarkFor(c, priorities[i])), Word(MarkFor(c, priorities[j]));
    EvictionCostsExactly(mask, t, h, hs, mark, evicted);
    MaskedMeaning(MarkFor(c, priorities[i]), MarkFor(c, priorities[j]), c.fwmarkMask);
    if i != j && Inside(mark, mask) == evicted {
      InsideTwice(mark, mask);
      ProvidersStayApart(c, priorities, i, j);
    }
  }

  lemma {:induction false} ZeroBits(w: nat)
    ensures Bits(0, w) == 0
  {
    if w != 0 {
      ZeroBits(w - 1);
    }
  }

  lemma SparseWords()
    ensures Word(0x200) == 0x200 && Word(0x201) == 0x201 && Word(0x300) == 0x300 && Word(0x0F00) == 0x0F00
  {
    ZeroBits(20);
    assert Bits(0xF, 24) == 0xF && Bits(0x3, 24) == 0x3 && Bits(0x2, 24) == 0x2;
  }

  lemma SparseMarks()
    ensures FitsMask(Word(0x300), Word(0x0F00)) && Inside(Word(0x200), Word(0x0F00)) != 0
    ensures Inside(Word(0x200), Word(0x0F00)) == Inside(Word(0x201), Word(0x0F00))
  {
    hide Bits;
    SparseWords();
  }

  /** With holes in the mask the check is not enough: these three providers pass validation, and two of them
      have the same mark as far as the mask can tell. */
  lemma SparseMaskAliases()
    ensures var c, priorities := RoutingConfig(1000, 0x200, 0x0F00, 1000), [0, 1, 256];
            && Validates(c, priorities) && !Apart(c.fwmarkMask, c.fwmarkBase, c.fwmarkBase + 256)
            && Inside(Word(MarkFor(c, 0)), Word(c.fwmarkMask)) == Inside(Word(MarkFor(c, 1)), Word(c.fwmarkMask))
  {
    hide Validates, Apart, Word, Bits, Inside, FitsMask;
    SparseMarks();
    SparseValidates();
    SparseNotApart();
  }

  lemma SparseNotApart()
    ensures !Apart(0x0F00, 0x200, 0x300)
  {
  }

  lemma SparseValidates()
    ensures Validates(RoutingConfig(1000, 0x200, 0x0F00, 1000), [0, 1, 256])
  {
    hide Word, Bits, Inside, FitsMask, MaxPriority;
    SparseMaximum();
    SparseMarks();
  }

  lemma SparseMaximum()
    ensures MaxPriority([0, 1, 256]) == 256
  {
    var priorities: seq<u32> := [0, 1, 256];
    assert priorities[1..] == [1, 256] && priorities[1..][1..] == [256] && priorities[1..][1..][1..] == [];
    assert MaxPriority(priorities[1..][1..]) == 256;
    assert MaxPriority(priorities[1..]) == 256;
  }
}
