/**
 Reading `ip -4 route show default` back (`src/net/router.rs`), token by token. A line is taken as the
 tokens that splitting at white space leaves.
 */
module RouteListing {
  import opened Basics
  import opened Routing
  import Text

  type Tokens = seq<string>

  // ── addresses and numbers as text ─────────────────────────────────────

  predicate IsOctet(s: string) {
    && 1 <= |s| <= 3 && (forall c | c in s :: Text.IsDigit(c))
    && (|s| > 1 ==> s[0] != '0')
    && Text.DecimalValue(s) < 256
  }

  function ParseAddress(s: string): Option<Address> {
    var parts := Text.Split(s, '.');
    if |parts| == 4 && IsOctet(parts[0]) && IsOctet(parts[1]) && IsOctet(parts[2]) && IsOctet(parts[3])
    then Some(Text.DecimalValue(parts[0]) * 0x100_0000 + Text.DecimalValue(parts[1]) * 0x1_0000
              + Text.DecimalValue(parts[2]) * 0x100 + Text.DecimalValue(parts[3]))
    else None
  }

  function Dotted(a: Address): string {
    Text.Decimal(a / 0x100_0000) + ['.'] + (Text.Decimal(a / 0x1_0000 % 256) + ['.'] +
    (Text.Decimal(a / 0x100 % 256) + ['.'] + Text.Decimal(a % 256)))
  }

  function ParseU32(s: string): Option<nat> {
    var n := Text.ParseU64(s);
    if n.Some? && n.value <= U32_MAX then n else None
  }

  lemma {:induction false} DecimalShape(n: nat)
    ensures (n < 10 ==> |Text.Decimal(n)| == 1) && (n < 100 ==> |Text.Decimal(n)| <= 2) && (n < 1000 ==> |Text.Decimal(n)| <= 3)
    ensures n != 0 ==> Text.Decimal(n)[0] != '0'
  {
    if n >= 10 {
      DecimalShape(n / 10);
    } else {
      assert Text.Decimal(n) == ['0' + n as char];
    }
  }

  lemma OctetText(n: nat)
    requires n < 256
    ensures IsOctet(Text.Decimal(n)) && Text.DecimalValue(Text.Decimal(n)) == n && '.' !in Text.Decimal(n)
  {
    DecimalShape(n);
    Text.DecimalRoundTrip(n);
  }

  lemma LastDigit(init: string, last: char)
    requires init != "" && (forall c | c in init :: Text.IsDigit(c)) && Text.IsDigit(last)
    requires Text.DecimalValue(init) >= 1 && Text.Decimal(Text.DecimalValue(init)) == init
    ensures (forall c | c in init + [last] :: Text.IsDigit(c))
    ensures Text.DecimalValue(init + [last]) >= 10 && Text.Decimal(Text.DecimalValue(init + [last])) == init + [last]
  {
    hide Text.DecimalValue;
    ValueNext(init, last);
  }

  lemma ValueNext(init: string, last: char)
    requires (forall c | c in init :: Text.IsDigit(c)) && Text.IsDigit(last)
    ensures (forall c | c in init + [last] :: Text.IsDigit(c))
    ensures Text.DecimalValue(init + [last]) == 10 * Text.DecimalValue(init) + Text.DigitValue(last)
  {
    assert (init + [last])[..|init|] == init;
  }

  lemma OneDigit(c: char)
    requires Text.IsDigit(c)
    ensures (forall d | d in [c] :: Text.IsDigit(d)) && Text.Decimal(Text.DecimalValue([c])) == [c]
    ensures [c] != "0" ==> Text.DecimalValue([c]) >= 1
  {
    ValueNext("", c);
    assert "" + [c] == [c] && Text.DecimalValue("") == 0;
    assert ['0' + Text.DigitValue(c) as char] == [c];
  }

  /** Digits without a leading zero are the decimal form of their value. */
  lemma {:induction false} DecimalIsShown(s: string)
    requires 1 <= |s| && (forall c | c in s :: Text.IsDigit(c)) && (|s| > 1 ==> s[0] != '0')
    ensures Text.Decimal(Text.DecimalValue(s)) == s
    ensures s != "0" ==> Text.DecimalValue(s) >= 1
  {
    hide Text.Decimal, Text.DecimalValue, Text.IsDigit;
    var init, last := s[..|s| - 1], s[|s| - 1];
    assert s == init + [last] && last in s;
    if |s| == 1 {
      assert s == [last];
      OneDigit(last);
    } else {
      forall c | c in init ensures Text.IsDigit(c) { assert c in s; }
      DecimalIsShown(init);
      assert init[0] == s[0];
      LastDigit(init, last);
    }
  }

  lemma SplitHead(s: string, c: char)
    ensures var parts := Text.Split(s, c);
            if |parts| == 1 then s == parts[0]
            else |parts[0]| < |s| && s == parts[0] + [c] + s[|parts[0]| + 1..] && Text.Split(s[|parts[0]| + 1..], c) == parts[1..]
  {
    hide Text.TakeUntil;
    var head := Text.TakeUntil(s, c);
    if |head| < |s| {
      HeadRest(s, head, c);
      assert Text.Split(s, c) == [head] + Text.Split(s[|head| + 1..], c);
    }
  }

  lemma HeadRest(s: string, head: string, c: char)
    requires head <= s && |head| < |s| && s[|head|] == c
    ensures s == head + [c] + s[|head| + 1..]
  {
  }

  /** A text parses as an address exactly if it is that address as a dotted quad. */
  lemma OnlyDottedQuads(s: string, a: Address)
    ensures ParseAddress(s) == Some(a) <==> s == Dotted(a)
  {
    if s == Dotted(a) {
      AddressRoundTrip(a);
    }
    if ParseAddress(s) == Some(a) {
      QuadIsJoined(s);
      var p := Text.Split(s, '.');
      forall k | 0 <= k < 4 ensures Text.Decimal(Text.DecimalValue(p[k])) == p[k] {
        DecimalIsShown(p[k]);
      }
      QuadDigits(Text.DecimalValue(p[0]), Text.DecimalValue(p[1]), Text.DecimalValue(p[2]), Text.DecimalValue(p[3]));
    }
  }

  lemma QuadIsJoined(s: string)
    requires |Text.Split(s, '.')| == 4
    ensures var p := Text.Split(s, '.'); s == p[0] + ['.'] + (p[1] + ['.'] + (p[2] + ['.'] + p[3]))
  {
    hide Text.Split;
    var p := Text.Split(s, '.');
    SplitHead(s, '.');
    var t := s[|p[0]| + 1..];
    SplitHead(t, '.');
    var u := t[|p[1]| + 1..];
    SplitHead(u, '.');
    SplitHead(u[|p[2]| + 1..], '.');
  }

  lemma QuadDigits(a: nat, b: nat, c: nat, d: nat)
    requires a < 256 && b < 256 && c < 256 && d < 256
    ensures var n := a * 0x100_0000 + b * 0x1_0000 + c * 0x100 + d;
            n / 0x100_0000 == a && n / 0x1_0000 % 256 == b && n / 0x100 % 256 == c && n % 256 == d
  {
    var high := a * 0x1_0000 + b * 0x100 + c;
    var n := high * 0x100 + d;
    DivMod(high, d);
    DivMod(a * 0x100 + b, c);
    DivMod(a, b);
    DivTwice(n);
  }

  lemma DivMod(q: nat, r: nat)
    requires r < 256
    ensures (q * 256 + r) / 256 == q && (q * 256 + r) % 256 == r
  {
  }

  lemma DivTwice(n: nat)
    ensures n / 0x1_0000 == n / 256 / 256 && n / 0x100_0000 == n / 256 / 256 / 256
  {
  }

  lemma QuadSplits(p: string, q: string, r: string, s: string)
    requires '.' !in p && '.' !in q && '.' !in r && '.' !in s
    ensures Text.Split(p + ['.'] + (q + ['.'] + (r + ['.'] + s)), '.') == [p, q, r, s]
  {
    hide Text.Split;
    Text.SplitAt(s, "", '.');
    Text.SplitAt(r, s, '.');
    Text.SplitAt(q, r + ['.'] + s, '.');
    Text.SplitAt(p, q + ['.'] + (r + ['.'] + s), '.');
    assert [p] + ([q] + ([r] + [s])) == [p, q, r, s];
  }

  lemma DigitSplit(n: nat, unit: nat)
    requires unit == 0x100 || unit == 0x1_0000
    ensures n / unit == n / (256 * unit) * 256 + n / unit % 256
  {
    if unit == 0x100 {
      assert n / 0x100 / 256 == n / 0x1_0000;
    } else {
      assert n / 0x1_0000 / 256 == n / 0x100_0000;
    }
  }

  lemma QuadValue(a: Address)
    ensures a / 0x100_0000 < 256
    ensures a / 0x100_0000 * 0x100_0000 + a / 0x1_0000 % 256 * 0x1_0000 + a / 0x100 % 256 * 0x100 + a % 256 == a
  {
    DigitSplit(a, 0x100);
    DigitSplit(a, 0x1_0000);
    assert a == a / 0x100 * 0x100 + a % 256;
  }

  lemma AddressRoundTrip(a: Address)
    ensures ParseAddress(Dotted(a)) == Some(a)
  {
    hide IsOctet, Text.Decimal, Text.DecimalValue, Text.Split;
    QuadValue(a);
    OctetText(a / 0x100_0000);
    OctetText(a / 0x1_0000 % 256);
    OctetText(a / 0x100 % 256);
    OctetText(a % 256);
    QuadSplits(Text.Decimal(a / 0x100_0000), Text.Decimal(a / 0x1_0000 % 256), Text.Decimal(a / 0x100 % 256), Text.Decimal(a % 256));
  }

  // ── one line ──────────────────────────────────────────────────────────

  /** What the clauses read so far say; a later clause of the same kind wins. */
  datatype Clauses = Clauses(gateway: Option<Address>, interface: Option<string>, metric: Option<nat>, proto: Option<string>)

  const NO_CLAUSES := Clauses(None, None, None, None)

  datatype Keyword = Via | Dev | Metric | Proto

  function KeywordOf(token: string): Option<Keyword> {
    match token
    case "via" => Some(Via)
    case "dev" => Some(Dev)
    case "metric" => Some(Metric)
    case "proto" => Some(Proto)
    case _ => None
  }

  lemma KeywordTexts()
    ensures KeywordOf("via") == Some(Via) && KeywordOf("dev") == Some(Dev)
    ensures KeywordOf("metric") == Some(Metric) && KeywordOf("proto") == Some(Proto) && KeywordOf("default") == None
  {
    assert "default"[0] == 'd' && "dev"[0] == 'd' && |"default"| == 7;
  }

  function TokenAt(tokens: Tokens, i: nat): Option<string> {
    if i < |tokens| then Some(tokens[i]) else None
  }

  function ReadClause(keyword: Keyword, operand: Option<string>, c: Clauses): Clauses {
    match keyword
    case Via => c.(gateway := if operand.Some? then ParseAddress(operand.value) else None)
    case Dev => c.(interface := operand)
    case Metric => c.(metric := if operand.Some? then ParseU32(operand.value) else None)
    case Proto => c.(proto := operand)
  }

  function ReadClauses(tokens: Tokens, i: nat, c: Clauses): Clauses
    decreases |tokens| - i
  {
    if i >= |tokens| then c
    else
      match KeywordOf(tokens[i])
      case Some(keyword) => ReadClauses(tokens, i + 2, ReadClause(keyword, TokenAt(tokens, i + 1), c))
      case None => ReadClauses(tokens, i + 1, c)
  }

  predicate IsDefaultLine(tokens: Tokens) {
    |tokens| > 1 && tokens[0] == "default"
  }

  function RouteIn(tokens: Tokens): Option<InstalledRoute> {
    var c := ReadClauses(tokens, 0, NO_CLAUSES);
    if IsDefaultLine(tokens) && c.gateway.Some? && c.interface.Some?
    then Some(InstalledRoute(c.gateway.value, c.interface.value, c.metric, c.proto)) else None
  }

  function RoutesIn(lines: seq<Tokens>): seq<InstalledRoute> {
    if |lines| == 0 then []
    else RoutesIn(lines[..|lines| - 1]) + (match RouteIn(lines[|lines| - 1]) case Some(r) => [r] case None => [])
  }

  method ParseAllDefaults(lines: seq<Tokens>) returns (found: seq<InstalledRoute>)
    ensures found == RoutesIn(lines)
  {
    found := [];
    for k := 0 to |lines|
      invariant found == RoutesIn(lines[..k])
    {
      var tokens := lines[k];
      assert lines[..k + 1][..k] == lines[..k];
      if !IsDefaultLine(tokens) {
        continue;
      }
      var gateway: Option<Address>, interface: Option<string>, metric: Option<nat>, proto: Option<string> := None, None, None, None;
      var i := 0;
      while i < |tokens|
        invariant ReadClauses(tokens, i, Clauses(gateway, interface, metric, proto)) == ReadClauses(tokens, 0, NO_CLAUSES)
      {
        match KeywordOf(tokens[i]) {
          case Some(Via) =>
            gateway := if i + 1 < |tokens| then ParseAddress(tokens[i + 1]) else None;
            i := i + 2;
          case Some(Dev) =>
            interface := TokenAt(tokens, i + 1);
            i := i + 2;
          case Some(Metric) =>
            metric := if i + 1 < |tokens| then ParseU32(tokens[i + 1]) else None;
            i := i + 2;
          case Some(Proto) =>
            proto := TokenAt(tokens, i + 1);
            i := i + 2;
          case None =>
            i := i + 1;
        }
      }
      if gateway.None? || interface.None? {
        continue;
      }
      found := found + [InstalledRoute(gateway.value, interface.value, metric, proto)];
    }
    assert lines[..|lines|] == lines;
  }

  // ── what the kernel prints ────────────────────────────────────────────

  function ViaTokens(r: Route): Tokens {
    if r.via.Some? then ["via", Dotted(r.via.value)] else []
  }

  function ProtoTokens(r: Route): Tokens {
    if r.proto.Some? then ["proto", r.proto.value] else []
  }

  function MetricTokens(r: Route): Tokens {
    if r.metric != 0 then ["metric", Text.Decimal(r.metric)] else []
  }

  /** The order is the kernel's; `other` stands for the clauses the daemon does not read, such as a source
      address or a scope. */
  function Print(r: Route, other: Tokens): Tokens {
    ["default"] + ViaTokens(r) + ["dev", r.dev] + ProtoTokens(r) + other + MetricTokens(r)
  }

  lemma ClauseThenRest(keyword: Keyword, word: string, operand: string, rest: Tokens, before: Tokens, c: Clauses)
    requires KeywordOf(word) == Some(keyword)
    ensures ReadClauses(before + [word, operand] + rest, |before|, c) ==
            ReadClauses(before + [word, operand] + rest, |before| + 2, ReadClause(keyword, Some(operand), c))
  {
    hide ReadClause, KeywordOf;
    var tokens := before + [word, operand] + rest;
    assert tokens[|before|] == word && tokens[|before| + 1] == operand;
  }

  lemma {:induction false} OthersSkipped(tokens: Tokens, from: nat, n: nat, c: Clauses)
    requires from + n <= |tokens| && forall k | from <= k < from + n :: KeywordOf(tokens[k]).None?
    ensures ReadClauses(tokens, from, c) == ReadClauses(tokens, from + n, c)
    decreases n
  {
    if n != 0 {
      OthersSkipped(tokens, from + 1, n - 1, c);
    }
  }

  lemma OptionalClause(present: bool, keyword: Keyword, word: string, operand: string, before: Tokens, rest: Tokens, c: Clauses)
    requires KeywordOf(word) == Some(keyword)
    ensures var clause := if present then [word, operand] else [];
            ReadClauses(before + clause + rest, |before|, c) ==
            ReadClauses(before + clause + rest, |before + clause|, if present then ReadClause(keyword, Some(operand), c) else c)
  {
    hide ReadClause, ReadClauses, KeywordOf;
    if present {
      ClauseThenRest(keyword, word, operand, rest, before, c);
    }
  }

  lemma MetricText(metric: nat)
    requires metric <= U32_MAX
    ensures ParseU32(Text.Decimal(metric)) == Some(metric)
  {
    Text.ParsesBack(metric);
  }

  function ClausesOf(r: Route): Clauses {
    Clauses(r.via, Some(r.dev), if r.metric == 0 then None else Some(r.metric), r.proto)
  }

  lemma ViaRead(r: Route, rest: Tokens)
    ensures var tokens := ["default"] + ViaTokens(r) + rest;
            ReadClauses(tokens, 0, NO_CLAUSES) == ReadClauses(tokens, |["default"] + ViaTokens(r)|, NO_CLAUSES.(gateway := r.via))
  {
    hide ReadClauses, Dotted, ParseAddress, KeywordOf;
    var tokens := ["default"] + ViaTokens(r) + rest;
    KeywordTexts();
    assert tokens[0] == "default";
    OthersSkipped(tokens, 0, 1, NO_CLAUSES);
    OptionalClause(r.via.Some?, Via, "via", if r.via.Some? then Dotted(r.via.value) else "", ["default"], rest, NO_CLAUSES);
    if r.via.Some? {
      AddressRoundTrip(r.via.value);
    }
  }

  lemma TailRead(r: Route, head: Tokens, other: Tokens, c: Clauses)
    requires r.metric <= U32_MAX && forall k | 0 <= k < |other| :: KeywordOf(other[k]).None?
    requires c.metric == None && c.proto == None
    ensures ReadClauses(head + ["dev", r.dev] + (ProtoTokens(r) + other + MetricTokens(r)), |head|, c) == ClausesOf(r).(gateway := c.gateway)
  {
    hide ReadClauses, ProtoTokens, MetricTokens, KeywordOf;
    KeywordTexts();
    OptionalClause(true, Dev, "dev", r.dev, head, ProtoTokens(r) + other + MetricTokens(r), c);
    ProtoRead(r, head + ["dev", r.dev], other, c.(interface := Some(r.dev)));
  }

  lemma Regroup(a: Tokens, b: Tokens, c: Tokens, d: Tokens)
    ensures a + (b + c + d) == a + b + (c + d) && a + (c + d) == a + c + d
  {
  }

  lemma ProtoRead(r: Route, before: Tokens, other: Tokens, c: Clauses)
    requires r.metric <= U32_MAX && forall k | 0 <= k < |other| :: KeywordOf(other[k]).None?
    requires c.metric == None && c.proto == None
    ensures ReadClauses(before + (ProtoTokens(r) + other + MetricTokens(r)), |before|, c) ==
            c.(proto := r.proto, metric := if r.metric == 0 then None else Some(r.metric))
  {
    hide ReadClauses, MetricTokens, KeywordOf;
    KeywordTexts();
    Regroup(before, ProtoTokens(r), other, MetricTokens(r));
    OptionalClause(r.proto.Some?, Proto, "proto", if r.proto.Some? then r.proto.value else "", before, other + MetricTokens(r), c);
    MetricRead(r, before + ProtoTokens(r), other, c.(proto := r.proto));
  }

  lemma LastClause(present: bool, keyword: Keyword, word: string, operand: string, before: Tokens, c: Clauses)
    requires KeywordOf(word) == Some(keyword)
    ensures ReadClauses(before + (if present then [word, operand] else []), |before|, c) ==
            if present then ReadClause(keyword, Some(operand), c) else c
  {
    hide ReadClause, KeywordOf, ReadClauses;
    var clause := if present then [word, operand] else [];
    assert before + clause + [] == before + clause;
    OptionalClause(present, keyword, word, operand, before, [], c);
    NothingLeft(before + clause, if present then ReadClause(keyword, Some(operand), c) else c);
  }

  lemma OthersRead(before: Tokens, other: Tokens, after: Tokens, c: Clauses)
    requires forall k | 0 <= k < |other| :: KeywordOf(other[k]).None?
    ensures ReadClauses(before + other + after, |before|, c) == ReadClauses(before + other + after, |before + other|, c)
  {
    hide ReadClauses, KeywordOf;
    OthersInside(before, other, after);
    OthersSkipped(before + other + after, |before|, |other|, c);
  }

  lemma MetricRead(r: Route, before: Tokens, other: Tokens, c: Clauses)
    requires r.metric <= U32_MAX && c.metric == None && forall k | 0 <= k < |other| :: KeywordOf(other[k]).None?
    ensures ReadClauses(before + (other + MetricTokens(r)), |before|, c) == c.(metric := if r.metric == 0 then None else Some(r.metric))
  {
    hide ReadClauses, Text.Decimal, ParseU32, KeywordOf;
    KeywordTexts();
    Regroup(before, [], other, MetricTokens(r));
    OthersRead(before, other, MetricTokens(r), c);
    LastClause(r.metric != 0, Metric, "metric", Text.Decimal(r.metric), before + other, c);
    MetricText(r.metric);
  }

  /** Whatever clauses the kernel adds, and even if an interface is named like a keyword, a printed default is
      read back as itself, or is passed over when it names no next hop. */
  lemma PrintedReadsBack(r: Route, other: Tokens)
    requires r.metric <= U32_MAX && forall k | 0 <= k < |other| :: KeywordOf(other[k]).None?
    ensures RouteIn(Print(r, other)) == if r.via.Some? then Some(Show(r)) else None
  {
    hide ReadClauses, ViaTokens, ProtoTokens, MetricTokens, KeywordOf;
    var tokens := Print(r, other);
    var head := ["default"] + ViaTokens(r);
    PrintShape(r, other);
    ViaRead(r, ["dev", r.dev] + (ProtoTokens(r) + other + MetricTokens(r)));
    TailRead(r, head, other, NO_CLAUSES.(gateway := r.via));
    assert ReadClauses(tokens, 0, NO_CLAUSES) == ClausesOf(r);
  }

  lemma PrintShape(r: Route, other: Tokens)
    ensures var tail := ProtoTokens(r) + other + MetricTokens(r);
            && Print(r, other) == ["default"] + ViaTokens(r) + (["dev", r.dev] + tail)
            && Print(r, other) == ["default"] + ViaTokens(r) + ["dev", r.dev] + tail
    ensures IsDefaultLine(Print(r, other))
  {
    hide Text.Decimal, Dotted;
  }

  lemma OthersInside(before: Tokens, other: Tokens, after: Tokens)
    requires forall k | 0 <= k < |other| :: KeywordOf(other[k]).None?
    ensures forall k | |before| <= k < |before| + |other| :: KeywordOf((before + other + after)[k]).None?
  {
    forall k | |before| <= k < |before| + |other| ensures KeywordOf((before + other + after)[k]).None? {
      assert (before + other + after)[k] == other[k - |before|];
    }
  }

  lemma NothingLeft(tokens: Tokens, c: Clauses)
    ensures ReadClauses(tokens, |tokens|, c) == c
  {
  }

  function PrintAll(table: seq<Route>, others: seq<Tokens>): seq<Tokens>
    requires |others| == |table|
  {
    seq(|table|, i requires 0 <= i < |table| => Print(table[i], others[i]))
  }

  lemma {:induction false} RoutesInSplits(a: seq<Tokens>, b: seq<Tokens>)
    ensures RoutesIn(a + b) == RoutesIn(a) + RoutesIn(b)
  {
    if |b| == 0 {
      assert a + b == a;
    } else {
      assert (a + b)[..|a + b| - 1] == a + b[..|b| - 1];
      RoutesInSplits(a, b[..|b| - 1]);
    }
  }

  /** Parsing what the kernel prints of a table gives exactly the listing the rest of the model works with: the
      defaults with a next hop, in table order. */
  lemma {:induction false} ListingIsFaithful(table: seq<Route>, others: seq<Tokens>)
    requires |others| == |table| && forall r | r in table :: r.metric <= U32_MAX
    requires forall i, k | 0 <= i < |others| && 0 <= k < |others[i]| :: KeywordOf(others[i][k]).None?
    ensures RoutesIn(PrintAll(table, others)) == Listed(table)
  {
    hide Print, RouteIn, KeywordOf;
    if |table| != 0 {
      var lines := PrintAll(table, others);
      assert lines == [lines[0]] + PrintAll(table[1..], others[1..]);
      forall i, k | 0 <= i < |others[1..]| && 0 <= k < |others[1..][i]| ensures KeywordOf(others[1..][i][k]).None? {
        assert others[1..][i] == others[i + 1];
      }
      ListingIsFaithful(table[1..], others[1..]);
      RoutesInSplits([lines[0]], lines[1..]);
      PrintedReadsBack(table[0], others[0]);
      assert [lines[0]][..0] == [];
      assert RoutesIn([lines[0]]) == if table[0].via.Some? then [Show(table[0])] else [];
    }
  }
}
