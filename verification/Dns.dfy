/**
 DNS over UDP (`src/net/health.rs`): the query builder and the walk over the answers, after sections
 4.1.1 to 4.1.4 of RFC 1035.
 */
module Dns {
  import opened Basics

  type u16 = x: int | 0 <= x < 0x10000

  function U16Bytes(x: u16): (b: seq<byte>)
    ensures |b| == 2
  {
    [x / 256, x % 256]
  }

  function U16At(b: seq<byte>, p: nat): u16
    requires p + 2 <= |b|
  {
    Word(b[p], b[p + 1])
  }

  /** Two octets in network order. */
  function Word(high: byte, low: byte): u16 {
    (high as int) * 256 + low as int
  }

  const DOT: byte := 46

  // ── building a query ──────────────────────────────────────────────────

  /** The non-empty labels of a dotted name; `current` is the label being read. */
  function LabelsFrom(name: seq<byte>, current: seq<byte>): seq<seq<byte>> {
    if |name| == 0 then (if current == [] then [] else [current])
    else if name[0] == DOT then (if current == [] then [] else [current]) + LabelsFrom(name[1..], [])
    else LabelsFrom(name[1..], current + [name[0]])
  }

  function Labels(name: seq<byte>): seq<seq<byte>> {
    LabelsFrom(name, [])
  }

  /** A label on the wire holds at most 63 octets. */
  function Cut(octets: seq<byte>): seq<byte> {
    octets[..Min(|octets|, 63)]
  }

  function EncodeLabels(labels: seq<seq<byte>>): seq<byte> {
    if |labels| == 0 then [] else [|Cut(labels[0])|] + Cut(labels[0]) + EncodeLabels(labels[1..])
  }

  function QueryHeader(txid: u16): (h: seq<byte>)
    ensures |h| == 12
  {
    U16Bytes(txid) + U16Bytes(0x0100) + U16Bytes(1) + U16Bytes(0) + U16Bytes(0) + U16Bytes(0)
  }

  function Question(name: seq<byte>): seq<byte> {
    EncodeLabels(Labels(name)) + [0] + U16Bytes(1) + U16Bytes(1)
  }

  method BuildDnsQuery(name: seq<byte>, txid: u16) returns (buf: seq<byte>)
    ensures buf == QueryHeader(txid) + Question(name)
  {
    buf := U16Bytes(txid);
    buf := buf + U16Bytes(0x0100);
    buf := buf + U16Bytes(1);
    buf := buf + U16Bytes(0);
    buf := buf + U16Bytes(0);
    buf := buf + U16Bytes(0);
    var labels := Labels(name);
    LabelsAreNonEmpty(name, []);
    assert labels[..0] == [];
    for k := 0 to |labels|
      invariant buf == QueryHeader(txid) + EncodeLabels(labels[..k])
    {
      EncodeOneMore(labels[..k], labels[k]);
      assert labels[..k + 1] == labels[..k] + [labels[k]];
      var len := Min(|labels[k]|, 63);
      buf := buf + [len];
      buf := buf + labels[k][..len];
    }
    assert labels[..|labels|] == labels;
    buf := buf + [0];
    buf := buf + U16Bytes(1);
    buf := buf + U16Bytes(1);
  }

  lemma {:induction false} EncodeOneMore(labels: seq<seq<byte>>, next: seq<byte>)
    ensures EncodeLabels(labels + [next]) == EncodeLabels(labels) + [|Cut(next)|] + Cut(next)
  {
    if |labels| == 0 {
      assert labels + [next] == [next];
    } else {
      EncodeOneMore(labels[1..], next);
      assert (labels + [next])[1..] == labels[1..] + [next];
    }
  }

  lemma {:induction false} LabelsAreNonEmpty(name: seq<byte>, current: seq<byte>)
    ensures forall k | 0 <= k < |LabelsFrom(name, current)| :: LabelsFrom(name, current)[k] != []
    decreases |name|
  {
    if |name| != 0 {
      if name[0] == DOT {
        LabelsAreNonEmpty(name[1..], []);
      } else {
        LabelsAreNonEmpty(name[1..], current + [name[0]]);
      }
    }
  }

  // ── reading names back ────────────────────────────────────────────────

  /** A reference decoder for uncompressed names: the labels and where the name ends. */
  function DecodeName(b: seq<byte>, p: nat): Option<(seq<seq<byte>>, nat)>
    decreases |b| - p
  {
    if p >= |b| then None
    else if b[p] == 0 then Some(([], p + 1))
    else if b[p] > 63 || p + 1 + b[p] > |b| then None
    else
      match DecodeName(b, p + 1 + b[p])
      case None => None
      case Some((labels, end)) => Some(([b[p + 1..p + 1 + b[p]]] + labels, end))
  }

  function CutAll(labels: seq<seq<byte>>): (r: seq<seq<byte>>)
    ensures |r| == |labels|
    ensures forall k | 0 <= k < |labels| :: r[k] == Cut(labels[k])
  {
    if |labels| == 0 then [] else [Cut(labels[0])] + CutAll(labels[1..])
  }

  lemma LabelAt(b: seq<byte>, p: nat, c: seq<byte>, rest: seq<byte>)
    requires |c| < 256
    requires p + |[|c|] + c + rest| <= |b| && b[p..p + |[|c|] + c + rest|] == [|c|] + c + rest
    ensures b[p] == |c| && b[p + 1..p + 1 + |c|] == c && b[p + 1 + |c|..p + 1 + |c| + |rest|] == rest
  {
    var part := b[p..p + |[|c|] + c + rest|];
    assert part[0] == |c| && part[1..1 + |c|] == c && part[1 + |c|..1 + |c| + |rest|] == rest;
    SliceOfSlice(b, p, p + |part|, 1, 1 + |c|);
    SliceOfSlice(b, p, p + |part|, 1 + |c|, 1 + |c| + |rest|);
  }

  lemma SliceOfSlice(b: seq<byte>, p: nat, q: nat, i: nat, j: nat)
    requires p <= q <= |b| && i <= j <= q - p
    ensures b[p..q][i..j] == b[p + i..p + j]
  {
    var s, t := b[p..q][i..j], b[p + i..p + j];
    assert |s| == |t|;
    assert forall k | 0 <= k < |s| :: s[k] == b[p + i + k] == t[k];
  }

  lemma {:induction false} NameDecodes(b: seq<byte>, p: nat, labels: seq<seq<byte>>)
    requires forall k | 0 <= k < |labels| :: labels[k] != []
    requires p + |EncodeLabels(labels)| < |b| && b[p + |EncodeLabels(labels)|] == 0
    requires b[p..p + |EncodeLabels(labels)|] == EncodeLabels(labels)
    ensures DecodeName(b, p) == Some((CutAll(labels), p + |EncodeLabels(labels)| + 1))
    decreases |labels|
  {
    if |labels| != 0 {
      var c, rest := Cut(labels[0]), EncodeLabels(labels[1..]);
      LabelAt(b, p, c, rest);
      NameDecodes(b, p + 1 + |c|, labels[1..]);
    }
  }

  lemma QueryHeaderReads(txid: u16, rest: seq<byte>)
    ensures var pkt := QueryHeader(txid) + rest;
            && U16At(pkt, 0) == txid && U16At(pkt, 2) == 0x0100 && U16At(pkt, 4) == 1
            && U16At(pkt, 6) == U16At(pkt, 8) == U16At(pkt, 10) == 0
  {
  }

  /** The name in a query decodes to its labels, each cut to 63 octets, and the question is exactly what
      follows the twelve octets of the header: the length the answer walk skips. */
  lemma QueryRoundTrip(name: seq<byte>, txid: u16)
    ensures var pkt := QueryHeader(txid) + Question(name);
            && DecodeName(pkt, 12) == Some((CutAll(Labels(name)), |pkt| - 4))
            && |pkt| - 12 == |Question(name)| && pkt[12..] == Question(name)
            && U16At(pkt, 0) == txid && U16At(pkt, |pkt| - 4) == 1 && U16At(pkt, |pkt| - 2) == 1
            && (forall k | 0 <= k < |Labels(name)| ::
                  CutAll(Labels(name))[k] <= Labels(name)[k] && |CutAll(Labels(name))[k]| == Min(|Labels(name)[k]|, 63))
            && U16At(pkt, 2) == 0x0100 && U16At(pkt, 4) == 1 && U16At(pkt, 6) == U16At(pkt, 8) == U16At(pkt, 10) == 0
  {
    var pkt := QueryHeader(txid) + Question(name);
    LabelsAreNonEmpty(name, []);
    QueryHeaderReads(txid, Question(name));
    hide QueryHeader;
    var kind := U16Bytes(1) + U16Bytes(1);
    assert pkt == QueryHeader(txid) + EncodeLabels(Labels(name)) + [0] + kind;
    NameDecodes(pkt, 12, Labels(name));
  }

  /** A dotted name. */
  function Dotted(labels: seq<seq<byte>>): seq<byte> {
    if |labels| == 0 then []
    else if |labels| == 1 then labels[0]
    else labels[0] + [DOT] + Dotted(labels[1..])
  }

  lemma {:induction false} LabelEnds(word: seq<byte>, rest: seq<byte>, current: seq<byte>)
    requires DOT !in word && (word != [] || current != [])
    ensures LabelsFrom(word + [DOT] + rest, current) == [current + word] + LabelsFrom(rest, [])
    ensures LabelsFrom(word, current) == [current + word]
    decreases |word|
  {
    var whole := word + [DOT] + rest;
    if |word| == 0 {
      assert whole[1..] == rest && current + word == current;
    } else {
      assert word[0] in word;
      assert whole[1..] == word[1..] + [DOT] + rest;
      assert current + [word[0]] + word[1..] == current + word;
      LabelEnds(word[1..], rest, current + [word[0]]);
    }
  }

  /** The labels of a name are what stands between its dots, with or without one at the end. */
  lemma {:induction false} LabelsExactly(labels: seq<seq<byte>>)
    requires forall l | l in labels :: l != [] && DOT !in l
    ensures Labels(Dotted(labels)) == labels && (labels != [] ==> Labels(Dotted(labels) + [DOT]) == labels)
  {
    if |labels| != 0 {
      var first, rest := labels[0], labels[1..];
      forall l | l in rest ensures l in labels { }
      LabelsExactly(rest);
      assert labels == [first] + rest;
      if |labels| == 1 {
        LabelEnds(first, [], []);
        assert first + [DOT] + [] == first + [DOT] && [] + first == first;
      } else {
        LabelEnds(first, Dotted(rest), []);
        LabelEnds(first, Dotted(rest) + [DOT], []);
        assert first + [DOT] + (Dotted(rest) + [DOT]) == Dotted(labels) + [DOT] && [] + first == first;
      }
    }
  }

  // ── walking the answers ───────────────────────────────────────────────

  predicate IsPointer(b: byte) {
    b >= 0xC0
  }

  /** The two top bits of an octet are set exactly from 192 on. */
  lemma PointerBits(b: bv8)
    ensures b & 0xC0 == 0xC0 <==> b >= 0xC0
  {
  }

  /** Past a sequence of labels that ends in a zero octet or a pointer. */
  function SkipLabels(reply: seq<byte>, p: nat): Option<nat>
    decreases |reply| - p
  {
    if p >= |reply| then None
    else if reply[p] == 0 then Some(p + 1)
    else if IsPointer(reply[p]) then Some(p + 2)
    else SkipLabels(reply, p + 1 + reply[p])
  }

  function WalkAnswers(reply: seq<byte>, p: nat, count: nat): Option<seq<byte>>
    decreases count
  {
    if count == 0 then None
    else
      match SkipLabels(reply, p)
      case None => None
      case Some(q) =>
        if q + 10 > |reply| then None
        else
          var rdlen := U16At(reply, q + 8);
          var data := q + 10;
          if data + rdlen > |reply| then None
          else if U16At(reply, q) == 1 && U16At(reply, q + 2) == 1 && rdlen == 4 then Some(reply[data..data + 4])
          else WalkAnswers(reply, data + rdlen, count - 1)
  }

  /** A response to this transaction, without error, that says it has answers. */
  predicate ReplyOk(reply: seq<byte>, txid: u16) {
    && |reply| >= 12
    && U16At(reply, 0) == txid
    && U16At(reply, 2) >= 0x8000 && U16At(reply, 2) % 16 == 0
    && U16At(reply, 6) > 0
  }

  /** Octet by octet: the id matches, the response bit is set, the four bits of the code are clear, and the count of
      answers is not zero. */
  lemma ReplyOkExactly(reply: seq<byte>, txid: u16)
    ensures ReplyOk(reply, txid) <==>
            && |reply| >= 12 && reply[0] == txid / 256 && reply[1] == txid % 256
            && reply[2] >= 128 && reply[3] % 16 == 0 && (reply[6] != 0 || reply[7] != 0)
  {
    if |reply| >= 12 {
      var high, low := reply[2] as int, reply[3] as int;
      assert high * 256 + low == 16 * (16 * high + low / 16) + low % 16;
    }
  }

  /** The masks of the source are those tests. */
  lemma FlagBits(high: bv8, low: bv8)
    ensures (high & 0x80 != 0 <==> high >= 128) && (low & 0x0F == 0 <==> low % 16 == 0)
  {
  }

  function ExtractFirstA(reply: seq<byte>, txid: u16, qsize: nat): Option<seq<byte>> {
    if |reply| < 12 + qsize || !ReplyOk(reply, txid) then None
    else WalkAnswers(reply, 12 + qsize, U16At(reply, 6))
  }

  /** A reply to another query, a query, an error or a reply without answers yields no address, whatever follows its
      header; nor does one too short for the question. */
  lemma OtherRepliesAreRefused(reply: seq<byte>, txid: u16, qsize: nat)
    requires || |reply| < 12 + qsize
             || (reply[0] as int) * 256 + reply[1] as int != txid
             || reply[2] < 128 || reply[3] % 16 != 0 || (reply[6] == 0 && reply[7] == 0)
    ensures ExtractFirstA(reply, txid, qsize).None?
  {
    hide WalkAnswers;
    ReplyOkExactly(reply, txid);
  }

  /** The loop over an owner name. */
  method SkipName(reply: seq<byte>, start: nat) returns (end: Option<nat>)
    ensures end == SkipLabels(reply, start)
  {
    var p := start;
    while true
      invariant start <= p
      invariant SkipLabels(reply, p) == SkipLabels(reply, start)
      decreases |reply| - p
    {
      if p >= |reply| {
        return None;
      }
      var l := reply[p];
      if l == 0 {
        return Some(p + 1);
      }
      if IsPointer(l) {
        return Some(p + 2);
      }
      p := p + 1 + l;
    }
  }

  /** The walk itself. That it stays in bounds and ends, on any reply, is checked with the method. */
  method DnsExtractFirstA(reply: seq<byte>, txid: u16, qsize: nat) returns (r: Option<seq<byte>>)
    ensures r == ExtractFirstA(reply, txid, qsize)
  {
    hide SkipLabels, U16At;
    if |reply| < 12 + qsize {
      return None;
    }
    if U16At(reply, 0) != txid {
      return None;
    }
    var flags := U16At(reply, 2);
    if flags < 0x8000 || flags % 16 != 0 {
      return None;
    }
    var ancount := U16At(reply, 6);
    if ancount == 0 {
      return None;
    }
    var p: nat := 12 + qsize;
    assert ReplyOk(reply, txid) && ExtractFirstA(reply, txid, qsize) == WalkAnswers(reply, p, ancount);
    for k := 0 to ancount
      invariant WalkAnswers(reply, p, ancount - k) == ExtractFirstA(reply, txid, qsize)
    {
      var named := SkipName(reply, p);
      if named.None? {
        return None;
      }
      p := named.value;
      if p + 10 > |reply| {
        return None;
      }
      var rtype := U16At(reply, p);
      var rclass := U16At(reply, p + 2);
      var rdlen := U16At(reply, p + 8);
      p := p + 10;
      if p + rdlen > |reply| {
        return None;
      }
      if rtype == 1 && rclass == 1 && rdlen == 4 {
        return Some(reply[p..p + 4]);
      }
      p := p + rdlen;
    }
    r := None;
  }

  // ── an encoder for replies, and what the walk finds in them ───────────

  /** How a record names its owner: labels, then the root or a compression pointer. */
  datatype Owner = Owner(labels: seq<seq<byte>>, pointer: Option<(byte, byte)>)

  datatype Resource = Resource(owner: Owner, rtype: u16, rclass: u16, ttl: (u16, u16), rdata: seq<byte>)

  /** Any label the walk steps over as one: lengths above 63 are tolerated up to the pointer range. */
  predicate ValidResource(r: Resource) {
    && (forall k | 0 <= k < |r.owner.labels| :: 1 <= |r.owner.labels[k]| < 0xC0)
    && (r.owner.pointer.Some? ==> IsPointer(r.owner.pointer.value.0))
    && |r.rdata| < 0x10000
  }

  function EncodeOwnerLabels(labels: seq<seq<byte>>): seq<byte>
    requires forall k | 0 <= k < |labels| :: |labels[k]| < 0xC0
  {
    if |labels| == 0 then [] else [|labels[0]|] + labels[0] + EncodeOwnerLabels(labels[1..])
  }

  function EncodeOwner(o: Owner): seq<byte>
    requires forall k | 0 <= k < |o.labels| :: |o.labels[k]| < 0xC0
  {
    EncodeOwnerLabels(o.labels) + (if o.pointer.Some? then [o.pointer.value.0, o.pointer.value.1] else [0])
  }

  function EncodeResource(r: Resource): seq<byte>
    requires ValidResource(r)
  {
    EncodeOwner(r.owner) + FixedPart(r) + r.rdata
  }

  function FixedPart(r: Resource): (f: seq<byte>)
    requires ValidResource(r)
    ensures |f| == 10
  {
    U16Bytes(r.rtype) + U16Bytes(r.rclass) + U16Bytes(r.ttl.0) + U16Bytes(r.ttl.1) + U16Bytes(|r.rdata|)
  }

  function EncodeResources(rs: seq<Resource>): seq<byte>
    requires forall k | 0 <= k < |rs| :: ValidResource(rs[k])
  {
    if |rs| == 0 then [] else EncodeResource(rs[0]) + EncodeResources(rs[1..])
  }

  predicate IsAddress(r: Resource) {
    r.rtype == 1 && r.rclass == 1 && |r.rdata| == 4
  }

  /** The address in the first record that holds one. */
  function FirstAddress(rs: seq<Resource>): Option<seq<byte>> {
    if |rs| == 0 then None
    else if IsAddress(rs[0]) then Some(rs[0].rdata)
    else FirstAddress(rs[1..])
  }

  lemma {:induction false} OwnerIsSkipped(before: seq<byte>, o: Owner, after: seq<byte>)
    requires forall k | 0 <= k < |o.labels| :: 1 <= |o.labels[k]| < 0xC0
    requires o.pointer.Some? ==> IsPointer(o.pointer.value.0)
    ensures SkipLabels(before + EncodeOwner(o) + after, |before|) == Some(|before| + |EncodeOwner(o)|)
    decreases |o.labels|
  {
    var b := before + EncodeOwner(o) + after;
    if |o.labels| == 0 {
      assert EncodeOwnerLabels(o.labels) == [];
      assert b[|before|] == EncodeOwner(o)[0];
    } else {
      var l := o.labels[0];
      var further := before + [|l|] + l;
      var rest := o.(labels := o.labels[1..]);
      OwnerIsSkipped(further, rest, after);
      assert EncodeOwner(o) == [|l|] + l + EncodeOwner(rest);
      assert b == further + EncodeOwner(rest) + after;
      assert b[|before|] == |l|;
    }
  }

  lemma FixedPartReads(before: seq<byte>, r: Resource, after: seq<byte>)
    requires ValidResource(r)
    ensures var b, p := before + FixedPart(r) + after, |before|;
            U16At(b, p) == r.rtype && U16At(b, p + 2) == r.rclass && U16At(b, p + 8) == |r.rdata|
  {
    var b, p, f := before + FixedPart(r) + after, |before|, FixedPart(r);
    assert forall k | 0 <= k < 10 :: b[p + k] == f[k];
    assert f[0] == r.rtype / 256 && f[1] == r.rtype % 256;
    assert f[2] == r.rclass / 256 && f[3] == r.rclass % 256;
    assert f[8] == |r.rdata| / 256 && f[9] == |r.rdata| % 256;
  }

  /** One record of the walk. */
  lemma WalkStep(before: seq<byte>, r: Resource, rest: seq<byte>, count: nat)
    requires ValidResource(r)
    ensures var b := before + EncodeResource(r) + rest;
            WalkAnswers(b, |before|, count + 1) ==
              if IsAddress(r) then Some(r.rdata) else WalkAnswers(b, |before| + |EncodeResource(r)|, count)
  {
    hide SkipLabels, EncodeOwner, FixedPart, U16At;
    var b := before + EncodeResource(r) + rest;
    var named := before + EncodeOwner(r.owner);
    assert b == before + EncodeOwner(r.owner) + (FixedPart(r) + r.rdata + rest);
    OwnerIsSkipped(before, r.owner, FixedPart(r) + r.rdata + rest);
    assert b == named + FixedPart(r) + (r.rdata + rest);
    FixedPartReads(named, r, r.rdata + rest);
    var data := |named| + 10;
    assert b[data..data + |r.rdata|] == r.rdata;
  }

  lemma Regroup(a: seq<byte>, b: seq<byte>, c: seq<byte>, d: seq<byte>)
    ensures a + (b + c) + d == a + b + (c + d) && a + (b + c) + d == (a + b) + c + d
  {
  }

  lemma {:induction false} WalkFindsFirst(before: seq<byte>, rs: seq<Resource>, after: seq<byte>)
    requires forall k | 0 <= k < |rs| :: ValidResource(rs[k])
    ensures WalkAnswers(before + EncodeResources(rs) + after, |before|, |rs|) == FirstAddress(rs)
    decreases |rs|
  {
    hide EncodeResource, ValidResource;
    if |rs| != 0 {
      var first, others := EncodeResource(rs[0]), EncodeResources(rs[1..]);
      WalkFindsFirst(before + first, rs[1..], after);
      WalkStep(before, rs[0], others + after, |rs| - 1);
      hide WalkAnswers;
      assert before + EncodeResources(rs) + after == before + first + (others + after) by {
        Regroup(before, first, others, after);
      }
      assert before + first + (others + after) == (before + first) + others + after by {
        Regroup(before, first, others, after);
      }
    }
  }

  /** The header of an answer: the QR bit set, no error code, any other flags. */
  function ReplyHeader(txid: u16, otherFlags: u16, ancount: u16, nscount: u16, arcount: u16): (h: seq<byte>)
    requires otherFlags < 0x800
    ensures |h| == 12
  {
    U16Bytes(txid) + U16Bytes(0x8000 + 16 * otherFlags) + U16Bytes(1) + U16Bytes(ancount) + U16Bytes(nscount) + U16Bytes(arcount)
  }

  /** On any reply that repeats the question just sent and carries any records after it, named by labels or
      by compression pointers, the walk yields the first address record of class IN, or nothing if there is none. */
  lemma AnswerFound(name: seq<byte>, txid: u16, otherFlags: u16, nscount: u16, arcount: u16, rs: seq<Resource>, after: seq<byte>)
    requires otherFlags < 0x800 && |rs| < 0x10000
    requires forall k | 0 <= k < |rs| :: ValidResource(rs[k])
    ensures var query := QueryHeader(txid) + Question(name);
            var reply := ReplyHeader(txid, otherFlags, |rs|, nscount, arcount) + query[12..] + EncodeResources(rs) + after;
            ExtractFirstA(reply, txid, |query| - 12) == FirstAddress(rs)
  {
    hide Question, EncodeResources, WalkAnswers, ReplyHeader, QueryHeader, U16At;
    var query, question := QueryHeader(txid) + Question(name), Question(name);
    assert query[12..] == question;
    var header := ReplyHeader(txid, otherFlags, |rs|, nscount, arcount);
    var records := EncodeResources(rs);
    var reply := header + query[12..] + records + after;
    assert reply == (header + question) + records + after;
    WalkFindsFirst(header + question, rs, after);
    assert reply == header + (question + records + after);
    HeaderReads(header, txid, otherFlags, |rs|, nscount, arcount, question + records + after);
    if |rs| == 0 {
      assert FirstAddress(rs) == None;
    }
  }

  lemma HeaderReads(header: seq<byte>, txid: u16, otherFlags: u16, ancount: u16, nscount: u16, arcount: u16, after: seq<byte>)
    requires otherFlags < 0x800 && header == ReplyHeader(txid, otherFlags, ancount, nscount, arcount)
    ensures var b := header + after;
            && U16At(b, 0) == txid && U16At(b, 2) == 0x8000 + 16 * otherFlags && U16At(b, 6) == ancount
            && U16At(b, 2) % 16 == 0
  {
    var flags := 0x8000 + 16 * otherFlags;
    assert header[0] == txid / 256 && header[1] == txid % 256;
    assert header[2] == flags / 256 && header[3] == flags % 256;
    assert header[6] == ancount / 256 && header[7] == ancount % 256;
  }
}
