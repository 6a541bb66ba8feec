/**
 Reading a response body (`dechunk`, `parse_response` in `src/net/http.rs`) and judging it
 (`check_one` in `src/net/canary.rs`). The coding is that of section 7.1 of RFC 9112.
 */
module Chunked {
  import opened Basics
  import opened Text
  import opened Layers

  const CR: byte := 13
  const LF: byte := 10
  const CRLF: seq<byte> := [CR, LF]

  function FindFrom(haystack: seq<byte>, needle: seq<byte>, k: nat): Option<nat>
    decreases |haystack| - k
  {
    if k + |needle| > |haystack| then None
    else if haystack[k..k + |needle|] == needle then Some(k)
    else FindFrom(haystack, needle, k + 1)
  }

  /** Where `needle` first occurs. */
  function FindSubslice(haystack: seq<byte>, needle: seq<byte>): Option<nat> {
    if |needle| == 0 then None else FindFrom(haystack, needle, 0)
  }

  ghost predicate OccursAt(haystack: seq<byte>, needle: seq<byte>, k: nat) {
    k + |needle| <= |haystack| && haystack[k..k + |needle|] == needle
  }

  lemma {:induction false} FindFromIsFirst(haystack: seq<byte>, needle: seq<byte>, k: nat)
    ensures match FindFrom(haystack, needle, k)
            case None => forall i | i >= k :: !OccursAt(haystack, needle, i)
            case Some(n) => n >= k && OccursAt(haystack, needle, n) && forall i | k <= i < n :: !OccursAt(haystack, needle, i)
    decreases |haystack| - k
  {
    if k + |needle| <= |haystack| {
      FindFromIsFirst(haystack, needle, k + 1);
    }
  }

  /** The length of the scalar value at the head of valid UTF-8, or zero. */
  function HeadLength(b: seq<byte>): nat {
    if |b| == 0 then 0
    else if b[0] < 0x80 then 1
    else if 0xC2 <= b[0] <= 0xDF then (if |b| >= 2 && Trails(b[1]) then 2 else 0)
    else if 0xE0 <= b[0] <= 0xEF then
      (if |b| >= 3 && Trails(b[1]) && Trails(b[2]) && (b[0] == 0xE0 ==> b[1] >= 0xA0) && (b[0] == 0xED ==> b[1] <= 0x9F) then 3 else 0)
    else if 0xF0 <= b[0] <= 0xF4 then
      (if |b| >= 4 && Trails(b[1]) && Trails(b[2]) && Trails(b[3]) && (b[0] == 0xF0 ==> b[1] >= 0x90) && (b[0] == 0xF4 ==> b[1] <= 0x8F) then 4 else 0)
    else 0
  }

  predicate Trails(b: byte) {
    0x80 <= b <= 0xBF
  }

  function HeadChar(b: seq<byte>): char
    requires HeadLength(b) != 0
  {
    match HeadLength(b)
    case 1 => b[0] as char
    case 2 => ((b[0] as int - 0xC0) * 0x40 + (b[1] as int - 0x80)) as char
    case 3 => ((b[0] as int - 0xE0) * 0x1000 + (b[1] as int - 0x80) * 0x40 + (b[2] as int - 0x80)) as char
    case _ => ((b[0] as int - 0xF0) * 0x4_0000 + (b[1] as int - 0x80) * 0x1000 + (b[2] as int - 0x80) * 0x40 + (b[3] as int - 0x80)) as char
  }

  function FromUtf8(b: seq<byte>): Option<string>
    decreases |b|
  {
    if |b| == 0 then Some("")
    else if HeadLength(b) == 0 then None
    else
      match FromUtf8(b[HeadLength(b)..])
      case None => None
      case Some(rest) => Some([HeadChar(b)] + rest)
  }

  /** The number on a chunk's size line; extensions and white space around it are ignored. */
  function ChunkSize(line: seq<byte>): Option<nat> {
    var text := match FromUtf8(line) case Some(t) => t case None => "";
    ParseHex(TrimEnd(TrimStart(TakeUntil(text, ';'))))
  }

  datatype Decoded = Decoded(body: seq<byte>, truncated: bool) | Malformed

  /** A chunk's data is followed by a CRLF, which may be missing. */
  function SkipCrlf(rest: seq<byte>): seq<byte> {
    if CRLF <= rest then rest[2..] else rest
  }

  function Dechunk(input: seq<byte>, out: seq<byte>, maxBody: nat): Decoded
    decreases |input|
  {
    match FindSubslice(input, CRLF)
    case None => Decoded(out, true)
    case Some(nl) =>
      FindFromIsFirst(input, CRLF, 0);
      match ChunkSize(input[..nl])
      case None => Malformed
      case Some(size) =>
        var data := input[nl + 2..];
        if size == 0 then Decoded(out, false)
        else if size > |data| then Decoded(out + data, true)
        else
          var more, rest := out + data[..size], data[size..];
          if |more| >= maxBody then Decoded(more[..maxBody], true)
          else Dechunk(SkipCrlf(rest), more, maxBody)
  }

  lemma CrlfFits(input: seq<byte>)
    ensures var nl := FindSubslice(input, CRLF); nl.Some? ==> nl.value + 2 <= |input|
  {
    FindFromIsFirst(input, CRLF, 0);
  }

  /** The decoding loop. */
  method DechunkLoop(whole: seq<byte>, maxBody: nat) returns (r: Decoded)
    ensures r == Dechunk(whole, [], maxBody)
  {
    hide ChunkSize, FindSubslice;
    var input, out := whole, [];
    while true
      invariant Dechunk(input, out, maxBody) == Dechunk(whole, [], maxBody)
      decreases |input|
    {
      var nl := FindSubslice(input, CRLF);
      if nl.None? {
        return Decoded(out, true);
      }
      CrlfFits(input);
      var size := ChunkSize(input[..nl.value]);
      if size.None? {
        return Malformed;
      }
      var data := input[nl.value + 2..];
      if size.value == 0 {
        return Decoded(out, false);
      }
      if size.value > |data| {
        return Decoded(out + data, true);
      }
      out := out + data[..size.value];
      if |out| >= maxBody {
        return Decoded(out[..maxBody], true);
      }
      input := data[size.value..];
      if CRLF <= input {
        input := input[2..];
      }
    }
  }

  // ── an encoder, and what any cut of its output decodes to ─────────────

  /** A size line, in any spelling the decoder reads as the length of the data, and the data. */
  datatype Chunk = Chunk(line: seq<byte>, data: seq<byte>)

  ghost predicate SizeLine(line: seq<byte>, size: nat) {
    ChunkSize(line) == Some(size) && FindSubslice(line, CRLF).None?
  }

  ghost predicate ValidChunk(c: Chunk) {
    |c.data| != 0 && SizeLine(c.line, |c.data|)
  }

  function Encode(chunks: seq<Chunk>, last: seq<byte>, trailer: seq<byte>): seq<byte> {
    if |chunks| == 0 then last + CRLF + trailer
    else chunks[0].line + CRLF + (chunks[0].data + (CRLF + Encode(chunks[1..], last, trailer)))
  }

  function Joined(chunks: seq<Chunk>): seq<byte> {
    if |chunks| == 0 then [] else chunks[0].data + Joined(chunks[1..])
  }

  lemma CrlfAt(s: seq<byte>, i: nat)
    ensures OccursAt(s, CRLF, i) <==> i + 2 <= |s| && s[i] == CR && s[i + 1] == LF
  {
    if i + 2 <= |s| {
      var two := s[i..i + 2];
      assert two[0] == s[i] && two[1] == s[i + 1];
      assert s[i] == CR && s[i + 1] == LF ==> two == CRLF;
    }
  }

  /** The octets of a line, its terminator and what follows, in any prefix of them. */
  lemma LineOctets(line: seq<byte>, rest: seq<byte>, cut: nat)
    requires cut <= |line| + 2 + |rest|
    ensures var p := (line + CRLF + rest)[..cut];
            && |p| == cut
            && (forall i | 0 <= i < |line| && i < cut :: p[i] == line[i])
            && (|line| < cut ==> p[|line|] == CR)
            && (|line| + 1 < cut ==> p[|line| + 1] == LF)
  {
  }

  lemma NoCrlfIn(line: seq<byte>, p: seq<byte>, i: nat)
    requires FindSubslice(line, CRLF).None? && i < |line|
    requires (forall k | 0 <= k < |line| && k < |p| :: p[k] == line[k]) && (|line| < |p| ==> p[|line|] == CR)
    ensures !OccursAt(p, CRLF, i)
  {
    hide OccursAt;
    FindFromIsFirst(line, CRLF, 0);
    assert !OccursAt(line, CRLF, i);
    CrlfAt(line, i);
    CrlfAt(p, i);
  }

  /** A line without a CRLF ends exactly where the one after it begins, and not before it is complete. */
  lemma LineEnds(line: seq<byte>, rest: seq<byte>, cut: nat)
    requires FindSubslice(line, CRLF).None? && cut <= |line| + 2 + |rest|
    ensures FindSubslice((line + CRLF + rest)[..cut], CRLF) == if cut >= |line| + 2 then Some(|line|) else None
  {
    hide OccursAt, FindFrom;
    var p := (line + CRLF + rest)[..cut];
    LineOctets(line, rest, cut);
    FindFromIsFirst(p, CRLF, 0);
    forall i | 0 <= i < |line| ensures !OccursAt(p, CRLF, i) {
      NoCrlfIn(line, p, i);
    }
    CrlfAt(p, |line|);
    if FindSubslice(p, CRLF).Some? {
      CrlfAt(p, FindSubslice(p, CRLF).value);
    }
  }

  /** What a decoding that started with `out` in hand may say of `rest`, the data still encoded: never an
      error, never anything but a prefix, `complete` only if all of it came; and of a whole encoding, everything
      below the cap or exactly the cap. */
  ghost predicate Honest(r: Decoded, out: seq<byte>, rest: seq<byte>, whole: bool, maxBody: nat) {
    && r.Decoded? && r.body <= out + rest
    && (!r.truncated ==> r.body == out + rest)
    && (whole ==>
          if rest == [] || |out + rest| < maxBody then r == Decoded(out + rest, false)
          else |out| < maxBody ==> r == Decoded((out + rest)[..maxBody], true))
  }

  /** One chunk whose size line has arrived. */
  lemma ChunkStep(p: seq<byte>, c: Chunk, out: seq<byte>, maxBody: nat)
    requires ValidChunk(c) && c.line + CRLF <= p && FindSubslice(p, CRLF) == Some(|c.line|)
    ensures var data := p[|c.line| + 2..];
            Dechunk(p, out, maxBody) ==
              if |c.data| > |data| then Decoded(out + data, true)
              else
                var more, rest := out + data[..|c.data|], data[|c.data|..];
                if |more| >= maxBody then Decoded(more[..maxBody], true)
                else Dechunk(SkipCrlf(rest), more, maxBody)
  {
    hide ChunkSize, FindSubslice;
    assert p[..|c.line|] == c.line;
  }

  lemma HonestAfterChunk(r: Decoded, out: seq<byte>, data: seq<byte>, rest: seq<byte>, whole: bool, maxBody: nat)
    requires Honest(r, out + data, rest, whole, maxBody) && data != [] && |out + data| < maxBody
    ensures Honest(r, out, data + rest, whole, maxBody)
  {
    assert out + (data + rest) == (out + data) + rest;
  }

  lemma CappedIsHonest(out: seq<byte>, data: seq<byte>, rest: seq<byte>, whole: bool, maxBody: nat)
    requires |out + data| >= maxBody && data != []
    ensures Honest(Decoded((out + data)[..maxBody], true), out, data + rest, whole, maxBody)
  {
    assert out + (data + rest) == (out + data) + rest;
  }

  /** Every byte prefix of an encoding decodes honestly. */
  lemma {:induction false} CutDecodes(chunks: seq<Chunk>, last: seq<byte>, trailer: seq<byte>, out: seq<byte>, cut: nat, maxBody: nat)
    requires (forall c | c in chunks :: ValidChunk(c)) && SizeLine(last, 0)
    requires cut <= |Encode(chunks, last, trailer)|
    ensures Honest(Dechunk(Encode(chunks, last, trailer)[..cut], out, maxBody), out, Joined(chunks),
                   cut == |Encode(chunks, last, trailer)|, maxBody)
    decreases |chunks|, 0
  {
    hide ChunkSize, FindSubslice, Honest, SkipCrlf;
    var enc := Encode(chunks, last, trailer);
    var p := enc[..cut];
    if |chunks| == 0 {
      LineEnds(last, trailer, cut);
      LastLineIsHonest(last, trailer, out, cut, maxBody);
    } else {
      var c, tail := chunks[0], CRLF + Encode(chunks[1..], last, trailer);
      assert ValidChunk(c);
      assert enc == c.line + CRLF + (c.data + tail);
      LineEnds(c.line, c.data + tail, cut);
      if cut < |c.line| + 2 {
        PrefixIsHonest(out, [], Joined(chunks), maxBody);
      } else {
        var data := p[|c.line| + 2..];
        var left := cut - |c.line| - 2;
        assert data == (c.data + tail)[..left];
        ChunkStep(p, c, out, maxBody);
        if left < |c.data| {
          assert data == c.data[..left];
          PrefixIsHonest(out, data, Joined(chunks), maxBody);
        } else {
          assert data[..|c.data|] == c.data && data[|c.data|..] == tail[..left - |c.data|];
          if |out + c.data| >= maxBody {
            CappedIsHonest(out, c.data, Joined(chunks[1..]), cut == |enc|, maxBody);
          } else {
            var rest := tail[..left - |c.data|];
            AfterData(chunks[1..], last, trailer, out + c.data, left - |c.data|, maxBody);
            HonestAfterChunk(Dechunk(SkipCrlf(rest), out + c.data, maxBody),
                             out, c.data, Joined(chunks[1..]), cut == |enc|, maxBody);
          }
        }
      }
    }
  }

  lemma PrefixIsHonest(out: seq<byte>, data: seq<byte>, rest: seq<byte>, maxBody: nat)
    requires data <= rest
    ensures Honest(Decoded(out + data, true), out, rest, false, maxBody)
    ensures Honest(Decoded(out, true), out, rest, false, maxBody)
  {
    assert out + rest == (out + data) + rest[|data|..];
  }

  lemma LastLineIsHonest(last: seq<byte>, trailer: seq<byte>, out: seq<byte>, cut: nat, maxBody: nat)
    requires SizeLine(last, 0) && cut <= |last| + 2 + |trailer|
    requires FindSubslice((last + CRLF + trailer)[..cut], CRLF) == if cut >= |last| + 2 then Some(|last|) else None
    ensures Honest(Dechunk((last + CRLF + trailer)[..cut], out, maxBody), out, [], cut == |last| + 2 + |trailer|, maxBody)
  {
    hide ChunkSize, FindSubslice;
    var p := (last + CRLF + trailer)[..cut];
    assert out + [] == out;
    if cut >= |last| + 2 {
      assert p[..|last|] == last;
    }
  }

  /** The same from just after a chunk's data, where its CRLF may be cut too. */
  lemma AfterData(chunks: seq<Chunk>, last: seq<byte>, trailer: seq<byte>, out: seq<byte>, cut: nat, maxBody: nat)
    requires (forall c | c in chunks :: ValidChunk(c)) && SizeLine(last, 0)
    requires cut <= 2 + |Encode(chunks, last, trailer)|
    ensures var rest := (CRLF + Encode(chunks, last, trailer))[..cut];
            Honest(Dechunk(SkipCrlf(rest), out, maxBody), out, Joined(chunks),
                   cut == 2 + |Encode(chunks, last, trailer)|, maxBody)
    decreases |chunks|, 1
  {
    hide ChunkSize, Honest, Encode;
    var enc := Encode(chunks, last, trailer);
    var rest := (CRLF + enc)[..cut];
    if cut >= 2 {
      assert rest[..2] == CRLF;
      assert rest[2..] == enc[..cut - 2];
      CutDecodes(chunks, last, trailer, out, cut - 2, maxBody);
    } else {
      FindFromIsFirst(rest, CRLF, 0);
      PrefixIsHonest(out, [], Joined(chunks), maxBody);
    }
  }

  // ── judging a response ────────────────────────────────────────────────

  /** The part of `parse_response` after the header block. */
  function DecodeBody(chunked: bool, contentLength: Option<nat>, raw: seq<byte>, maxBody: nat): Decoded {
    var d := if chunked then Dechunk(raw, [], maxBody)
             else
               var slice := if contentLength.Some? then raw[..Min(contentLength.value, |raw|)] else raw;
               if |slice| > maxBody then Decoded(slice[..maxBody], true) else Decoded(slice, false);
    match d
    case Malformed => Malformed
    case Decoded(body, truncated) => Decoded(body, truncated || |body| >= maxBody)
  }

  /** What a body has to look like; the digest function is a parameter. */
  datatype Expectation =
    | Exact(want: seq<byte>)
    | Digest(sha256: seq<byte> -> seq<byte>, digest: seq<byte>)
    | Contains(marker: seq<byte>)
    | StatusOnly
  {
    predicate Accepts(body: seq<byte>) {
      match this
      case Exact(want) => body == want
      case Digest(sha256, digest) => sha256(body) == digest
      case Contains(marker) => marker == [] || FindSubslice(body, marker).Some?
      case StatusOnly => true
    }
  }

  predicate IsRedirect(status: nat) {
    status in {301, 302, 303, 307, 308}
  }

  /** From a fetched response to a verdict; a response that does not parse is unreachable. */
  function Judge(status: nat, body: Decoded, wantedStatus: nat, expected: Expectation): TargetVerdict {
    match body
    case Malformed => Unreachable
    case Decoded(bytes, truncated) =>
      if IsRedirect(status) then Tampered
      else if status == 511 then Tampered
      else if status != wantedStatus then (if 400 <= status < 600 then Unreachable else Tampered)
      else if truncated && !expected.StatusOnly? then Unreachable
      else if expected.Accepts(bytes) then Verified
      else Tampered
  }

  /** The signatures of a captive portal, whatever was wanted and whatever the body: a redirect, the status made for it,
      or a status that is neither the one wanted nor an error. An error that was not wanted proves nothing. */
  lemma PortalIsTampered(status: nat, bytes: seq<byte>, truncated: bool, wantedStatus: nat, expected: Expectation)
    ensures var verdict := Judge(status, Decoded(bytes, truncated), wantedStatus, expected);
            && (status == 301 || status == 302 || status == 303 || status == 307 || status == 308 ==> verdict == Tampered)
            && (status == 511 ==> verdict == Tampered)
            && (status != wantedStatus && (status < 400 || status >= 600) ==> verdict == Tampered)
            && (status != wantedStatus && 400 <= status < 600 && status != 511 ==> verdict == Unreachable)
  {
    hide FindSubslice;
  }

  /** A response with the wanted status, short of a redirect and of 511, is verified exactly if its body is acceptable
      and whole; one that was cut short is no evidence unless only the status counts; and one that does not parse is
      none at all. */
  lemma WantedIsJudged(status: nat, body: Decoded, expected: Expectation)
    requires !(status == 301 || status == 302 || status == 303 || status == 307 || status == 308 || status == 511)
    ensures var verdict := Judge(status, body, status, expected);
            && (verdict == Verified <==> body.Decoded? && (expected.StatusOnly? || (!body.truncated && expected.Accepts(body.body))))
            && (verdict == Tampered <==> body.Decoded? && !expected.StatusOnly? && !body.truncated && !expected.Accepts(body.body))
  {
    hide FindSubslice;
  }

  /** A marker is looked for anywhere in the body. */
  lemma MarkerExactly(body: seq<byte>, marker: seq<byte>)
    ensures Contains(marker).Accepts(body) <==> exists i: nat :: OccursAt(body, marker, i)
  {
    hide FindFrom;
    FindFromIsFirst(body, marker, 0);
    if marker == [] {
      assert OccursAt(body, marker, 0);
    }
  }

  /** A genuine chunked reply, cut anywhere, is never taken for wrong content; arriving whole and under
      the cap it is verified. */
  lemma CutChunkedIsNotTampered(chunks: seq<Chunk>, last: seq<byte>, trailer: seq<byte>, cut: nat, maxBody: nat, status: nat, expected: Expectation)
    requires (forall c | c in chunks :: ValidChunk(c)) && SizeLine(last, 0)
    requires cut <= |Encode(chunks, last, trailer)|
    requires !IsRedirect(status) && status != 511 && expected.Accepts(Joined(chunks))
    ensures var verdict := Judge(status, DecodeBody(true, None, Encode(chunks, last, trailer)[..cut], maxBody), status, expected);
            && verdict != Tampered
            && (cut == |Encode(chunks, last, trailer)| && |Joined(chunks)| < maxBody ==> verdict == Verified)
  {
    hide Encode, ChunkSize, Dechunk;
    CutDecodes(chunks, last, trailer, [], cut, maxBody);
    assert [] + Joined(chunks) == Joined(chunks);
  }

  /** The same does not hold of a body sent with a length: one cut short is not marked truncated, and is
      judged as tampered with exactly when what is left is below the cap and is not itself acceptable. */
  lemma CutIdentityIsTampered(body: seq<byte>, cut: nat, maxBody: nat, status: nat, expected: Expectation)
    requires cut <= |body| && !IsRedirect(status) && status != 511 && expected.Accepts(body)
    ensures Judge(status, DecodeBody(false, Some(|body|), body[..cut], maxBody), status, expected) == Tampered <==>
            cut < maxBody && !expected.Accepts(body[..cut])
  {
    hide FindSubslice;
    assert body[..cut][..cut] == body[..cut];
  }

  /** A body that is not chunked is what came, up to its length if it has one and up to the cap; it is marked truncated
      exactly when it reaches the cap. */
  lemma PlainBodyExactly(length: Option<nat>, raw: seq<byte>, maxBody: nat)
    ensures var end := if length.Some? && length.value < |raw| then length.value else |raw|;
            DecodeBody(false, length, raw, maxBody) == Decoded(raw[..Min(end, maxBody)], end >= maxBody)
  {
    var end := if length.Some? && length.value < |raw| then length.value else |raw|;
    assert raw[..end][..Min(end, maxBody)] == raw[..Min(end, maxBody)];
    assert raw[..|raw|] == raw;
  }

  /** For an exact body that is every cut below the cap. */
  lemma CutExactIsTampered(body: seq<byte>, cut: nat, maxBody: nat, status: nat)
    requires cut <= |body| && !IsRedirect(status) && status != 511
    ensures Judge(status, DecodeBody(false, Some(|body|), body[..cut], maxBody), status, Exact(body)) == Tampered <==>
            cut < |body| && cut < maxBody
  {
    hide FindSubslice, Judge, DecodeBody;
    CutIdentityIsTampered(body, cut, maxBody, status, Exact(body));
  }

  // ── the usual size line ───────────────────────────────────────────────

  function AsByte(c: char): (b: byte)
    requires IsHexDigit(c)
    ensures b as char == c
  {
    c as int
  }

  function HexBytes(s: string): (b: seq<byte>)
    requires forall c | c in s :: IsHexDigit(c)
    ensures |b| == |s|
  {
    if |s| == 0 then []
    else
      assert s[0] in s;
      var b: byte := AsByte(s[0]);
      [b] + HexBytes(s[1..])
  }

  lemma AsciiHead(b: seq<byte>)
    requires |b| != 0 && b[0] < 0x80
    ensures FromUtf8(b) == match FromUtf8(b[1..]) case None => None case Some(rest) => Some([b[0] as char] + rest)
  {
    assert HeadLength(b) == 1;
  }

  lemma {:induction false} HexBytesAreText(s: string)
    requires forall c | c in s :: IsHexDigit(c)
    ensures FromUtf8(HexBytes(s)) == Some(s)
    ensures forall b | b in HexBytes(s) :: b != CR
  {
    if |s| != 0 {
      assert s[0] in s;
      HexBytesAreText(s[1..]);
      var b := HexBytes(s);
      assert b[0] as char == s[0] && b[1..] == HexBytes(s[1..]);
      hide HexBytes;
      AsciiHead(b);
      assert s == [s[0]] + s[1..];
    }
  }

  lemma HexNeedsNoTrim(text: string)
    requires |text| != 0 && forall c | c in text :: IsHexDigit(c)
    ensures TrimEnd(TrimStart(TakeUntil(text, ';'))) == text
  {
    hide IsWhitespace, IsHexDigit;
    HexIsPlain(text[0]);
    HexIsPlain(text[|text| - 1]);
    forall c | c in text ensures c != ';' { HexIsPlain(c); }
    TakeUntilSkips(text, "", ';');
    assert text + "" == text;
  }

  lemma HexIsPlain(c: char)
    ensures IsHexDigit(c) ==> !IsWhitespace(c) && c != ';'
  {
  }

  /** Plain hexadecimal is one spelling of a size line, for every length up to 64 bits. */
  lemma HexIsSizeLine(size: nat)
    requires size <= U64_MAX
    ensures SizeLine(HexBytes(Hexadecimal(size)), size)
  {
    hide ParseHex, Hexadecimal, HexBytes, FromUtf8;
    var text := Hexadecimal(size);
    HexBytesAreText(text);
    HexNeedsNoTrim(text);
    HexParsesBack(size);
    var line := HexBytes(text);
    FindFromIsFirst(line, CRLF, 0);
    forall k: nat ensures !OccursAt(line, CRLF, k) {
      if k + 2 <= |line| {
        assert line[k..k + 2][0] == line[k] && line[k] in line;
      }
    }
  }

  // ── other size lines ──────────────────────────────────────────────────

  lemma TextStarts(line: seq<byte>)
    requires |line| != 0 && line[0] < 0x80
    ensures FromUtf8(line).Some? ==> |FromUtf8(line).value| != 0 && FromUtf8(line).value[0] == line[0] as char
  {
  }

  lemma {:induction false} TrimKeepsHead(s: string)
    requires |s| != 0 && !IsWhitespace(s[0])
    ensures |TrimEnd(s)| != 0 && TrimEnd(s)[0] == s[0] && TrimStart(s) == s
    decreases |s|
  {
    if IsWhitespace(s[|s| - 1]) {
      assert |s| > 1;
      TrimKeepsHead(s[..|s| - 1]);
    }
  }

  lemma NotHexIsNoNumber(text: string)
    requires |text| != 0 && !IsHexDigit(text[0]) && !IsWhitespace(text[0]) && text[0] != '+'
    ensures ParseHex(TrimEnd(TrimStart(TakeUntil(text, ';')))).None?
  {
    hide IsHexDigit, IsWhitespace;
    var head := TakeUntil(text, ';');
    if |head| != 0 {
      assert head[0] == text[0];
      TrimKeepsHead(head);
      var t := TrimEnd(TrimStart(head));
      assert t[0] in t;
    }
  }

  /** A complete line that begins with anything but a hexadecimal digit, white space or a plus sign makes the reply
      malformed, which is no evidence of anything. */
  lemma NotHexIsMalformed(line: seq<byte>, rest: seq<byte>, out: seq<byte>, maxBody: nat, status: nat, wantedStatus: nat, expected: Expectation)
    requires FindSubslice(line, CRLF).None?
    requires |line| == 0
             || (line[0] < 0x80 && var c := line[0] as char; !IsHexDigit(c) && !IsWhitespace(c) && c != '+')
    ensures Dechunk(line + CRLF + rest, out, maxBody) == Malformed
    ensures Judge(status, Dechunk(line + CRLF + rest, out, maxBody), wantedStatus, expected) == Unreachable
  {
    hide FindSubslice, FromUtf8, TakeUntil, ParseHex, IsHexDigit, IsWhitespace;
    var whole := line + CRLF + rest;
    LineEnds(line, rest, |whole|);
    assert whole[..|whole|] == whole && whole[..|line|] == line;
    EmptyIsNoNumber();
    if |line| == 0 {
      NoText(line);
    } else {
      TextStarts(line);
      if FromUtf8(line).Some? {
        NotHexIsNoNumber(FromUtf8(line).value);
      }
    }
  }

  lemma NoText(line: seq<byte>)
    requires |line| == 0
    ensures FromUtf8(line) == Some("")
  {
  }

  lemma EmptyIsNoNumber()
    ensures ParseHex(TrimEnd(TrimStart(TakeUntil("", ';')))).None?
  {
  }

  lemma {:induction false} AsciiText(b: seq<byte>)
    requires forall c | c in b :: c < 0x80
    ensures var t := FromUtf8(b);
            t.Some? && |t.value| == |b| && forall k | 0 <= k < |b| :: t.value[k] == b[k] as char
  {
    if |b| != 0 {
      assert b[0] in b;
      forall c | c in b[1..] ensures c < 0x80 { assert c in b; }
      AsciiText(b[1..]);
      assert forall k | 1 <= k < |b| :: b[k] == b[1..][k - 1];
    }
  }

  /** White space and extensions around the number are ignored. */
  lemma ExtendedIsSizeLine(size: nat, extension: seq<byte>)
    requires size <= U64_MAX && (forall c | c in extension :: c < 0x80 && c != CR)
    ensures SizeLine(HexBytes(Hexadecimal(size)) + [' ' as byte, ';' as byte] + extension, size)
  {
    hide ParseHex, Hexadecimal, HexBytes, FromUtf8, IsWhitespace, IsHexDigit;
    var text, digits := Hexadecimal(size), HexBytes(Hexadecimal(size));
    var line := digits + [' ' as byte, ';' as byte] + extension;
    HexBytesAreText(text);
    HexBytesAscii(text);
    AsciiText(line);
    AsciiText(digits);
    var t := FromUtf8(line).value;
    forall c | c in text ensures c != ';' && !IsWhitespace(c) { HexIsPlain(c); }
    SpaceIsWhite();
    assert t == text + [' '] + [';'] + t[|text| + 2..];
    UntilExtension(text, t[|text| + 2..]);
    SpaceTrims(text);
    HexParsesBack(size);
    NoReturnIn(line);
  }

  lemma UntilExtension(text: string, extension: string)
    requires ';' !in text
    ensures TakeUntil(text + [' '] + [';'] + extension, ';') == text + [' ']
  {
    TakeUntilSkips(text + [' '], [';'] + extension, ';');
    assert text + [' '] + [';'] + extension == (text + [' ']) + ([';'] + extension);
    assert TakeUntil([';'] + extension, ';') == "";
    assert text + [' '] + "" == text + [' '];
  }

  lemma SpaceIsWhite()
    ensures IsWhitespace(' ')
  {
  }

  lemma SpaceTrims(text: string)
    requires |text| != 0 && forall c | c in text :: !IsWhitespace(c)
    ensures TrimEnd(TrimStart(text + [' '])) == text
  {
    hide IsWhitespace;
    SpaceIsWhite();
    var padded := text + [' '];
    assert padded[0] == text[0] && padded[..|padded| - 1] == text;
    assert text[0] in text && text[|text| - 1] in text;
  }

  lemma {:induction false} HexBytesAscii(s: string)
    requires forall c | c in s :: IsHexDigit(c)
    ensures forall b | b in HexBytes(s) :: b < 0x80
  {
    if |s| != 0 {
      assert s[0] in s;
      HexBytesAscii(s[1..]);
    }
  }

  lemma NoReturnIn(line: seq<byte>)
    requires forall c | c in line :: c != CR
    ensures FindSubslice(line, CRLF).None?
  {
    FindFromIsFirst(line, CRLF, 0);
    forall k: nat ensures !OccursAt(line, CRLF, k) {
      CrlfAt(line, k);
      assert k < |line| ==> line[k] in line;
    }
  }
}
