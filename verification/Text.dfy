/** The string operations that parsing relies on, as the standard library of the source defines them. */
module Text {
  import opened Basics

  /** The Unicode White_Space property. */
  predicate IsWhitespace(c: char) {
    var u := c as int;
    || 9 <= u <= 13 || u == 32 || u == 0x85 || u == 0xA0 || u == 0x1680
    || 0x2000 <= u <= 0x200A || u == 0x2028 || u == 0x2029 || u == 0x202F || u == 0x205F || u == 0x3000
  }

  predicate IsDigit(c: char) {
    '0' <= c <= '9'
  }

  function TrimStart(s: string): string {
    if |s| == 0 || !IsWhitespace(s[0]) then s else TrimStart(s[1..])
  }

  function TrimEnd(s: string): string {
    if |s| == 0 || !IsWhitespace(s[|s| - 1]) then s else TrimEnd(s[..|s| - 1])
  }

  function TrimLeading(s: string, c: char): string {
    if |s| == 0 || s[0] != c then s else TrimLeading(s[1..], c)
  }

  function TakeUntil(s: string, c: char): (t: string)
    ensures t <= s && c !in t
    ensures |t| < |s| ==> s[|t|] == c
  {
    if |s| == 0 || s[0] == c then "" else [s[0]] + TakeUntil(s[1..], c)
  }

  function SplitOnce(s: string, c: char): Option<(string, string)> {
    var head := TakeUntil(s, c);
    if |head| == |s| then None else Some((head, s[|head| + 1..]))
  }

  function Split(s: string, c: char): (parts: seq<string>)
    ensures |parts| >= 1
    decreases |s|
  {
    var head := TakeUntil(s, c);
    if |head| == |s| then [head] else [head] + Split(s[|head| + 1..], c)
  }

  function DigitValue(c: char): nat
    requires IsDigit(c)
  {
    c as int - '0' as int
  }

  function DecimalValue(s: string): nat
    requires forall c | c in s :: IsDigit(c)
  {
    if |s| == 0 then 0
    else
      assert s[|s| - 1] in s;
      10 * DecimalValue(s[..|s| - 1]) + DigitValue(s[|s| - 1])
  }

  /** An optional plus sign, then digits only, of a value that fits 64 bits. */
  function ParseU64(s: string): Option<nat> {
    var digits := if |s| > 1 && s[0] == '+' then s[1..] else s;
    if |digits| != 0 && (forall c | c in digits :: IsDigit(c)) && DecimalValue(digits) <= U64_MAX
    then Some(DecimalValue(digits)) else None
  }

  function Decimal(n: nat): (s: string)
    ensures |s| >= 1 && forall c | c in s :: IsDigit(c)
  {
    var last := ['0' + (n % 10) as char];
    if n < 10 then last else Decimal(n / 10) + last
  }

  predicate IsHexDigit(c: char) {
    IsDigit(c) || 'a' <= c <= 'f' || 'A' <= c <= 'F'
  }

  function HexDigitValue(c: char): nat
    requires IsHexDigit(c)
  {
    if IsDigit(c) then c as int - '0' as int
    else if 'a' <= c <= 'f' then c as int - 'a' as int + 10
    else c as int - 'A' as int + 10
  }

  function HexValue(s: string): nat
    requires forall c | c in s :: IsHexDigit(c)
  {
    if |s| == 0 then 0
    else
      assert s[|s| - 1] in s;
      16 * HexValue(s[..|s| - 1]) + HexDigitValue(s[|s| - 1])
  }

  /** Like `ParseU64`, in base sixteen. */
  function ParseHex(s: string): Option<nat> {
    var digits := if |s| > 1 && s[0] == '+' then s[1..] else s;
    if |digits| != 0 && (forall c | c in digits :: IsHexDigit(c)) && HexValue(digits) <= U64_MAX
    then Some(HexValue(digits)) else None
  }

  function HexDigit(d: nat): (c: char)
    requires d < 16
    ensures IsHexDigit(c) && HexDigitValue(c) == d
  {
    if d < 10 then '0' + d as char else 'a' + (d - 10) as char
  }

  function Hexadecimal(n: nat): (s: string)
    ensures |s| >= 1 && forall c | c in s :: IsHexDigit(c)
  {
    var last := [HexDigit(n % 16)];
    if n < 16 then last else Hexadecimal(n / 16) + last
  }

  lemma {:induction false} HexRoundTrip(n: nat)
    ensures HexValue(Hexadecimal(n)) == n
  {
    var last := [HexDigit(n % 16)];
    if n < 16 {
      assert last[..0] == "";
    } else {
      HexRoundTrip(n / 16);
      assert Hexadecimal(n)[..|Hexadecimal(n)| - 1] == Hexadecimal(n / 16);
    }
  }

  lemma HexParsesBack(n: nat)
    requires n <= U64_MAX
    ensures ParseHex(Hexadecimal(n)) == Some(n)
  {
    assert Hexadecimal(n)[0] in Hexadecimal(n);
    HexRoundTrip(n);
  }

  lemma {:induction false} TakeUntilSkips(a: string, b: string, c: char)
    requires c !in a
    ensures TakeUntil(a + b, c) == a + TakeUntil(b, c)
  {
    if |a| == 0 {
      assert a + b == b;
    } else {
      assert (a + b)[1..] == a[1..] + b;
      TakeUntilSkips(a[1..], b, c);
    }
  }

  lemma SplitOnceAt(a: string, b: string, c: char)
    requires c !in a
    ensures SplitOnce(a + [c] + b, c) == Some((a, b))
  {
    assert a + [c] + b == a + ([c] + b);
    TakeUntilSkips(a, [c] + b, c);
    assert TakeUntil([c] + b, c) == "" && a + "" == a;
    assert (a + [c] + b)[|a| + 1..] == b;
  }

  lemma SplitAt(a: string, b: string, c: char)
    requires c !in a
    ensures Split(a + [c] + b, c) == [a] + Split(b, c)
    ensures Split(a, c) == [a]
  {
    assert a + [c] + b == a + ([c] + b);
    TakeUntilSkips(a, [c] + b, c);
    assert (a + [c] + b)[|a| + 1..] == b;
    TakeUntilSkips(a, "", c);
    assert a + "" == a;
  }

  lemma {:induction false} TrimEndSkips(a: string, x: char, b: string)
    requires !IsWhitespace(x)
    ensures TrimEnd(a + [x] + b) == a + [x] + TrimEnd(b)
    decreases |b|
  {
    var whole := a + [x] + b;
    if |b| == 0 {
      assert whole == a + [x];
    } else if IsWhitespace(b[|b| - 1]) {
      assert whole[..|whole| - 1] == a + [x] + b[..|b| - 1];
      TrimEndSkips(a, x, b[..|b| - 1]);
    }
  }

  lemma {:induction false} DecimalRoundTrip(n: nat)
    ensures DecimalValue(Decimal(n)) == n
  {
    var last := ['0' + (n % 10) as char];
    if n < 10 {
      assert last[..0] == "";
    } else {
      DecimalRoundTrip(n / 10);
      assert Decimal(n)[..|Decimal(n)| - 1] == Decimal(n / 10);
    }
  }

  lemma ParsesBack(n: nat)
    requires n <= U64_MAX
    ensures ParseU64(Decimal(n)) == Some(n)
  {
    assert Decimal(n)[0] in Decimal(n);
    DecimalRoundTrip(n);
  }

  lemma {:induction false} TrimEndShortens(s: string)
    ensures TrimEnd(s) <= s
    ensures |s| != 0 && IsWhitespace(s[|s| - 1]) ==> |TrimEnd(s)| < |s|
  {
    if |s| != 0 && IsWhitespace(s[|s| - 1]) {
      TrimEndShortens(s[..|s| - 1]);
    }
  }
}
