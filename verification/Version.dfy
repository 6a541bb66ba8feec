/**
 Version parsing, printing and precedence (`src/core/update.rs`), after section 11 of
 Semantic Versioning 2.0.0.
 */
module Versions {
  import opened Basics
  import opened Orderings
  import opened Text

  // ── versions ──────────────────────────────────────────────────────────

  datatype Version = Version(major: nat, minor: nat, patch: nat, pre: string) {
    predicate Fits() {
      major <= U64_MAX && minor <= U64_MAX && patch <= U64_MAX
    }
  }

  function PartOrZero(parts: seq<string>, k: nat): Option<nat> {
    ParseU64(if k < |parts| then parts[k] else "0")
  }

  /** Without surrounding white space and leading `v`s. */
  function Bare(s: string): string {
    TrimLeading(TrimLeading(TrimEnd(TrimStart(s)), 'v'), 'V')
  }

  /** Numbers and tag of a text that holds no build metadata any more. */
  function ParseKept(kept: string): Option<Version> {
    var (core, pre) := match SplitOnce(kept, '-')
                       case Some((c, p)) => (c, p)
                       case None => (kept, "");
    var parts := Split(core, '.');
    var major, minor, patch := PartOrZero(parts, 0), PartOrZero(parts, 1), PartOrZero(parts, 2);
    if major.Some? && minor.Some? && patch.Some? then Some(Version(major.value, minor.value, patch.value, pre)) else None
  }

  function Parse(s: string): Option<Version> {
    ParseKept(TakeUntil(Bare(s), '+'))
  }

  function CoreText(v: Version): string {
    Decimal(v.major) + ['.'] + (Decimal(v.minor) + ['.'] + Decimal(v.patch))
  }

  function Display(v: Version): string {
    CoreText(v) + (if v.pre == "" then "" else ['-'] + v.pre)
  }

  /** A dot-separated identifier: a number when it reads as one, text otherwise. */
  datatype Identifier = Number(n: nat) | Text(s: string)

  function IdentifierOf(s: string): Identifier {
    match ParseU64(s)
    case Some(n) => Number(n)
    case None => Text(s)
  }

  function Identifiers(parts: seq<string>): (ids: seq<Identifier>)
    ensures |ids| == |parts|
    ensures forall k | 0 <= k < |parts| :: ids[k] == IdentifierOf(parts[k])
  {
    if |parts| == 0 then [] else [IdentifierOf(parts[0])] + Identifiers(parts[1..])
  }

  /** Numbers sort below text. */
  function CompareIdentifiers(x: Identifier, y: Identifier): Ordering {
    match (x, y)
    case (Number(a), Number(b)) => CompareInts(a, b)
    case (Number(_), Text(_)) => Less
    case (Text(_), Number(_)) => Greater
    case (Text(a), Text(b)) => CompareStrings(a, b)
  }

  function ComparePrereleases(a: string, b: string): Ordering {
    Lexicographic(CompareIdentifiers, Identifiers(Split(a, '.')), Identifiers(Split(b, '.')))
  }

  /** The identifier loop. */
  method ComparePrereleaseLoop(a: string, b: string) returns (r: Ordering)
    ensures r == ComparePrereleases(a, b)
  {
    hide Split, ParseU64, CompareStrings, CompareInts;
    var xs, ys := Split(a, '.'), Split(b, '.');
    ghost var us, vs := Identifiers(xs), Identifiers(ys);
    var k := 0;
    while true
      invariant k <= |xs| && k <= |ys|
      invariant Lexicographic(CompareIdentifiers, us, vs) == Lexicographic(CompareIdentifiers, us[k..], vs[k..])
      decreases |xs| - k
    {
      if k == |xs| {
        return if k == |ys| then Equal else Less;
      }
      if k == |ys| {
        return Greater;
      }
      var x, y := ParseU64(xs[k]), ParseU64(ys[k]);
      var ord;
      if x.Some? && y.Some? {
        ord := CompareInts(x.value, y.value);
      } else if x.Some? {
        ord := Less;
      } else if y.Some? {
        ord := Greater;
      } else {
        ord := CompareStrings(xs[k], ys[k]);
      }
      assert ord == CompareIdentifiers(us[k..][0], vs[k..][0]);
      assert us[k..][1..] == us[k + 1..] && vs[k..][1..] == vs[k + 1..];
      if ord != Equal {
        return ord;
      }
      k := k + 1;
    }
  }

  /** A pre-release sorts before its release. */
  function CompareTags(a: string, b: string): Ordering {
    if a == "" then (if b == "" then Equal else Greater)
    else if b == "" then Less
    else ComparePrereleases(a, b)
  }

  function Compare(a: Version, b: Version): Ordering {
    CompareInts(a.major, b.major)
    .Then(CompareInts(a.minor, b.minor))
    .Then(CompareInts(a.patch, b.patch))
    .Then(CompareTags(a.pre, b.pre))
  }

  /** Strictly newer; a version that does not parse never is, and nothing is newer than one. */
  predicate IsNewer(candidate: string, current: string) {
    match (Parse(candidate), Parse(current))
    case (Some(c), Some(cur)) => Compare(c, cur) == Greater
    case _ => false
  }

  // ── precedence is a strict weak order ─────────────────────────────────

  lemma StringsAreOrdered()
    ensures TotalPreorder(CompareStrings)
  {
    forall a, b ensures CompareStrings(b, a) == CompareStrings(a, b).Reverse() {
      LexicographicReverses(CompareChars, a, b);
    }
    forall a, b, c | CompareStrings(a, b) != Greater && CompareStrings(b, c) != Greater
      ensures CompareStrings(a, c) != Greater
    {
      LexicographicTransitive(CompareChars, a, b, c);
    }
  }

  lemma IdentifiersAreOrdered()
    ensures TotalPreorder(CompareIdentifiers)
  {
    StringsAreOrdered();
    forall x, y ensures CompareIdentifiers(y, x) == CompareIdentifiers(x, y).Reverse() {
      if x.Text? && y.Text? {
        assert CompareStrings(y.s, x.s) == CompareStrings(x.s, y.s).Reverse();
      }
    }
  }

  lemma TagsReverse(a: string, b: string)
    ensures CompareTags(b, a) == CompareTags(a, b).Reverse()
  {
    IdentifiersAreOrdered();
    LexicographicReverses(CompareIdentifiers, Identifiers(Split(a, '.')), Identifiers(Split(b, '.')));
  }

  lemma TagsTransitive(a: string, b: string, c: string)
    requires CompareTags(a, b) != Greater && CompareTags(b, c) != Greater
    ensures CompareTags(a, c) != Greater
  {
    if a != "" && b != "" && c != "" {
      IdentifiersAreOrdered();
      LexicographicTransitive(CompareIdentifiers, Identifiers(Split(a, '.')), Identifiers(Split(b, '.')), Identifiers(Split(c, '.')));
    }
  }

  lemma CompareReverses(a: Version, b: Version)
    ensures Compare(b, a) == Compare(a, b).Reverse()
  {
    TagsReverse(a.pre, b.pre);
  }

  lemma CompareTransitive(a: Version, b: Version, c: Version)
    requires Compare(a, b) != Greater && Compare(b, c) != Greater
    ensures Compare(a, c) != Greater
  {
    if a.major == b.major == c.major && a.minor == b.minor == c.minor && a.patch == b.patch == c.patch {
      hide CompareTags;
      TagsTransitive(a.pre, b.pre, c.pre);
    }
  }

  /** `is_newer` never holds of a version and itself, nor both ways. */
  lemma NewerIsAsymmetric(a: string, b: string)
    ensures !(IsNewer(a, b) && IsNewer(b, a))
    ensures !IsNewer(a, a)
  {
    hide Parse, Compare;
    if Parse(a).Some? {
      CompareReverses(Parse(a).value, Parse(a).value);
      if Parse(b).Some? {
        CompareReverses(Parse(a).value, Parse(b).value);
      }
    }
  }

  /** It is transitive; and among versions that parse so is not being newer, which makes it a weak order. */
  lemma NewerIsTransitive(a: string, b: string, c: string)
    ensures IsNewer(a, b) && IsNewer(b, c) ==> IsNewer(a, c)
    ensures Parse(b).Some? && !IsNewer(a, b) && !IsNewer(b, c) ==> !IsNewer(a, c)
  {
    hide Parse, Compare;
    if Parse(a).Some? && Parse(b).Some? && Parse(c).Some? {
      var x, y, z := Parse(a).value, Parse(b).value, Parse(c).value;
      CompareReverses(x, y);
      CompareReverses(y, z);
      CompareReverses(x, z);
      if Compare(x, y) == Greater && Compare(y, z) == Greater && Compare(x, z) != Greater {
        CompareTransitive(z, y, x);
        CompareTransitive(y, x, z);
      } else if Compare(x, y) != Greater && Compare(y, z) != Greater {
        CompareTransitive(x, y, z);
      }
    }
  }

  // ── printing and parsing ──────────────────────────────────────────────

  lemma CoreIsPlain(v: Version)
    ensures forall c | c in CoreText(v) :: IsDigit(c) || c == '.'
    ensures IsDigit(CoreText(v)[0])
    ensures Split(CoreText(v), '.') == [Decimal(v.major), Decimal(v.minor), Decimal(v.patch)]
  {
    var rest := Decimal(v.minor) + ['.'] + Decimal(v.patch);
    SplitAt(Decimal(v.major), rest, '.');
    SplitAt(Decimal(v.minor), Decimal(v.patch), '.');
    SplitAt(Decimal(v.patch), "", '.');
    assert CoreText(v)[0] == Decimal(v.major)[0];
    assert Decimal(v.major)[0] in Decimal(v.major);
  }

  /** What survives of a tag: trailing white space and build metadata are dropped. */
  function Cleaned(pre: string): string {
    TakeUntil(TrimEnd(pre), '+')
  }

  function WithTag(core: string, tag: string): string {
    core + ['-'] + tag
  }

  lemma BareOfDigits(s: string)
    requires |s| != 0 && IsDigit(s[0]) && |TrimEnd(s)| != 0
    ensures Bare(s) == TrimEnd(s)
  {
    TrimEndShortens(s);
    assert TrimStart(s) == s;
  }

  lemma DisplayTrims(v: Version)
    ensures TrimEnd(Display(v)) == if v.pre == "" then CoreText(v) else WithTag(CoreText(v), TrimEnd(v.pre))
  {
    hide CoreText;
    var core := CoreText(v);
    CoreIsPlain(v);
    if v.pre == "" {
      assert core[|core| - 1] in core;
    } else {
      TrimEndSkips(core, '-', v.pre);
      assert Display(v) == WithTag(core, v.pre);
    }
  }

  lemma BareDisplay(v: Version)
    ensures Bare(Display(v)) == if v.pre == "" then CoreText(v) else WithTag(CoreText(v), TrimEnd(v.pre))
  {
    hide CoreText, Bare, TrimEnd;
    CoreIsPlain(v);
    DisplayTrims(v);
    assert Display(v)[0] == CoreText(v)[0];
    BareOfDigits(Display(v));
  }

  lemma KeptDisplay(v: Version)
    ensures TakeUntil(Bare(Display(v)), '+') == if v.pre == "" then CoreText(v) else WithTag(CoreText(v), Cleaned(v.pre))
  {
    hide Bare, Display, CoreText;
    BareDisplay(v);
    CoreIsPlain(v);
    var core := CoreText(v);
    if v.pre == "" {
      TakeUntilSkips(core, "", '+');
      assert core + "" == core;
    } else {
      TakeUntilSkips(core + ['-'], TrimEnd(v.pre), '+');
    }
  }

  lemma ParseCore(v: Version, tag: string)
    requires v.Fits()
    ensures ParseKept(WithTag(CoreText(v), tag)) == Some(v.(pre := tag))
    ensures ParseKept(CoreText(v)) == Some(v.(pre := ""))
  {
    hide CoreText, Decimal, ParseU64;
    CoreIsPlain(v);
    var core := CoreText(v);
    SplitOnceAt(core, tag, '-');
    TakeUntilSkips(core, "", '-');
    assert core + "" == core;
    ParsesBack(v.major);
    ParsesBack(v.minor);
    ParsesBack(v.patch);
  }

  /** Parsing a printed version gives the version back with its tag cleaned. */
  lemma ParseDisplay(v: Version)
    requires v.Fits()
    ensures Parse(Display(v)) == Some(v.(pre := Cleaned(v.pre)))
  {
    hide Bare, Display, CoreText, ParseKept, WithTag;
    KeptDisplay(v);
    ParseCore(v, Cleaned(v.pre));
  }

  lemma {:induction false} CleanedExactly(pre: string)
    ensures Cleaned(pre) == pre <==> '+' !in pre && (pre == "" || !IsWhitespace(pre[|pre| - 1]))
  {
    TrimEndShortens(pre);
    TakeUntilSkips(TakeUntil(TrimEnd(pre), '+'), TrimEnd(pre)[|TakeUntil(TrimEnd(pre), '+')|..], '+');
    if '+' !in pre && (pre == "" || !IsWhitespace(pre[|pre| - 1])) {
      TakeUntilSkips(pre, "", '+');
      assert pre + "" == pre;
    }
  }

  /** Printing loses nothing exactly when the tag holds no plus sign and does not end in white space. */
  lemma RoundTripExactly(v: Version)
    requires v.Fits()
    ensures Parse(Display(v)) == Some(v) <==> '+' !in v.pre && (v.pre == "" || !IsWhitespace(v.pre[|v.pre| - 1]))
  {
    hide Parse, Display;
    ParseDisplay(v);
    CleanedExactly(v.pre);
  }

  /** A release, as printed, is newer than a pre-release of itself, as printed, exactly when something is left of the
      tag once it is read back; and never the other way around. */
  lemma ReleaseIsNewerExactly(v: Version)
    requires v.Fits()
    ensures var release := v.(pre := "");
            && (IsNewer(Display(release), Display(v)) <==> Cleaned(v.pre) != "")
            && !IsNewer(Display(v), Display(release))
  {
    hide Parse, Display, ComparePrereleases;
    ParseDisplay(v);
    ParseDisplay(v.(pre := ""));
    assert Cleaned("") == "";
  }

  // ── section 11 of Semantic Versioning 2.0.0, on printed text ──────────

  /** The first of the three numbers that differs is larger in `v`. */
  predicate LargerCore(v: Version, w: Version) {
    || v.major > w.major
    || (v.major == w.major && v.minor > w.minor)
    || (v.major == w.major && v.minor == w.minor && v.patch > w.patch)
  }

  predicate SameCore(v: Version, w: Version) {
    v.major == w.major && v.minor == w.minor && v.patch == w.patch
  }

  /** Between versions with different numbers the tags do not matter: the newer one is larger in the first of major,
      minor and patch that differs. */
  lemma NumbersDecide(v: Version, w: Version)
    requires v.Fits() && w.Fits() && !SameCore(v, w)
    ensures IsNewer(Display(v), Display(w)) <==> LargerCore(v, w)
  {
    hide Parse, Display, CompareTags;
    ParseDisplay(v);
    ParseDisplay(w);
  }

  /** An identifier as a tag may hold it: a number that 64 bits hold, or letters, digits and hyphens that are not all
      digits. */
  ghost predicate Plain(id: Identifier) {
    match id
    case Number(n) => n <= U64_MAX
    case Text(s) => (forall c | c in s :: IsDigit(c) || IsLetter(c) || c == '-') && exists c :: c in s && !IsDigit(c)
  }

  predicate IsLetter(c: char) {
    'a' <= c <= 'z' || 'A' <= c <= 'Z'
  }

  function Shown(id: Identifier): string {
    match id
    case Number(n) => Decimal(n)
    case Text(s) => s
  }

  /** The tag that identifiers make up. */
  function Tag(ids: seq<Identifier>): string
    requires |ids| != 0
  {
    if |ids| == 1 then Shown(ids[0]) else Shown(ids[0]) + ['.'] + Tag(ids[1..])
  }

  ghost predicate PlainTag(ids: seq<Identifier>) {
    |ids| != 0 && forall k | 0 <= k < |ids| :: Plain(ids[k])
  }

  predicate TagChar(c: char) {
    IsDigit(c) || IsLetter(c) || c == '-'
  }

  lemma ShownIsPlain(id: Identifier)
    requires Plain(id)
    ensures Shown(id) != "" && (forall c | c in Shown(id) :: TagChar(c)) && IdentifierOf(Shown(id)) == id
  {
    match id
    case Number(n) => ParsesBack(n);
    case Text(s) =>
      var c :| c in s && !IsDigit(c);
      assert s[0] in s;
  }

  lemma {:induction false} TagReads(ids: seq<Identifier>)
    requires PlainTag(ids)
    ensures Tag(ids) != "" && (forall c | c in Tag(ids) :: TagChar(c) || c == '.') && TagChar(Tag(ids)[|Tag(ids)| - 1])
    ensures Identifiers(Split(Tag(ids), '.')) == ids
  {
    hide Plain, Split, Shown, IdentifierOf;
    var first := Shown(ids[0]);
    ShownIsPlain(ids[0]);
    assert first[|first| - 1] in first;
    if |ids| == 1 {
      SplitAt(first, "", '.');
      assert ids == [ids[0]] && Identifiers([first]) == [ids[0]];
    } else {
      TagReads(ids[1..]);
      SplitAt(first, Tag(ids[1..]), '.');
      assert ([first] + Split(Tag(ids[1..]), '.'))[1..] == Split(Tag(ids[1..]), '.');
      assert ids == [ids[0]] + ids[1..];
    }
  }

  lemma TagIsClean(ids: seq<Identifier>)
    requires PlainTag(ids)
    ensures Cleaned(Tag(ids)) == Tag(ids)
  {
    hide Cleaned, Tag, Split;
    TagReads(ids);
    CleanedExactly(Tag(ids));
  }

  /** A text sorts after another: larger at the first place where they differ, or longer with an equal beginning. */
  ghost predicate TextAbove(s: string, t: string) {
    exists m: nat :: m < |s| && m <= |t| && s[..m] == t[..m] && (m == |t| || s[m] > t[m])
  }

  /** Numbers by value, texts by character, a number below a text. */
  ghost predicate IdentifierAbove(x: Identifier, y: Identifier) {
    match (x, y)
    case (Number(a), Number(b)) => a > b
    case (Text(_), Number(_)) => true
    case (Number(_), Text(_)) => false
    case (Text(s), Text(t)) => TextAbove(s, t)
  }

  /** Where two sequences agree up to `k`, and the shorter ends there or they differ there, that place decides. */
  lemma {:induction false} FirstDifference<T>(cmp: (T, T) -> Ordering, a: seq<T>, b: seq<T>, k: nat)
    requires k <= |a| && k <= |b| && forall j | 0 <= j < k :: cmp(a[j], b[j]) == Equal
    requires k < |a| && k < |b| ==> cmp(a[k], b[k]) != Equal
    ensures Lexicographic(cmp, a, b) ==
            if k == |a| then (if k == |b| then Equal else Less) else if k == |b| then Greater else cmp(a[k], b[k])
    decreases k
  {
    if k != 0 {
      assert forall j | 0 <= j < k - 1 :: a[1..][j] == a[j + 1] && b[1..][j] == b[j + 1];
      FirstDifference(cmp, a[1..], b[1..], k - 1);
    }
  }

  lemma {:induction false} Agreement<T>(a: seq<T>, b: seq<T>) returns (k: nat)
    ensures k <= |a| && k <= |b| && a[..k] == b[..k] && (k < |a| && k < |b| ==> a[k] != b[k])
  {
    if |a| == 0 || |b| == 0 || a[0] != b[0] {
      k := 0;
    } else {
      k := Agreement(a[1..], b[1..]);
      assert a[..k + 1] == [a[0]] + a[1..][..k] && b[..k + 1] == [b[0]] + b[1..][..k];
      k := k + 1;
    }
  }

  lemma SameSoFar<T>(a: seq<T>, b: seq<T>, k: nat, j: nat)
    requires k <= |a| && k <= |b| && a[..k] == b[..k] && j < k
    ensures a[j] == b[j]
  {
    assert a[..k][j] == b[..k][j];
  }

  lemma TextsCompare(s: string, t: string)
    ensures CompareStrings(s, t) == Greater <==> TextAbove(s, t)
  {
    var k := Agreement(s, t);
    forall j | 0 <= j < k ensures s[j] == t[j] {
      SameSoFar(s, t, k, j);
    }
    FirstDifference(CompareChars, s, t, k);
    if m: nat :| m < |s| && m <= |t| && s[..m] == t[..m] && (m == |t| || s[m] > t[m]) {
      if m < k {
        SameSoFar(s, t, k, m);
      } else if k < m {
        SameSoFar(s, t, m, k);
      }
    }
  }

  /** With equal numbers, two tags of plain identifiers compare at the first place where they differ; a tag that merely
      goes on is the newer one. */
  lemma IdentifiersDecide(v: Version, a: seq<Identifier>, b: seq<Identifier>, k: nat)
    requires v.Fits() && PlainTag(a) && PlainTag(b)
    requires k <= |a| && k <= |b| && a[..k] == b[..k] && (k < |a| && k < |b| ==> a[k] != b[k])
    ensures IsNewer(Display(v.(pre := Tag(a))), Display(v.(pre := Tag(b)))) <==>
            k < |a| && (k == |b| || IdentifierAbove(a[k], b[k]))
  {
    hide Parse, Display, Tag, Plain, Split, Cleaned, CompareStrings;
    ParseDisplay(v.(pre := Tag(a)));
    ParseDisplay(v.(pre := Tag(b)));
    TagIsClean(a);
    TagIsClean(b);
    TagReads(a);
    TagReads(b);
    forall j | 0 <= j < k ensures CompareIdentifiers(a[j], b[j]) == Equal {
      SameSoFar(a, b, k, j);
      SameIdentifier(a[j]);
    }
    if k < |a| && k < |b| {
      DifferentIdentifiers(a[k], b[k]);
    }
    FirstDifference(CompareIdentifiers, a, b, k);
  }

  lemma SameIdentifier(x: Identifier)
    ensures CompareIdentifiers(x, x) == Equal
  {
    if x.Text? {
      CompareStringsEqual(x.s, x.s);
    }
  }

  lemma DifferentIdentifiers(x: Identifier, y: Identifier)
    requires x != y
    ensures CompareIdentifiers(x, y) != Equal && (CompareIdentifiers(x, y) == Greater <==> IdentifierAbove(x, y))
  {
    hide CompareStrings;
    if x.Text? && y.Text? {
      CompareStringsEqual(x.s, y.s);
      TextsCompare(x.s, y.s);
    }
  }

  // ── what never installs ───────────────────────────────────────────────

  /** A text whose first character, white space and leading `v`s aside, is neither a digit nor a plus sign is no version;
      and with one that does not parse on either side, nothing is newer. */
  lemma MalformedIsNeverNewer(s: string, other: string)
    requires Bare(s) == "" || (!IsDigit(Bare(s)[0]) && Bare(s)[0] != '+')
    ensures Parse(s).None? && !IsNewer(s, other) && !IsNewer(other, s)
  {
    hide Bare, IsDigit;
    var kept := TakeUntil(Bare(s), '+');
    var core := TakeUntil(kept, '-');
    assert core != "" ==> core[0] == Bare(s)[0];
    var parts := Split(core, '.');
    assert parts[0] == TakeUntil(core, '.');
    assert parts[0] != "" ==> parts[0][0] == Bare(s)[0] && parts[0][0] in parts[0];
    NoNumber(parts[0]);
  }

  lemma NoNumber(part: string)
    requires part == "" || (!IsDigit(part[0]) && part[0] != '+')
    ensures ParseU64(part).None?
  {
    assert part != "" ==> part[0] in part;
  }

  // ── shorter forms ─────────────────────────────────────────────────────

  /** A leading `v` or `V` changes nothing, and missing numbers are zero. */
  lemma ShortForms(v: Version)
    requires v.Fits()
    ensures Parse(['v'] + CoreText(v)) == Parse(['V'] + CoreText(v)) == Some(v.(pre := ""))
    ensures Parse(Decimal(v.major)) == Some(Version(v.major, 0, 0, ""))
    ensures Parse(Decimal(v.major) + ['.'] + Decimal(v.minor)) == Some(Version(v.major, v.minor, 0, ""))
  {
    hide CoreText, Decimal, ParseU64, ParseKept, Bare, TakeUntil;
    CoreIsPlain(v);
    var two := Decimal(v.major) + ['.'] + Decimal(v.minor);
    PlainCoreKept(Decimal(v.major));
    PlainCoreKept(two);
    PlainCoreKept(CoreText(v));
    ParseCore(v, "");
    ShortCore(v);
  }

  lemma PlainCoreKept(core: string)
    requires core != "" && IsDigit(core[0]) && forall c | c in core :: IsDigit(c) || c == '.'
    ensures TakeUntil(Bare(core), '+') == core
    ensures TakeUntil(Bare(['v'] + core), '+') == core && TakeUntil(Bare(['V'] + core), '+') == core
  {
    assert core[|core| - 1] in core;
    var small, large := ['v'] + core, ['V'] + core;
    assert small[|small| - 1] == core[|core| - 1] == large[|large| - 1];
    assert TrimEnd(TrimStart(core)) == core && TrimEnd(TrimStart(small)) == small && TrimEnd(TrimStart(large)) == large;
    assert small[1..] == core == large[1..];
    assert TrimLeading(core, 'v') == core && TrimLeading(core, 'V') == core;
    assert TrimLeading(small, 'v') == core;
    assert TrimLeading(large, 'v') == large && TrimLeading(large, 'V') == core;
    TakeUntilSkips(core, "", '+');
    assert core + "" == core;
  }

  lemma ShortCore(v: Version)
    requires v.Fits()
    ensures ParseKept(Decimal(v.major)) == Some(Version(v.major, 0, 0, ""))
    ensures ParseKept(Decimal(v.major) + ['.'] + Decimal(v.minor)) == Some(Version(v.major, v.minor, 0, ""))
  {
    hide Decimal, ParseU64, Split;
    var one, two := Decimal(v.major), Decimal(v.major) + ['.'] + Decimal(v.minor);
    NoDash(one);
    NoDash(two);
    SplitAt(Decimal(v.major), Decimal(v.minor), '.');
    SplitAt(Decimal(v.minor), "", '.');
    ParsesBack(v.major);
    ParsesBack(v.minor);
    ZeroParses();
  }

  lemma NoDash(core: string)
    requires forall c | c in core :: IsDigit(c) || c == '.'
    ensures SplitOnce(core, '-').None?
  {
    TakeUntilSkips(core, "", '-');
    assert core + "" == core;
  }

  lemma ZeroParses()
    ensures ParseU64("0") == Some(0)
  {
    assert "0"[..0] == "";
  }

  // ── numbers too large for 64 bits ─────────────────────────────────────

  function Pow10(k: nat): nat {
    if k == 0 then 1 else 10 * Pow10(k - 1)
  }

  const TEN_TO_20: nat := 100_000_000_000_000_000_000

  lemma TwentyDigits()
    ensures Pow10(20) == TEN_TO_20 && Pow10(19) == 10_000_000_000_000_000_000
  {
    assert Pow10(4) == 10_000;
    assert Pow10(8) == 100_000_000;
    assert Pow10(12) == 1_000_000_000_000;
    assert Pow10(16) == 10_000_000_000_000_000;
    assert Pow10(19) == 10_000_000_000_000_000_000;
  }

  /** A number between `lead * 10^k` and the next such has `k` more digits after its leading one. */
  lemma {:induction false} Digits(n: nat, lead: nat, k: nat)
    requires 1 <= lead <= 9 && lead * Pow10(k) <= n < (lead + 1) * Pow10(k)
    ensures |Decimal(n)| == k + 1 && Decimal(n)[0] == '0' + lead as char
  {
    if k != 0 {
      var p := Pow10(k - 1);
      TenTimes(lead, p);
      TenTimes(lead + 1, p);
      AtLeastOne(lead, p);
      Pow10Positive(k - 1);
      TenthBetween(n, lead * p, (lead + 1) * p);
      Digits(n / 10, lead, k - 1);
    } else {
      assert Pow10(0) == 1;
    }
  }

  lemma TenTimes(a: nat, b: nat)
    ensures a * (10 * b) == 10 * (a * b)
  {
  }

  lemma TenthBetween(n: nat, lo: nat, hi: nat)
    requires 10 * lo <= n < 10 * hi && lo >= 1
    ensures lo <= n / 10 < hi && n >= 10
  {
  }

  lemma AtLeastOne(a: nat, b: nat)
    requires a >= 1
    ensures a * b >= b
  {
    assert a * b == b + (a - 1) * b;
  }

  lemma {:induction false} Pow10Positive(k: nat)
    ensures Pow10(k) >= 1
  {
    if k != 0 {
      Pow10Positive(k - 1);
    }
  }

  lemma {:induction false} LastDecides(x: string, y: string, c: char, d: char)
    requires |x| == |y|
    ensures CompareStrings(x + [c], y + [d]) == CompareStrings(x, y).Then(CompareChars(c, d))
    decreases |x|
  {
    if |x| == 0 {
      assert x + [c] == [c] && y + [d] == [d] && [c][1..] == [] && [d][1..] == [];
    } else {
      assert (x + [c])[1..] == x[1..] + [c] && (y + [d])[1..] == y[1..] + [d];
      LastDecides(x[1..], y[1..], c, d);
    }
  }

  /** Numbers with equally many digits sort as text the way they do as numbers. */
  lemma {:induction false} SameLengthSorts(a: nat, b: nat)
    requires |Decimal(a)| == |Decimal(b)|
    ensures CompareStrings(Decimal(a), Decimal(b)) == CompareInts(a, b)
    decreases a
  {
    var c, d := '0' + (a % 10) as char, '0' + (b % 10) as char;
    if a < 10 {
      assert b < 10;
      LastDecides("", "", c, d);
      assert "" + [c] == [c] && "" + [d] == [d];
    } else {
      SameLengthSorts(a / 10, b / 10);
      LastDecides(Decimal(a / 10), Decimal(b / 10), c, d);
    }
  }

  /** The numeric identifier that reads `n`. */
  function Numeric(n: nat): Identifier {
    IdentifierOf(Decimal(n))
  }

  lemma NumericMeaning(n: nat)
    ensures Numeric(n) == if n <= U64_MAX then Number(n) else Text(Decimal(n))
  {
    assert Decimal(n)[0] in Decimal(n);
    DecimalRoundTrip(n);
  }

  lemma TwentyDigitsLong(n: nat)
    requires U64_MAX < n < TEN_TO_20
    ensures |Decimal(n)| == 20
  {
    var lead := n / 10_000_000_000_000_000_000;
    assert lead * 10_000_000_000_000_000_000 <= n < (lead + 1) * 10_000_000_000_000_000_000 && 1 <= lead <= 9;
    TwentyDigits();
    hide Pow10, Decimal;
    Digits(n, lead, 19);
  }

  lemma TwentyOneDigits()
    ensures CompareStrings(Decimal(TEN_TO_20), Decimal(TEN_TO_20 - 1)) == Less
  {
    TwentyDigits();
    Digits(TEN_TO_20, 1, 20);
    Digits(TEN_TO_20 - 1, 9, 19);
  }

  /** Numeric identifiers up to `limit` compare as numbers exactly if it has at most twenty digits: those that 64 bits
      do not hold are compared as text, which is right as long as they are equally long. */
  lemma NumericIdentifiersExactly(limit: nat)
    ensures limit < TEN_TO_20 <==>
            forall a: nat, b: nat | a <= limit && b <= limit :: CompareIdentifiers(Numeric(a), Numeric(b)) == CompareInts(a, b)
  {
    hide Decimal, CompareStrings, IdentifierOf, Numeric;
    if limit < TEN_TO_20 {
      forall a: nat, b: nat | a <= limit && b <= limit ensures CompareIdentifiers(Numeric(a), Numeric(b)) == CompareInts(a, b) {
        NumericMeaning(a);
        NumericMeaning(b);
        if a > U64_MAX && b > U64_MAX {
          TwentyDigitsLong(a);
          TwentyDigitsLong(b);
          SameLengthSorts(a, b);
        }
      }
    } else {
      NumericMeaning(TEN_TO_20);
      NumericMeaning(TEN_TO_20 - 1);
      TwentyOneDigits();
      assert CompareIdentifiers(Numeric(TEN_TO_20), Numeric(TEN_TO_20 - 1)) != CompareInts(TEN_TO_20, TEN_TO_20 - 1);
    }
  }
}
