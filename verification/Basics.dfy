/** Small types shared by every part of the model. */
module Basics {
  datatype Option<+T> = None | Some(value: T)

  const U32_MAX: int := 0xFFFF_FFFF

  const U64_MAX: int := 0xFFFF_FFFF_FFFF_FFFF

  type u32 = x: int | 0 <= x <= U32_MAX

  /** An octet on the wire. */
  type byte = x: int | 0 <= x < 256

  function Min(a: int, b: int): int {
    if a <= b then a else b
  }

  function Max(a: int, b: int): int {
    if a <= b then b else a
  }

  function Pow2(e: nat): (p: nat)
    ensures p >= 1
  {
    if e == 0 then 1 else 2 * Pow2(e - 1)
  }

  function Lookup<K, V>(m: map<K, V>, k: K): Option<V> {
    if k in m then Some(m[k]) else None
  }

  /** How many of the latest outcomes in a row were `value`. */
  function Streak(outcomes: seq<bool>, value: bool): nat {
    if |outcomes| == 0 || outcomes[|outcomes| - 1] != value then 0
    else 1 + Streak(outcomes[..|outcomes| - 1], value)
  }

  lemma {:induction false} StreakIsTrailingBlock(outcomes: seq<bool>, value: bool, n: nat)
    ensures Streak(outcomes, value) <= |outcomes|
    ensures Streak(outcomes, value) >= n <==>
            n <= |outcomes| && forall k | |outcomes| - n <= k < |outcomes| :: outcomes[k] == value
  {
    if |outcomes| != 0 {
      var init := outcomes[..|outcomes| - 1];
      StreakIsTrailingBlock(init, value, if n == 0 then 0 else n - 1);
      if 0 < n <= |outcomes| && outcomes[|outcomes| - 1] == value {
        assert forall k | |outcomes| - n <= k < |init| :: init[k] == outcomes[k];
      }
    }
  }

  ghost predicate NonDecreasing(s: seq<int>) {
    forall i, j | 0 <= i < j < |s| :: s[i] <= s[j]
  }

  ghost predicate AllDiffer<T>(s: seq<T>) {
    forall i, j | 0 <= i < j < |s| :: s[i] != s[j]
  }

  lemma TailDiffers<T>(head: T, tail: seq<T>)
    ensures AllDiffer([head] + tail) <==> AllDiffer(tail) && head !in tail
  {
    var s := [head] + tail;
    if AllDiffer(s) {
      forall i, j | 0 <= i < j < |tail| ensures tail[i] != tail[j] {
        assert s[i + 1] != s[j + 1];
      }
      forall i | 0 <= i < |tail| ensures tail[i] != head {
        assert s[0] != s[i + 1];
      }
    }
    if AllDiffer(tail) && head !in tail {
      forall i, j | 0 <= i < j < |s| ensures s[i] != s[j] {
        assert s[j] == tail[j - 1];
      }
    }
  }
}

/** Three-way comparison and its lexicographic lift to sequences. */
module Orderings {
  datatype Ordering = Less | Equal | Greater {
    function Reverse(): Ordering {
      match this
      case Less => Greater
      case Equal => Equal
      case Greater => Less
    }

    function Then(other: Ordering): Ordering {
      if this == Equal then other else this
    }
  }

  function CompareInts(x: int, y: int): Ordering {
    if x < y then Less else if x == y then Equal else Greater
  }

  function CompareChars(x: char, y: char): Ordering {
    if x < y then Less else if x == y then Equal else Greater
  }

  /** Element by element; a proper prefix sorts first. */
  function Lexicographic<T>(cmp: (T, T) -> Ordering, a: seq<T>, b: seq<T>): Ordering
    decreases |a|
  {
    if |a| == 0 then (if |b| == 0 then Equal else Less)
    else if |b| == 0 then Greater
    else cmp(a[0], b[0]).Then(Lexicographic(cmp, a[1..], b[1..]))
  }

  /** Code point order, which is also the order of the UTF-8 bytes. */
  function CompareStrings(a: string, b: string): Ordering {
    Lexicographic(CompareChars, a, b)
  }

  /** Any two elements compare one way, consistently and transitively. */
  ghost predicate TotalPreorder<T(!new)>(cmp: (T, T) -> Ordering) {
    && (forall x, y :: cmp(y, x) == cmp(x, y).Reverse())
    && (forall x, y, z :: cmp(x, y) != Greater && cmp(y, z) != Greater ==> cmp(x, z) != Greater)
  }

  lemma {:induction false} LexicographicReverses<T(!new)>(cmp: (T, T) -> Ordering, a: seq<T>, b: seq<T>)
    requires TotalPreorder(cmp)
    ensures Lexicographic(cmp, b, a) == Lexicographic(cmp, a, b).Reverse()
    decreases |a|
  {
    if |a| != 0 && |b| != 0 {
      LexicographicReverses(cmp, a[1..], b[1..]);
      assert cmp(b[0], a[0]) == cmp(a[0], b[0]).Reverse();
    }
  }

  lemma {:induction false} LexicographicTransitive<T(!new)>(cmp: (T, T) -> Ordering, a: seq<T>, b: seq<T>, c: seq<T>)
    requires TotalPreorder(cmp)
    requires Lexicographic(cmp, a, b) != Greater && Lexicographic(cmp, b, c) != Greater
    ensures Lexicographic(cmp, a, c) != Greater
    decreases |a|
  {
    if |a| != 0 && |b| != 0 && |c| != 0 {
      assert cmp(a[0], c[0]) != Greater;
      if cmp(a[0], c[0]) == Equal {
        assert cmp(c[0], a[0]) == Equal;
        assert cmp(b[0], a[0]) != Greater;
        assert cmp(c[0], b[0]) != Greater;
        assert cmp(a[0], b[0]) == Equal && cmp(b[0], c[0]) == Equal;
        LexicographicTransitive(cmp, a[1..], b[1..], c[1..]);
      }
    }
  }

  lemma {:induction false} CompareStringsEqual(a: string, b: string)
    ensures CompareStrings(a, b) == Equal <==> a == b
    decreases |a|
  {
    if |a| != 0 && |b| != 0 {
      CompareStringsEqual(a[1..], b[1..]);
      assert a == [a[0]] + a[1..] && b == [b[0]] + b[1..];
    }
  }
}
