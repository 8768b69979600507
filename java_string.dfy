/**
 * The few `java.lang.String` operations RepoHandler relies on, with Java's semantics:
 * Java strings are sequences of UTF-16 code units, so comparison and hashing work on the
 * UTF-16 encoding of a Dafny string (whose characters are Unicode scalar values).
 */
module JavaString {

  /** The UTF-16 code units of one character. */
  function CodeUnits(c: char): (u: seq<int>)
    ensures 1 <= |u| <= 2
    ensures forall k :: 0 <= k < |u| ==> 0 <= u[k] < 0x1_0000
  {
    var n := c as int;
    if n < 0x1_0000 then [n]
    else [0xD800 + (n - 0x1_0000) / 0x400, 0xDC00 + (n - 0x1_0000) % 0x400]
  }

  /** The UTF-16 encoding of a string, as Java stores it. */
  function Utf16(s: string): (u: seq<int>)
    ensures |s| <= |u| <= 2 * |s|
    ensures forall k :: 0 <= k < |u| ==> 0 <= u[k] < 0x1_0000
  {
    if s == [] then [] else CodeUnits(s[0]) + Utf16(s[1..])
  }

  /** A character is recovered from the first unit of its encoding and, for a surrogate pair, the second. */
  lemma CodeUnitsInjective(a: char, b: char)
    requires CodeUnits(a) == CodeUnits(b)
    ensures a == b
  {
    var n, m := a as int, b as int;
    if n >= 0x1_0000 && m >= 0x1_0000 {
      assert n == 0x1_0000 + ((n - 0x1_0000) / 0x400) * 0x400 + (n - 0x1_0000) % 0x400;
      assert m == 0x1_0000 + ((m - 0x1_0000) / 0x400) * 0x400 + (m - 0x1_0000) % 0x400;
    }
  }

  /** Distinct strings have distinct UTF-16 encodings. */
  lemma {:induction false} Utf16Injective(s: string, t: string)
    requires Utf16(s) == Utf16(t)
    ensures s == t
  {
    if s != [] && t != [] {
      var a, b := CodeUnits(s[0]), CodeUnits(t[0]);
      // the first unit tells a single unit (never a surrogate) from a high surrogate
      assert Utf16(s)[0] == a[0] && Utf16(t)[0] == b[0];
      FirstUnitTellsLength(s[0]);
      FirstUnitTellsLength(t[0]);
      assert a == Utf16(s)[..|a|] && b == Utf16(t)[..|b|];
      CodeUnitsInjective(s[0], t[0]);
      assert Utf16(s[1..]) == Utf16(s)[|a|..] && Utf16(t[1..]) == Utf16(t)[|b|..];
      Utf16Injective(s[1..], t[1..]);
      assert s == [s[0]] + s[1..] && t == [t[0]] + t[1..];
    }
  }

  /** A character takes two units exactly when its first unit is a high surrogate. */
  lemma FirstUnitTellsLength(c: char)
    ensures |CodeUnits(c)| == 2 <==> 0xD800 <= CodeUnits(c)[0] < 0xDC00
  {
  }

  /**
   * `String.compareTo`: the difference of the first differing code units, or else the
   * difference of the lengths.
   */
  function CompareUnits(a: seq<int>, b: seq<int>): int {
    if |a| == 0 || |b| == 0 then |a| - |b|
    else if a[0] != b[0] then a[0] - b[0]
    else CompareUnits(a[1..], b[1..])
  }

  function CompareTo(a: string, b: string): int {
    CompareUnits(Utf16(a), Utf16(b))
  }

  /** Comparison is zero exactly on equal sequences. */
  lemma {:induction false} CompareUnitsZero(a: seq<int>, b: seq<int>)
    ensures CompareUnits(a, b) == 0 <==> a == b
  {
    if |a| > 0 && |b| > 0 && a[0] == b[0] {
      CompareUnitsZero(a[1..], b[1..]);
      assert a == [a[0]] + a[1..] && b == [b[0]] + b[1..];
    }
  }

  /** Comparison is antisymmetric: swapping the operands negates the result. */
  lemma {:induction false} CompareUnitsAntisymmetric(a: seq<int>, b: seq<int>)
    ensures CompareUnits(b, a) == -CompareUnits(a, b)
  {
    if |a| > 0 && |b| > 0 && a[0] == b[0] {
      CompareUnitsAntisymmetric(a[1..], b[1..]);
    }
  }

  /** Comparison orders sequences transitively, as a sort comparator must. */
  lemma {:induction false} CompareUnitsTransitive(a: seq<int>, b: seq<int>, c: seq<int>)
    requires CompareUnits(a, b) <= 0 && CompareUnits(b, c) <= 0
    ensures CompareUnits(a, c) <= 0
  {
    if |a| > 0 && |b| > 0 && |c| > 0 && a[0] == b[0] && b[0] == c[0] {
      CompareUnitsTransitive(a[1..], b[1..], c[1..]);
    }
  }

  /** `compareTo` on strings is zero exactly when the strings are equal. */
  lemma CompareToZero(a: string, b: string)
    ensures CompareTo(a, b) == 0 <==> a == b
  {
    CompareUnitsZero(Utf16(a), Utf16(b));
    if Utf16(a) == Utf16(b) { Utf16Injective(a, b); }
  }

  /** Occurrence of `pat` at index `i` of `s`. */
  predicate OccursAt(s: string, pat: string, i: int) {
    0 <= i && i + |pat| <= |s| && s[i..i + |pat|] == pat
  }

  /**
   * `s.indexOf(pat, from)`: the first occurrence at or after `from`, or -1.
   * Java returns `|s|` for an empty `pat` when `from > |s|`; here that case gives -1.
   * The only search in this model is for `"://"` from index 0.
   */
  function IndexOfFrom(s: string, pat: string, from: nat): (r: int)
    ensures r == -1 || (from <= r && OccursAt(s, pat, r))
    ensures forall i :: from <= i && (r == -1 || i < r) ==> !OccursAt(s, pat, i)
    decreases |s| - from
  {
    if from + |pat| > |s| then -1
    else if s[from..from + |pat|] == pat then from
    else IndexOfFrom(s, pat, from + 1)
  }

  /** `s.indexOf(pat)`. */
  function IndexOf(s: string, pat: string): int {
    IndexOfFrom(s, pat, 0)
  }

  /** An occurrence with none before it is what `indexOf` finds. */
  lemma IndexOfFirst(s: string, pat: string, k: nat)
    requires OccursAt(s, pat, k)
    requires forall i :: 0 <= i < k ==> !OccursAt(s, pat, i)
    ensures IndexOf(s, pat) == k
  {
  }

  /** `s.lastIndexOf(c)`: the last index holding `c`, or -1. */
  function LastIndexOf(s: string, c: char): (r: int)
    ensures r == -1 || (0 <= r < |s| && s[r] == c)
    ensures forall i :: r < i < |s| ==> s[i] != c
  {
    if s == [] then -1
    else if s[|s| - 1] == c then |s| - 1
    else LastIndexOf(s[..|s| - 1], c)
  }

  /**
   * `s.substring(s.lastIndexOf(c) + 1)`: the part after the last `c`. It is a `c`-free suffix
   * that is the whole string when `c` does not occur and otherwise starts right after a `c`.
   */
  function AfterLast(s: string, c: char): (r: string)
    ensures forall k :: 0 <= k < |r| ==> r[k] != c
    ensures |r| <= |s| && r == s[|s| - |r|..]
    ensures c !in s ==> r == s
    ensures c in s ==> |r| < |s| && s[|s| - |r| - 1] == c
  {
    var j := LastIndexOf(s, c);
    var r := s[j + 1..];
    assert forall k :: 0 <= k < |r| ==> r[k] == s[j + 1 + k];
    assert c !in s ==> j == -1 && r == s;
    assert c in s ==> j >= 0 && |s| - |r| - 1 == j;
    r
  }

  /** `s.endsWith(suffix)`. */
  predicate EndsWith(s: string, suffix: string) {
    |suffix| <= |s| && s[|s| - |suffix|..] == suffix
  }

  /**
   * `s.replace(target, replacement)` for a nonempty target: every non-overlapping occurrence,
   * scanning from the left, is replaced.
   */
  function ReplaceAll(s: string, target: string, replacement: string): string
    requires |target| > 0
  {
    if |s| < |target| then s
    else if s[..|target|] == target then replacement + ReplaceAll(s[|target|..], target, replacement)
    else [s[0]] + ReplaceAll(s[1..], target, replacement)
  }

  /** A string without an occurrence of the target is left unchanged. */
  lemma {:induction false} ReplaceAllAbsent(s: string, target: string, replacement: string)
    requires |target| > 0
    requires forall i :: !OccursAt(s, target, i)
    ensures ReplaceAll(s, target, replacement) == s
  {
    if |s| >= |target| {
      assert !OccursAt(s, target, 0);
      forall i ensures !OccursAt(s[1..], target, i) {
        if 0 <= i && i + |target| <= |s[1..]| {
          assert s[1..][i..i + |target|] == s[i + 1..i + 1 + |target|];
          assert !OccursAt(s, target, i + 1);
        }
      }
      ReplaceAllAbsent(s[1..], target, replacement);
      assert s == [s[0]] + s[1..];
    }
  }

  /**
   * The first occurrence is replaced and the scan resumes right after it: when no occurrence
   * starts inside `a`, replacing in `a + target + b` gives `a + replacement` followed by the
   * replacement in `b`.
   */
  lemma {:induction false} ReplaceAllFirst(a: string, target: string, b: string, replacement: string)
    requires |target| > 0
    requires forall i :: 0 <= i < |a| ==> !OccursAt(a + target + b, target, i)
    ensures ReplaceAll(a + target + b, target, replacement) == a + replacement + ReplaceAll(b, target, replacement)
    decreases |a|
  {
    var s := a + target + b;
    if a == [] {
      assert s == target + b;
      assert s[..|target|] == target;
      assert s[|target|..] == b;
    } else {
      assert !OccursAt(s, target, 0);
      assert s[..|target|] != target;
      assert s[1..] == a[1..] + target + b;
      NoOccurrenceInTail(a, target, b);
      ReplaceAllFirst(a[1..], target, b, replacement);
      assert ReplaceAll(s, target, replacement) == [a[0]] + ReplaceAll(s[1..], target, replacement);
      assert a == [a[0]] + a[1..];
    }
  }

  lemma NoOccurrenceInTail(a: string, target: string, b: string)
    requires a != []
    requires forall i :: 0 <= i < |a| ==> !OccursAt(a + target + b, target, i)
    ensures forall i :: 0 <= i < |a[1..]| ==> !OccursAt(a[1..] + target + b, target, i)
  {
    var s := a + target + b;
    assert s[1..] == a[1..] + target + b;
    forall i | 0 <= i < |a[1..]| ensures !OccursAt(a[1..] + target + b, target, i) {
      assert !OccursAt(s, target, i + 1);
    }
  }
}
