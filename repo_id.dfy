/**
 * The on-disk identity of a repository (`RepoHandler.getId`): `Integer.toHexString` of the
 * URL's `String.hashCode`, i.e. the hash as an unsigned 32-bit value in lower-case hex.
 */
module RepoId {
  import opened JavaString

  const TWO_32: nat := 0x1_0000_0000

  function Pow31(k: nat): nat {
    if k == 0 then 1 else 31 * Pow31(k - 1)
  }

  /** The Java SE definition of `String.hashCode`, before 32-bit truncation: s[0]*31^(n-1) + ... + s[n-1]. */
  function PolyHash(u: seq<int>): int {
    if u == [] then 0 else u[0] * Pow31(|u| - 1) + PolyHash(u[1..])
  }

  /** The hash as Java computes it, `h = 31 * h + c` in wrapping 32-bit arithmetic, read unsigned. */
  function WrappingHash(u: seq<int>): (h: nat)
    ensures h < TWO_32
  {
    if u == [] then 0 else (31 * WrappingHash(u[..|u| - 1]) + u[|u| - 1]) % TWO_32
  }

  /** `url.hashCode()`, as an unsigned 32-bit value: the Java SE polynomial modulo 2^32. */
  function HashCode(s: string): (h: nat)
    ensures h < TWO_32
    ensures h == PolyHash(Utf16(s)) % TWO_32
  {
    HashIsPolynomialMod(Utf16(s));
    WrappingHash(Utf16(s))
  }

  lemma {:induction false} PolyHashSnoc(u: seq<int>, x: int)
    ensures PolyHash(u + [x]) == 31 * PolyHash(u) + x
  {
    if u != [] {
      var v := u + [x];
      assert v[1..] == u[1..] + [x];
      PolyHashSnoc(u[1..], x);
      calc {
        PolyHash(v);
        u[0] * Pow31(|u|) + PolyHash(u[1..] + [x]);
        u[0] * (31 * Pow31(|u| - 1)) + 31 * PolyHash(u[1..]) + x;
        { assert u[0] * (31 * Pow31(|u| - 1)) == 31 * (u[0] * Pow31(|u| - 1)); }
        31 * (u[0] * Pow31(|u| - 1) + PolyHash(u[1..])) + x;
      }
    } else {
      assert [x][1..] == [];
    }
  }

  lemma ModAddMultiple(k: int, a: int)
    ensures (k * TWO_32 + a) % TWO_32 == a % TWO_32
  {
  }

  /** Java's wrapping loop computes the Java SE polynomial reduced modulo 2^32. */
  lemma {:induction false} HashIsPolynomialMod(u: seq<int>)
    ensures WrappingHash(u) == PolyHash(u) % TWO_32
    decreases |u|
  {
    if u != [] {
      var init, x := u[..|u| - 1], u[|u| - 1];
      HashIsPolynomialMod(init);
      assert u == init + [x];
      PolyHashSnoc(init, x);
      var p := PolyHash(init);
      var q, r := p / TWO_32, p % TWO_32;
      assert p == q * TWO_32 + r;
      assert 31 * p + x == (31 * q) * TWO_32 + (31 * r + x);
      ModAddMultiple(31 * q, 31 * r + x);
    }
  }

  function HexDigit(d: nat): (c: char)
    requires d < 16
  {
    "0123456789abcdef"[d]
  }

  predicate IsHexDigit(c: char) {
    ('0' <= c <= '9') || ('a' <= c <= 'f')
  }

  function DigitValue(c: char): nat
    requires IsHexDigit(c)
  {
    if '0' <= c <= '9' then (c as int - '0' as int) else (c as int - 'a' as int + 10)
  }

  /** `Integer.toHexString` of a value read as unsigned: lower-case digits, no leading zeros. */
  function ToHexString(x: nat): (h: string)
    ensures |h| >= 1
    ensures forall k :: 0 <= k < |h| ==> IsHexDigit(h[k])
  {
    HexDigitValue(x % 16);
    if x < 16 then [HexDigit(x)] else ToHexString(x / 16) + [HexDigit(x % 16)]
  }

  /** Reads a string of hex digits back as a number. */
  function ParseHex(s: string): nat
    requires forall k :: 0 <= k < |s| ==> IsHexDigit(s[k])
  {
    if s == [] then 0 else 16 * ParseHex(s[..|s| - 1]) + DigitValue(s[|s| - 1])
  }

  lemma HexDigitValue(d: nat)
    requires d < 16
    ensures IsHexDigit(HexDigit(d)) && DigitValue(HexDigit(d)) == d
  {
  }

  function Pow16(k: nat): nat {
    if k == 0 then 1 else 16 * Pow16(k - 1)
  }

  lemma DivBelow(x: nat, bound: nat)
    requires x < 16 * bound
    ensures x / 16 < bound && x == 16 * (x / 16) + x % 16
  {
  }

  /** A value below 16^k renders in at most k hex digits, without a leading zero, and parses back. */
  lemma {:induction false} HexDigits(x: nat, k: nat)
    requires 1 <= k && x < Pow16(k)
    ensures var h := ToHexString(x);
      && 1 <= |h| <= k
      && (forall i :: 0 <= i < |h| ==> IsHexDigit(h[i]))
      && (h[0] == '0' ==> x == 0)
      && ParseHex(h) == x
  {
    HexDigitValue(x % 16);
    if x >= 16 {
      assert Pow16(1) == 16;
      assert k >= 2;
      DivBelow(x, Pow16(k - 1));
      HexDigits(x / 16, k - 1);
      HexDigitsStep(x);
    }
  }

  /** One more digit: the rendering of `x` is that of `x / 16` followed by the last digit. */
  lemma HexDigitsStep(x: nat)
    requires x >= 16
    requires var init := ToHexString(x / 16);
      && (forall i :: 0 <= i < |init| ==> IsHexDigit(init[i]))
      && |init| >= 1 && (init[0] == '0' ==> x / 16 == 0)
      && ParseHex(init) == x / 16
    ensures var h := ToHexString(x);
      && |h| == |ToHexString(x / 16)| + 1
      && (forall i :: 0 <= i < |h| ==> IsHexDigit(h[i]))
      && h[0] != '0'
      && ParseHex(h) == x
  {
    var h := ToHexString(x);
    var init := ToHexString(x / 16);
    var last := HexDigit(x % 16);
    HexDigitValue(x % 16);
    assert h == init + [last];
    assert h[..|h| - 1] == init;
    assert h[0] == init[0];
    forall i | 0 <= i < |h| ensures IsHexDigit(h[i]) {
      if i < |init| { assert h[i] == init[i]; }
    }
    assert ParseHex(h) == 16 * ParseHex(init) + DigitValue(last);
    DivBelow(x, x);
  }

  /**
   * `toHexString` renders a 32-bit value in one to eight hex digits without a leading zero
   * (except for zero itself), and reading the digits back gives the value.
   */
  lemma HexRoundTrip(x: nat)
    requires x < TWO_32
    ensures var h := ToHexString(x);
      && 1 <= |h| <= 8
      && (forall k :: 0 <= k < |h| ==> IsHexDigit(h[k]))
      && (h[0] == '0' ==> x == 0)
      && ParseHex(h) == x
  {
    assert Pow16(8) == TWO_32;
    HexDigits(x, 8);
  }

  /**
   * The name of a repository's root directory: one to eight lower-case hex digits, with no
   * leading zero unless the hash code is zero.
   */
  function Id(gitUrl: string): (id: string)
    ensures 1 <= |id| <= 8
    ensures forall k :: 0 <= k < |id| ==> IsHexDigit(id[k])
    ensures id[0] == '0' ==> HashCode(gitUrl) == 0
  {
    HexRoundTrip(HashCode(gitUrl));
    ToHexString(HashCode(gitUrl))
  }

  /**
   * Two URLs get the same root directory exactly when their 32-bit hash codes are equal; in
   * particular the same (normalised) URL always maps to the same root.
   */
  lemma IdIsHashCode(a: string, b: string)
    ensures Id(a) == Id(b) <==> HashCode(a) == HashCode(b)
  {
    HexRoundTrip(HashCode(a));
    HexRoundTrip(HashCode(b));
  }
}
