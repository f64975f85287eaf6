/**
Fixed-width numbers held in arrays, and arithmetic modulo a number. Words are
32 bits wide and stored least significant first (secure_verify/rsa.h); byte
strings are most significant first, as in an RSA signature.
 */
module BigNum {

  const BASE: nat := 0x1_0000_0000

  type word = x: int | 0 <= x < 0x1_0000_0000
  type byte = x: int | 0 <= x < 256

  /** 2^(32*i), the weight of word i. */
  function Weight(i: nat): (w: nat)
    ensures w >= 1
  {
    if i == 0 then 1 else BASE * Weight(i - 1)
  }

  /** The number a word array stands for, least significant word first. */
  function Value(s: seq<word>): (v: nat)
    ensures v < Weight(|s|)
  {
    if s == [] then 0 else
      var k := |s| - 1;
      ScaleBound(s[k], BASE - 1, Weight(k));
      Value(s[..k]) + s[k] * Weight(k)
  }

  /** The number a byte string stands for, most significant byte first. */
  function BytesValue(s: seq<byte>): nat
  {
    if s == [] then 0 else BytesValue(s[..|s| - 1]) * 256 + s[|s| - 1]
  }

  lemma ScaleBound(x: nat, bound: nat, w: nat)
    requires x <= bound
    ensures 0 <= x * w <= bound * w
  {
  }

  /** Taking in word i adds its weighted value. */
  lemma ValueStep(s: seq<word>, i: nat)
    requires i < |s|
    ensures Value(s[..i + 1]) == Value(s[..i]) + s[i] * Weight(i)
  {
    assert s[..i + 1][..i] == s[..i];
  }

  /** Splitting off the least significant word. */
  lemma {:induction false} ValueHead(s: seq<word>)
    requires s != []
    ensures Value(s) == s[0] + BASE * Value(s[1..])
  {
    var k := |s| - 1;
    if k == 0 {
      assert s[..k] == [];
    } else {
      ValueHead(s[..k]);
      assert s[..k][1..] == s[1..][..k - 1];
      assert s[1..][k - 1] == s[k];
      assert s[k] * (BASE * Weight(k - 1)) == BASE * (s[k] * Weight(k - 1));
    }
  }

  /** The most significant differing word decides the comparison. */
  lemma {:induction false} ValueLess(a: seq<word>, b: seq<word>, i: nat)
    requires |a| == |b| && i < |a|
    requires a[i + 1..] == b[i + 1..] && a[i] < b[i]
    ensures Value(a) < Value(b)
  {
    var k := |a| - 1;
    if i == k {
      ScaleBound(a[k] + 1, b[k], Weight(k));
      assert (a[k] + 1) * Weight(k) == a[k] * Weight(k) + Weight(k);
    } else {
      assert a[k] == a[i + 1..][k - i - 1] == b[i + 1..][k - i - 1] == b[k];
      assert a[..k][i + 1..] == a[i + 1..][..k - i - 1];
      assert b[..k][i + 1..] == b[i + 1..][..k - i - 1];
      ValueLess(a[..k], b[..k], i);
    }
  }

  /** A byte string of known length is determined by its value. */
  lemma {:induction false} BytesValueInjective(a: seq<byte>, b: seq<byte>)
    requires |a| == |b| && BytesValue(a) == BytesValue(b)
    ensures a == b
  {
    if a != [] {
      var k := |a| - 1;
      BytesValueInjective(a[..k], b[..k]);
      assert a == a[..k] + [a[k]] && b == b[..k] + [b[k]];
    }
  }

  /** (uint32_t)x. */
  function Lo(x: int): word { x % BASE }

  /** x >> 32, rounding down. */
  function Hi(x: int): int { x / BASE }

  /** Cutting x into a low word and a carry keeps its weighted value. */
  lemma CarrySplit(x: int, w: int, next: int)
    requires next == BASE * w
    ensures Lo(x) * w + Hi(x) * next == x * w
  {
    var q, r := x / BASE, x % BASE;
    assert x == q * BASE + r;
    assert (q * BASE + r) * w == q * (BASE * w) + r * w;
  }

  /** Four bytes, most significant first, as one word. */
  function Join(b0: int, b1: int, b2: int, b3: int): word
    requires 0 <= b0 < 256 && 0 <= b1 < 256 && 0 <= b2 < 256 && 0 <= b3 < 256
  {
    b0 * 0x100_0000 + b1 * 0x1_0000 + b2 * 0x100 + b3
  }

  lemma JoinSplit(t: word)
    ensures 0 <= t / 0x100_0000 < 256
    ensures Join(t / 0x100_0000, t / 0x1_0000 % 256, t / 0x100 % 256, t % 256) == t
  {
    var h := t / 0x100;
    var g := h / 0x100;
    assert g == t / 0x1_0000 && g / 0x100 == t / 0x100_0000;
    assert t == 0x100 * h + t % 256 && h == 0x100 * g + h % 256 && g == 0x100 * (g / 0x100) + g % 256;
  }

  /** The n low bytes of x, most significant first. */
  /** Four bytes joined are the number they spell. */
  lemma JoinIsValue(s: seq<byte>)
    requires |s| == 4
    ensures BytesValue(s) == Join(s[0], s[1], s[2], s[3])
  {
    var s3, s2, s1 := s[..3], s[..2], s[..1];
    assert s3[..2] == s2 && s2[..1] == s1 && s1[..0] == [];
    assert BytesValue(s1) == s[0] && BytesValue(s2) == BytesValue(s1) * 256 + s[1];
  }

  function BigEndian(x: nat, n: nat): (b: seq<byte>)
    ensures |b| == n
  {
    if n == 0 then [] else BigEndian(x / 256, n - 1) + [x % 256]
  }

  lemma {:induction false} BigEndianValue(s: seq<byte>)
    ensures BigEndian(BytesValue(s), |s|) == s
  {
    if s != [] {
      var k := |s| - 1;
      BigEndianValue(s[..k]);
      assert BytesValue(s) / 256 == BytesValue(s[..k]) && BytesValue(s) % 256 == s[k];
      assert s == s[..k] + [s[k]];
    }
  }

  /** n bytes hold every number below 256^n. */
  lemma {:induction false} ValueOfBigEndian(x: nat, n: nat)
    requires x < Power(256, n)
    ensures BytesValue(BigEndian(x, n)) == x
  {
    if n != 0 {
      ValueOfBigEndian(x / 256, n - 1);
      assert BigEndian(x, n)[..n - 1] == BigEndian(x / 256, n - 1);
    }
  }

  /** x >> 8*k. */
  function ShiftBytes(x: nat, k: nat): nat
  {
    if k == 0 then x else ShiftBytes(x, k - 1) / 256
  }

  /** Byte k from the end of a byte string is a shift and a mask of its value. */
  lemma {:induction false} ShiftedByte(s: seq<byte>, k: nat)
    requires k < |s|
    ensures ShiftBytes(BytesValue(s), k) % 256 == s[|s| - 1 - k]
    decreases |s|
  {
    var rest := s[..|s| - 1];
    assert BytesValue(s) / 256 == BytesValue(rest) && BytesValue(s) % 256 == s[|s| - 1];
    if k > 0 {
      ShiftedByte(rest, k - 1);
      ShiftLower(BytesValue(s), k);
    }
  }

  lemma {:induction false} ShiftLower(x: nat, k: nat)
    requires k > 0
    ensures ShiftBytes(x, k) == ShiftBytes(x / 256, k - 1)
  {
    if k > 1 {
      ShiftLower(x, k - 1);
    }
  }

  // ---------------------------------------------------------------- congruence

  function Times(k: int, m: int): int { k * m }

  /** x = y (mod m). */
  ghost predicate Congruent(x: int, y: int, m: int)
  {
    exists k :: x - y == Times(k, m)
  }

  lemma CongruentBy(x: int, y: int, m: int, k: int)
    requires x - y == k * m
    ensures Congruent(x, y, m)
  {
    assert x - y == Times(k, m);
  }

  lemma CongruentSymmetric(x: int, y: int, m: int)
    requires Congruent(x, y, m)
    ensures Congruent(y, x, m)
  {
    var k :| x - y == Times(k, m);
    CongruentBy(y, x, m, -k);
  }

  lemma CongruentTransitive(x: int, y: int, z: int, m: int)
    requires Congruent(x, y, m) && Congruent(y, z, m)
    ensures Congruent(x, z, m)
  {
    var j :| x - y == Times(j, m);
    var k :| y - z == Times(k, m);
    assert (j + k) * m == j * m + k * m;
    CongruentBy(x, z, m, j + k);
  }

  lemma CongruentAdd(x: int, y: int, z: int, m: int)
    requires Congruent(x, y, m)
    ensures Congruent(x + z, y + z, m)
  {
    var k :| x - y == Times(k, m);
    CongruentBy(x + z, y + z, m, k);
  }

  lemma CongruentScale(x: int, y: int, c: int, m: int)
    requires Congruent(x, y, m)
    ensures Congruent(c * x, c * y, m)
  {
    var k :| x - y == Times(k, m);
    assert c * x - c * y == c * (x - y) == c * (k * m) == (c * k) * m;
    CongruentBy(c * x, c * y, m, c * k);
  }

  lemma CongruentMul(x: int, y: int, u: int, v: int, m: int)
    requires Congruent(x, y, m) && Congruent(u, v, m)
    ensures Congruent(x * u, y * v, m)
  {
    CongruentScale(x, y, u, m);
    CongruentScale(u, v, y, m);
    CongruentTransitive(x * u, y * u, y * v, m);
  }

  /** Two congruent residues below m are equal. */
  lemma ResidueUnique(x: int, y: int, m: int)
    requires Congruent(x, y, m) && 0 <= x < m && 0 <= y < m
    ensures x == y
  {
    var k :| x - y == Times(k, m);
    assert k >= 1 ==> k * m >= m;
    assert k <= -1 ==> k * m <= -m;
  }

  lemma CongruentMod(x: int, m: int)
    requires m > 0
    ensures Congruent(x % m, x, m) && Congruent(x, x % m, m)
  {
    assert x == (x / m) * m + x % m;
    CongruentBy(x, x % m, m, x / m);
    CongruentSymmetric(x, x % m, m);
  }

  /** A factor with an inverse modulo m can be cancelled. */
  lemma CongruentCancel(c: int, inv: int, x: int, y: int, m: int)
    requires Congruent(c * inv, 1, m) && Congruent(c * x, c * y, m)
    ensures Congruent(x, y, m)
  {
    CongruentScale(c * x, c * y, inv, m);
    assert inv * (c * x) == x * (c * inv) && inv * (c * y) == y * (c * inv);
    CongruentScale(c * inv, 1, x, m);
    CongruentScale(c * inv, 1, y, m);
    assert x * 1 == x && y * 1 == y;
    CongruentSymmetric(x * (c * inv), x, m);
    CongruentTransitive(x, x * (c * inv), y * (c * inv), m);
    CongruentTransitive(x, y * (c * inv), y, m);
  }

  function Pow2(i: nat): (p: nat)
    ensures p >= 1
  {
    if i == 0 then 1 else 2 * Pow2(i - 1)
  }

  /** A 32-bit length as an int. */
  function Signed(n: nat): int { if n < 0x8000_0000 then n else n - BASE }

  function Zeros(n: nat): (z: seq<byte>)
    ensures |z| == n
  {
    seq(n, i => 0)
  }

  function Power(x: int, e: nat): (p: int)
    ensures x >= 0 ==> p >= 0
    ensures x >= 1 ==> p >= 1
  {
    if e == 0 then 1 else x * Power(x, e - 1)
  }

  lemma {:induction false} PowerAdd(x: int, d: nat, e: nat)
    ensures Power(x, d + e) == Power(x, d) * Power(x, e)
  {
    if d != 0 {
      PowerAdd(x, d - 1, e);
      assert Power(x, d + e) == x * Power(x, d - 1 + e);
      assert x * (Power(x, d - 1) * Power(x, e)) == (x * Power(x, d - 1)) * Power(x, e);
    }
  }
}
