/**
images/sign.py: making the key record that secure_verify/rsa.c works with. The
extended Euclidean algorithm, the inverse modulo 2^32, and the words of the
modulus and of R^2 mod n.
 */
module SignKey {
  import opened BigNum
  import opened Montgomery
  import Rsa

  /** g divides a. */
  ghost predicate Divides(g: int, a: int) { exists k :: a == Times(k, g) }

  lemma DividesBy(g: int, a: int, k: int)
    requires a == k * g
    ensures Divides(g, a)
  {
    assert a == Times(k, g);
  }

  lemma DividesNegated(g: int, a: int)
    requires Divides(g, a)
    ensures Divides(g, 0 - a)
  {
    var k :| a == Times(k, g);
    DividesBy(g, 0 - a, 0 - k);
  }

  function Abs(x: int): nat { if x < 0 then -x else x }

  // ------------------------------------------------------------ extended_gcd

  /** Both Bezout rows, and both inputs as combinations of the current remainders. */
  ghost predicate Rows(a: int, b: int, last: int, rem: int, lastx: int, x: int, lasty: int, y: int,
                       p: int, q: int, r: int, s: int)
  {
    && last == a * lastx + b * lasty && rem == a * x + b * y
    && a == p * last + q * rem && b == r * last + s * rem
  }

  /** last - quotient * current, and the coefficients that undo it. */
  function Next(last: int, k: int, current: int): int { last - k * current }
  function Back(p: int, k: int, q: int): int { p * k + q }

  lemma RowsStep(a: int, b: int, last: int, rem: int, lastx: int, x: int, lasty: int, y: int,
                 p: int, q: int, r: int, s: int, k: int, next: int)
    requires Rows(a, b, last, rem, lastx, x, lasty, y, p, q, r, s) && next == Next(last, k, rem)
    ensures Rows(a, b, rem, next, x, Next(lastx, k, x), y, Next(lasty, k, y), Back(p, k, q), p, Back(r, k, s), r)
  {
    Combine(a, b, lastx, x, lasty, y, k);
    Regroup(p, q, rem, next, k);
    Regroup(r, s, rem, next, k);
  }

  lemma Combine(a: int, b: int, lx: int, x: int, ly: int, y: int, k: int)
    ensures a * (lx - k * x) + b * (ly - k * y) == (a * lx + b * ly) - k * (a * x + b * y)
  {
    assert a * (k * x) == k * (a * x) && b * (k * y) == k * (b * y);
    assert a * (lx - k * x) == a * lx - a * (k * x);
    assert b * (ly - k * y) == b * ly - b * (k * y);
    assert k * (a * x + b * y) == k * (a * x) + k * (b * y);
  }

  lemma Regroup(p: int, q: int, rem: int, next: int, k: int)
    ensures p * (next + k * rem) + q * rem == (p * k + q) * rem + p * next
  {
    assert p * (next + k * rem) == p * next + (p * k) * rem;
    assert (p * k + q) * rem == (p * k) * rem + q * rem;
  }

  /** divmod. */
  function DivMod(x: int, d: int): (r: (int, int))
    requires d > 0
    ensures r.1 == Next(x, r.0, d) && 0 <= r.1 < d
  {
    (x / d, x % d)
  }

  /** extended_gcd: the greatest common divisor and coefficients that give it. */
  method ExtendedGcd(aa: int, bb: int) returns (g: int, x: int, y: int)
    ensures g >= 0 && g == aa * x + bb * y && Divides(g, aa) && Divides(g, bb)
  {
    var last, rem := Abs(aa), Abs(bb);
    var cx, lastx, cy, lasty := 0, 1, 1, 0;
    ghost var p, q, r, s := 1, 0, 0, 1;
    assert Rows(Abs(aa), Abs(bb), last, rem, lastx, cx, lasty, cy, p, q, r, s);
    hide Rows, Next, Back, DivMod;
    while rem != 0
      invariant last >= 0 && rem >= 0
      invariant Rows(Abs(aa), Abs(bb), last, rem, lastx, cx, lasty, cy, p, q, r, s)
      decreases rem
    {
      var (k, next) := DivMod(last, rem);
      RowsStep(Abs(aa), Abs(bb), last, rem, lastx, cx, lasty, cy, p, q, r, s, k, next);
      p, q, r, s := Back(p, k, q), p, Back(r, k, s), r;
      last, rem := rem, next;
      cx, lastx := Next(lastx, k, cx), cx;
      cy, lasty := Next(lasty, k, cy), cy;
    }
    GcdSigns(aa, bb, last, lastx, lasty, cx, cy, p, q, r, s);
    g, x, y := last, if aa < 0 then -lastx else lastx, if bb < 0 then -lasty else lasty;
  }

  lemma GcdSigns(aa: int, bb: int, g: int, lastx: int, lasty: int, cx: int, cy: int, p: int, q: int, r: int, s: int)
    requires Rows(Abs(aa), Abs(bb), g, 0, lastx, cx, lasty, cy, p, q, r, s)
    ensures Divides(g, aa) && Divides(g, bb)
    ensures g == aa * (if aa < 0 then -lastx else lastx) + bb * (if bb < 0 then -lasty else lasty)
  {
    DividesBy(g, Abs(aa), p);
    DividesBy(g, Abs(bb), r);
    hide Divides;
    DividesNegated(g, Abs(aa));
    DividesNegated(g, Abs(bb));
  }

  // ------------------------------------------------------------ modinv

  datatype Result = Ok(value: nat) | ValueError

  /** modinv: the inverse, or ValueError exactly when there is none. */
  method ModInv(a: int, m: int) returns (r: Result)
    requires m > 0
    ensures r.Ok? ==> r.value < m && Congruent(a * r.value, 1, m)
    ensures r.ValueError? ==> forall x :: !Congruent(Times(a, x), 1, m)
    ensures r.ValueError? ==> exists g :: g >= 0 && g != 1 && Divides(g, a) && Divides(g, m)
  {
    var g, x, y := ExtendedGcd(a, m);
    if g != 1 {
      NoInverse(a, m, g);
      return ValueError;
    }
    InverseFound(a, m, x, y);
    return Ok(x % m);
  }

  lemma InverseFound(a: int, m: int, x: int, y: int)
    requires m > 0 && 1 == a * x + m * y
    ensures Congruent(a * (x % m), 1, m)
  {
    var q := x / m;
    assert x == q * m + x % m;
    InverseArithmetic(a, m, q, x % m, y);
    CongruentBy(a * (x % m), 1, m, 0 - y - a * q);
  }

  lemma InverseArithmetic(a: int, m: int, q: int, r: int, y: int)
    requires 1 == a * (q * m + r) + m * y
    ensures a * r - 1 == (0 - y - a * q) * m
  {
    assert a * (q * m + r) == (a * q) * m + a * r;
    assert (0 - y - a * q) * m == 0 - y * m - (a * q) * m;
  }

  lemma NoInverse(a: int, m: int, g: int)
    requires m > 0 && g >= 0 && g != 1 && Divides(g, a) && Divides(g, m)
    ensures forall x :: !Congruent(Times(a, x), 1, m)
  {
    var j :| a == Times(j, g);
    var k :| m == Times(k, g);
    forall x
      ensures !Congruent(Times(a, x), 1, m)
    {
      if Congruent(Times(a, x), 1, m) {
        var t :| Times(a, x) - 1 == Times(t, m);
        CommonFactor(j, k, g, x, t);
        UnitFactor(j * x - t * k, g);
        assert false;
      }
    }
  }

  lemma CommonFactor(j: int, k: int, g: int, x: int, t: int)
    requires (j * g) * x - 1 == t * (k * g)
    ensures (j * x - t * k) * g == 1
  {
    assert (j * g) * x == (j * x) * g && t * (k * g) == (t * k) * g;
    assert (j * x - t * k) * g == (j * x) * g - (t * k) * g;
  }

  lemma UnitFactor(u: int, g: int)
    requires u * g == 1 && g >= 0
    ensures g == 1
  {
    assert u >= 1 ==> u * g >= g;
    assert u <= 0 ==> u * g <= 0;
  }

  // ------------------------------------------------------------ powers of two

  lemma {:induction false} Pow2Add(a: nat, b: nat)
    ensures Pow2(a + b) == Pow2(a) * Pow2(b)
  {
    if a != 0 {
      Pow2Add(a - 1, b);
      assert 2 * (Pow2(a - 1) * Pow2(b)) == (2 * Pow2(a - 1)) * Pow2(b);
    }
  }

  lemma Pow2Word()
    ensures Pow2(32) == BASE
  {
    assert Pow2(4) == 16;
    assert Pow2(8) == 256;
    Pow2Add(8, 8);
    Pow2Add(16, 16);
  }

  lemma {:induction false} Pow2Weight(k: nat)
    ensures Pow2(32 * k) == Weight(k)
  {
    if k != 0 {
      Pow2Weight(k - 1);
      Pow2Add(32, 32 * (k - 1));
      Pow2Word();
    }
  }

  /** Python's bit_length. */
  function BitLength(n: nat): nat
  {
    if n == 0 then 0 else 1 + BitLength(n / 2)
  }

  lemma {:induction false} BitLengthBounds(n: nat)
    requires n > 0
    ensures BitLength(n) > 0 && Pow2(BitLength(n) - 1) <= n < Pow2(BitLength(n))
  {
    if n > 1 {
      BitLengthBounds(n / 2);
    }
  }

  /** An odd number has no factor but 1 in common with a power of two. */
  lemma {:induction false} OddUnit(g: int, n: nat, k: int)
    requires g >= 0 && g % 2 == 1 && Pow2(n) == k * g
    ensures g == 1
    decreases n
  {
    if n == 0 {
      UnitFactor(k, g);
    } else {
      EvenFactor(k, g);
      HalfFactor(k, g, Pow2(n - 1));
      OddUnit(g, n - 1, k / 2);
    }
  }

  lemma EvenFactor(k: int, g: int)
    requires g % 2 == 1 && (k * g) % 2 == 0
    ensures k % 2 == 0
  {
    var h := g / 2;
    assert k * g == 2 * (k * h) + k by { assert g == 2 * h + 1; assert k * (2 * h + 1) == 2 * (k * h) + k; }
  }

  lemma OddFactor(k: int, g: int)
    requires (k * g) % 2 == 1
    ensures g % 2 == 1
  {
    var h, b := g / 2, g % 2;
    assert k * (2 * h + b) == 2 * (k * h) + k * b;
  }

  lemma HalfFactor(k: int, g: int, half: int)
    requires k % 2 == 0 && k * g == 2 * half
    ensures (k / 2) * g == half
  {
    var h := k / 2;
    assert k == 2 * h;
    assert (2 * h) * g == 2 * (h * g);
  }

  lemma OddCoprime(n: nat, g: int)
    requires n % 2 == 1 && g >= 0 && Divides(g, n) && Divides(g, BASE)
    ensures g == 1
  {
    var j :| n == Times(j, g);
    var k :| BASE == Times(k, g);
    OddFactor(j, g);
    Pow2Word();
    OddUnit(g, 32, k);
  }

  // ------------------------------------------------------------ dump_key

  /** The k low words of x. */
  function LowWords(x: nat, k: nat): (w: seq<word>)
    ensures |w| == k
  {
    if k == 0 then [] else [x % BASE] + LowWords(x / BASE, k - 1)
  }

  lemma {:induction false} LowWordsValue(x: nat, k: nat)
    requires x < Weight(k)
    ensures Value(LowWords(x, k)) == x
  {
    if k != 0 {
      LowWordsValue(x / BASE, k - 1);
      ValueHead(LowWords(x, k));
      assert LowWords(x, k)[1..] == LowWords(x / BASE, k - 1);
    }
  }

  /** The loops that write out N and RR. */
  method DumpWords(x: nat, k: nat) returns (w: seq<word>)
    ensures w == LowWords(x, k)
  {
    w := [];
    var rest: nat := x;
    var i := 0;
    while i < k
      invariant 0 <= i <= k && LowWords(x, k) == w + LowWords(rest, k - i)
    {
      w := w + [rest % BASE];
      rest := rest / BASE;
      i := i + 1;
    }
  }

  /** dump_key: the record for modulus n and exponent e, or ValueError when n is even. */
  method DumpKey(n: nat, e: word) returns (ok: bool, key: PublicKey)
    ensures ok <==> n % 2 == 1
    ensures ok ==> (MadeFor(key, n, e) <==> BitLength(n) % 32 == 0)
    ensures ok ==> (key.Modulus() == n <==> BitLength(n) % 32 == 0)
  {
    var nwords := BitLength(n) / 32;
    var inv := ModInv(n, BASE);
    key := PublicKey(0, [], [], e);
    if inv.ValueError? {
      NotOdd(n);
      return false, key;
    }
    IsOdd(n, inv.value);
    var r := Pow2(BitLength(n));
    var rr := (r * r) % n;
    var nw := DumpWords(n, nwords);
    var rw := DumpWords(rr, nwords);
    key := PublicKey(BASE - inv.value, nw, rw, e);
    if BitLength(n) % 32 == 0 {
      KeyIsMade(n, e, inv.value, key);
    } else {
      TopBitsLost(n);
    }
    return true, key;
  }

  /** A length that is no multiple of 32 does not fit its words. */
  lemma TopBitsLost(n: nat)
    requires n > 0 && BitLength(n) % 32 != 0
    ensures Weight(BitLength(n) / 32) <= n
  {
    var k := BitLength(n) / 32;
    BitLengthBounds(n);
    Pow2Weight(k);
    Pow2Grows(32 * k, BitLength(n) - 1);
  }

  lemma {:induction false} Pow2Grows(i: nat, j: nat)
    requires i <= j
    ensures Pow2(i) <= Pow2(j)
    decreases j
  {
    if i < j {
      Pow2Grows(i, j - 1);
    }
  }

  /** 2^32 + 1 has 33 bits: one word is written, and it is 1. */
  lemma LostTopBit()
    ensures BitLength(0x1_0000_0001) == 33 && LowWords(0x1_0000_0001, 1) == [1] && Value([1]) == 1
  {
    assert BitLength(0x1) == 1;
    assert BitLength(0x10) == 5;
    assert BitLength(0x100) == 9;
    assert BitLength(0x1000) == 13;
    assert BitLength(0x1_0000) == 17;
    assert BitLength(0x10_0000) == 21;
    assert BitLength(0x100_0000) == 25;
    assert BitLength(0x1000_0000) == 29;
    assert BitLength(0x8000_0000) == 32;
    hide BitLength;
    HalfOf();
    OneWord();
  }

  lemma HalfOf()
    ensures BitLength(0x1_0000_0001) == 1 + BitLength(0x8000_0000)
  {
  }

  lemma OneWord()
    ensures LowWords(0x1_0000_0001, 1) == [1] && Value([1]) == 1
  {
    assert [1][..0] == [];
  }

  /** What modpow needs of a key: it stands for n, its n0inv and rr are right, and n has its top bit set. */
  ghost predicate MadeFor(key: PublicKey, n: nat, e: word)
  {
    && key.exponent == e && key.Modulus() == n && |key.n| == BitLength(n) / 32
    && Rsa.Sound(key) && key.R() <= 2 * n
  }

  lemma NotOdd(n: nat)
    requires exists g :: g >= 0 && g != 1 && Divides(g, n) && Divides(g, BASE)
    ensures n % 2 == 0
  {
    var g :| g >= 0 && g != 1 && Divides(g, n) && Divides(g, BASE);
    if n % 2 == 1 {
      OddCoprime(n, g);
    }
  }

  lemma IsOdd(n: nat, inv: nat)
    requires Congruent(n * inv, 1, BASE)
    ensures n % 2 == 1 && inv >= 1
  {
    var k :| n * inv - 1 == Times(k, BASE);
    assert n * inv == 2 * (k * 0x8000_0000) + 1;
    assert n * inv == inv * n;
    OddFactor(inv, n);
  }

  lemma KeyIsMade(n: nat, e: word, inv: nat, key: PublicKey)
    requires n % 2 == 1 && BitLength(n) % 32 == 0 && 1 <= inv < BASE && Congruent(n * inv, 1, BASE)
    requires var r := Pow2(BitLength(n));
             key == PublicKey(BASE - inv, LowWords(n, BitLength(n) / 32), LowWords((r * r) % n, BitLength(n) / 32), e)
    ensures MadeFor(key, n, e)
  {
    hide Congruent;
    var k := BitLength(n) / 32;
    var r := Pow2(BitLength(n));
    BitLengthBounds(n);
    Pow2Weight(k);
    assert Pow2(BitLength(n)) == 2 * Pow2(BitLength(n) - 1);
    LowWordsValue(n, k);
    LowWordsValue((r * r) % n, k);
    CongruentMod(r * r, n);
    assert key.n[0] == n % BASE;
    NegatedInverse(n, inv);
  }

  lemma NegatedInverse(n: nat, inv: nat)
    requires Congruent(n * inv, 1, BASE)
    ensures ((BASE - inv) * (n % BASE) + 1) % BASE == 0
  {
    var t :| n * inv - 1 == Times(t, BASE);
    var q, n0 := n / BASE, n % BASE;
    assert n == q * BASE + n0;
    calc {
      (BASE - inv) * n0 + 1;
      BASE * n0 - inv * n0 + 1;
      { assert inv * (q * BASE + n0) == (inv * q) * BASE + inv * n0; }
      BASE * n0 - (n * inv - (inv * q) * BASE) + 1;
      BASE * n0 + (inv * q) * BASE - t * BASE;
      (n0 + inv * q - t) * BASE;
    }
  }
}
