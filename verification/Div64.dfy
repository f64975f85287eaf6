/**
lib/div64.c and include/div64.h: 64-bit by 32-bit division by shift and subtract,
with the 32-bit fast path of do_div.
 */
module Div64 {

  type u64 = x: int | 0 <= x < 0x1_0000_0000_0000_0000
  type u32 = x: int | 0 <= x < 0x1_0000_0000

  ghost predicate PowerOfTwo(d: nat)
  {
    d == 1 || (d > 1 && d % 2 == 0 && PowerOfTwo(d / 2))
  }

  /** What is left of n after taking res times base. */
  ghost predicate Taken(n: int, base: int, res: int, rem: int) { res * base + rem == n }

  ghost predicate Scaled(b: int, base: int, d: int) { b == base * d }

  lemma TakeMore(n: int, base: int, res: int, rem: int, b: int, d: int)
    requires Taken(n, base, res, rem) && Scaled(b, base, d)
    ensures Taken(n, base, res + d, rem - b)
  {
    assert (res + d) * base == res * base + base * d;
  }

  lemma QuotientFits(n: int, base: int, res: int, rem: int)
    requires Taken(n, base, res, rem) && base >= 1 && res >= 0 && rem >= 0
    ensures res <= n
  {
    assert res * base >= res;
  }

  lemma ScaleDouble(b: int, base: int, d: int)
    ensures Scaled(b, base, d) <==> Scaled(b + b, base, d + d)
  {
    assert base * (d + d) == 2 * (base * d);
  }

  lemma ScaleFits(b: int, base: int, d: int)
    requires Scaled(b, base, d) && base >= 1 && d >= 0
    ensures d <= b
  {
    assert base * d >= d;
  }

  /** q and r are the quotient and the remainder of n by base. */
  ghost predicate Divided(n: int, base: int, q: int, r: int) { Taken(n, base, q, r) && 0 <= r < base }

  /** The machine's division and remainder. */
  function DivMod(n: int, base: int): (p: (int, int))
    requires base > 0
    ensures Divided(n, base, p.0, p.1)
  {
    (n / base, n % base)
  }

  /** There is only one such pair. */
  lemma DivisionUnique(n: int, base: int, q: int, r: int, s: int, t: int)
    requires Divided(n, base, q, r) && Divided(n, base, s, t)
    ensures q == s && r == t
  {
    assert (s - q) * base == r - t;
    assert s - q >= 1 ==> (s - q) * base >= base;
    assert q - s >= 1 ==> (q - s) * base >= base;
  }

  lemma QuotientRange(n: int, base: int, q: int, r: int)
    requires Divided(n, base, q, r) && n >= 0
    ensures 0 <= q * base <= n && 0 <= q <= n
  {
    assert q <= -1 ==> q * base <= 0 - base;
    assert q >= 0 ==> q * base >= q;
  }

  lemma ReduceFirst(n: int, base: int, h: int)
    ensures Taken(n, base, h * 0x1_0000_0000, n - (h * base) * 0x1_0000_0000)
  {
    Reorder(h, base);
  }

  lemma Reorder(h: int, base: int)
    ensures (h * 0x1_0000_0000) * base == (h * base) * 0x1_0000_0000
  {
  }

  /** __div64_32: no sum or shift leaves 64 bits, even when b reaches 2^63. */
  method Div64By32(n: u64, base: u32) returns (res: u64, r: u32)
    requires base != 0
    ensures Divided(n, base, res, r)
  {
    hide Taken, Scaled;
    var rem: u64;
    res, rem := ReduceHigh(n, base);
    var b, d := DoubleLoop(base, rem);
    res, r := SubtractLoop(n, base, res, rem, b, d);
  }

  /** The high word is divided in one go. */
  method ReduceHigh(n: u64, base: u32) returns (res: u64, rem: u64)
    requires base != 0
    ensures Taken(n, base, res, rem)
  {
    res, rem := 0, n;
    var high: u32 := rem / 0x1_0000_0000;
    if high >= base {
      var p := DivMod(high, base);
      QuotientRange(high, base, p.0, p.1);
      ReduceFirst(n, base, p.0);
      hide Taken;
      high := p.0;
      res := high * 0x1_0000_0000;
      rem := rem - (high * base) * 0x1_0000_0000;
    }
  }

  /** The first loop: double b and d until b covers what is left or would overflow. */
  method DoubleLoop(base: u32, rem: u64) returns (b: u64, d: u64)
    requires base != 0
    ensures d >= 1 && PowerOfTwo(d) && Scaled(b, base, d) && rem < 2 * b
  {
    b, d := base, 1;
    assert Scaled(b, base, d);
    hide Scaled;
    while 0 < b < 0x8000_0000_0000_0000 && b < rem
      invariant b >= 1 && d >= 1 && PowerOfTwo(d) && Scaled(b, base, d)
      decreases rem - b
    {
      ScaleDouble(b, base, d);
      ScaleFits(b, base, d);
      b := b + b;
      d := d + d;
    }
  }

  /** The second loop: halve b and d down to nothing. */
  method SubtractLoop(ghost n: u64, base: u32, res0: u64, rem0: u64, b0: u64, d0: u64) returns (res: u64, r: u32)
    requires base >= 1 && d0 >= 1 && PowerOfTwo(d0) && Scaled(b0, base, d0) && rem0 < 2 * b0
    requires Taken(n, base, res0, rem0)
    ensures Taken(n, base, res, r) && r < base
  {
    hide Taken, Scaled;
    res := res0;
    var rem: u64, b: u64, d: u64 := rem0, b0, d0;
    var more := true;
    while more
      invariant Taken(n, base, res, rem)
      invariant more ==> d >= 1 && PowerOfTwo(d) && Scaled(b, base, d) && rem < 2 * b
      invariant !more ==> d == 0 && rem < base
      decreases d, more
    {
      if rem >= b {
        TakeMore(n, base, res, rem, b, d);
        QuotientFits(n, base, res + d, rem - b);
        rem := rem - b;
        res := res + d;
      }
      if d == 1 {
        ScaleOne(b, base);
      } else {
        HalveScale(b, base, d);
      }
      b := b / 2;
      d := d / 2;
      more := d != 0;
    }
    r := rem;
  }

  lemma ScaleOne(b: int, base: int)
    requires Scaled(b, base, 1)
    ensures b == base
  {
  }

  lemma HalveScale(b: int, base: int, d: int)
    requires Scaled(b, base, d) && d > 1 && PowerOfTwo(d)
    ensures d / 2 >= 1 && PowerOfTwo(d / 2) && Scaled(b / 2, base, d / 2) && b == 2 * (b / 2)
  {
    var h := d / 2;
    assert d == h + h;
    assert base * (h + h) == 2 * (base * h);
  }

  /** do_div: both of its paths. */
  method DoDiv(n: u64, base: u32) returns (q: u64, rem: u32)
    requires base != 0
    ensures Divided(n, base, q, rem)
  {
    if n / 0x1_0000_0000 == 0 {
      var p := DivMod(n, base);
      QuotientRange(n, base, p.0, p.1);
      rem := p.1;
      q := p.0;
    } else {
      q, rem := Div64By32(n, base);
    }
  }
}
