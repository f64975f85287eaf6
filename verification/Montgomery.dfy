/**
secure_verify/rsa.c: Montgomery multiplication on word arrays. The accumulator
is never fully reduced: each step keeps it below R = 2^(32*len), not below the
modulus.
 */
module Montgomery {
  import opened BigNum

  /** RSAPublicKey (secure_verify/rsa.h); n and rr hold `len` words each. */
  datatype PublicKey = PublicKey(n0inv: word, n: seq<word>, rr: seq<word>, exponent: int)
  {
    function Modulus(): nat { Value(n) }
    function R(): nat { Weight(|n|) }

    /** The arrays agree in length. */
    predicate Shaped() { 1 <= |n| == |rr| }

    /** n0inv = -1/n[0] mod 2^32. */
    ghost predicate WellFormed()
    {
      Shaped() && (n0inv * n[0] + 1) % BASE == 0
    }

    /** rr = R^2 modulo n, up to a multiple of n. */
    ghost predicate HasRR()
    {
      Congruent(Value(rr), R() * R(), Modulus())
    }
  }

  // ------------------------------------------------------------ subtract, compare

  /** The first i words of was - n, with a borrow of 0 or -1 outstanding. */
  ghost predicate Borrowed(was: seq<word>, n: seq<word>, done: seq<word>, carry: int, i: nat)
  {
    && i <= |was| == |n| && |done| == i && -1 <= carry <= 0
    && Value(done) + carry * Weight(i) == Value(was[..i]) - Value(n[..i])
  }

  lemma BorrowStep(was: seq<word>, n: seq<word>, done: seq<word>, carry: int, i: nat)
    requires Borrowed(was, n, done, carry, i) && i < |n|
    ensures var x := carry + was[i] - n[i];
            Borrowed(was, n, done + [Lo(x)], Hi(x), i + 1)
  {
    var x := carry + was[i] - n[i];
    ValueStep(was, i);
    ValueStep(n, i);
    var out := done + [Lo(x)];
    assert out[..i] == done;
    CarrySplit(x, Weight(i), Weight(i + 1));
    DistributeSub(carry, was[i], n[i], Weight(i));
  }

  lemma Distribute(x: int, y: int, z: int, w: int)
    ensures (x + y + z) * w == x * w + y * w + z * w
  {
  }

  lemma DistributeSub(x: int, y: int, z: int, w: int)
    ensures (x + y - z) * w == x * w + y * w - z * w
  {
  }

  lemma BorrowCases(done: int, carry: int, v: int, n: int, w: int)
    requires -1 <= carry <= 0 && done + carry * w == v - n && 0 <= done < w && 0 <= v < w && 0 <= n
    ensures done == if v >= n then v - n else v - n + w
  {
    assert carry * w == if carry == 0 then 0 else -w;
  }

  lemma BorrowEnd(was: seq<word>, n: seq<word>, done: seq<word>, carry: int)
    requires Borrowed(was, n, done, carry, |n|)
    ensures Value(done) == if Value(was) >= Value(n) then Value(was) - Value(n)
                           else Value(was) - Value(n) + Weight(|n|)
  {
    assert was[..|n|] == was && n[..|n|] == n;
    BorrowCases(Value(done), carry, Value(was), Value(n), Weight(|n|));
  }

  /** subM: a -= n, dropping the final borrow. */
  method SubM(key: PublicKey, a: array<word>)
    requires a.Length == |key.n|
    modifies a
    ensures Value(a[..]) == if old(Value(a[..])) >= key.Modulus()
                            then old(Value(a[..])) - key.Modulus()
                            else old(Value(a[..])) - key.Modulus() + key.R()
  {
    ghost var was := a[..];
    var carry: int := 0;
    var i := 0;
    while i < |key.n|
      invariant 0 <= i <= |key.n|
      invariant a[i..] == was[i..]
      invariant Borrowed(was, key.n, a[..i], carry, i)
    {
      hide *;
      assert a[i] == a[i..][0] == was[i];
      BorrowStep(was, key.n, a[..i], carry, i);
      ghost var done := a[..i];
      carry := carry + a[i] - key.n[i];
      a[i] := Lo(carry);
      assert a[..i + 1] == done + [Lo(carry)];
      carry := Hi(carry);
      assert a[i + 1..] == was[i..][1..];
      i := i + 1;
    }
    assert a[..i] == a[..];
    BorrowEnd(was, key.n, a[..], carry);
  }

  /** geM: compares from the most significant word down. */
  method GeM(key: PublicKey, a: array<word>) returns (ge: bool)
    requires a.Length == |key.n|
    ensures ge <==> Value(a[..]) >= key.Modulus()
  {
    var i := |key.n|;
    while i != 0
      invariant 0 <= i <= |key.n|
      invariant a[i..] == key.n[i..]
    {
      i := i - 1;
      assert a[..][i + 1..] == a[i + 1..];
      if a[i] < key.n[i] {
        ValueLess(a[..], key.n, i);
        return false;
      }
      if a[i] > key.n[i] {
        ValueLess(key.n, a[..], i);
        return true;
      }
      assert a[i..] == [a[i]] + a[i + 1..];
      assert key.n[i..] == [key.n[i]] + key.n[i + 1..];
    }
    assert a[..] == a[0..] && key.n[0..] == key.n;
    return true;
  }

  // ------------------------------------------------------------ one word step

  /** The multiple of n that is added; it depends on the low words alone. */
  function MultiplierOf(key: PublicKey, c: nat, a: word, b: nat): word
  {
    Multiplier(Lo(c % BASE + a * (b % BASE)), key.n0inv)
  }

  function Total(c: nat, a: nat, b: nat, d: nat, n: nat): nat { c + a * b + d * n }

  /** One step on numbers: (c + a*b + d0*n) / 2^32, less n when that reaches R. */
  function Step(key: PublicKey, c: nat, a: word, b: nat): nat
    requires key.Shaped()
  {
    var t := Total(c, a, b, MultiplierOf(key, c, a, b), key.Modulus()) / BASE;
    if t < key.R() then t else t - key.Modulus()
  }

  /** One step of the accumulator: 2^32 * after = before + a * b (mod n). */
  ghost predicate Advanced(key: PublicKey, before: int, a: word, b: int, after: int)
  {
    Congruent(BASE * after, before + a * b, key.Modulus())
  }

  type dword = x: int | 0 <= x < 0x1_0000_0000_0000_0000

  /** One column sum: the carry of the previous column, a product and a word.
      It never exceeds 64 bits. */
  function Column(previous: dword, x: word, y: word, z: word): (sum: dword)
  {
    ScaleBound(x, BASE - 1, y);
    Hi(previous) + x * y + z
  }

  /** d0: the multiple of n that clears the low word. */
  function Multiplier(lo: word, n0inv: word): word
  {
    (lo * n0inv) % BASE
  }

  /** The loop state of montMulAdd before column i: two running columns, the words already
      written and the low word that was dropped, against the part of c + a*b + d0*n consumed. */
  ghost predicate Columns(key: PublicKey, c: seq<word>, a: word, b: seq<word>, d0: word, drop: word,
                          written: seq<word>, colA: dword, colB: dword, i: nat)
  {
    && 1 <= i <= |key.n| == |b| == |c| && |written| == i - 1
    && BASE * Value(written) + (Hi(colA) + Hi(colB)) * Weight(i) + drop
       == Value(c[..i]) + a * Value(b[..i]) + d0 * Value(key.n[..i])
  }

  /** n0inv makes the first column divisible by 2^32. */
  lemma LowWordCancels(lo: int, n0inv: int, n0: int)
    requires (n0inv * n0 + 1) % BASE == 0
    ensures ((lo * n0inv) % BASE * n0 + lo) % BASE == 0
  {
    var q, d0 := (lo * n0inv) / BASE, (lo * n0inv) % BASE;
    var t := (n0inv * n0 + 1) / BASE;
    assert lo * n0inv == q * BASE + d0;
    assert n0inv * n0 + 1 == t * BASE;
    calc {
      d0 * n0 + lo;
      (lo * n0inv - q * BASE) * n0 + lo;
      { assert (lo * n0inv) * n0 == lo * (n0inv * n0); }
      lo * (n0inv * n0 + 1) - (q * n0) * BASE;
      { assert lo * (t * BASE) == (lo * t) * BASE; }
      (lo * t - q * n0) * BASE;
    }
  }

  lemma FirstColumn(key: PublicKey, c: seq<word>, a: word, b: seq<word>)
    requires key.Shaped() && |c| == |b| == |key.n|
    ensures var colA: dword := Column(0, a, b[0], c[0]);
            var d0 := Multiplier(Lo(colA), key.n0inv);
            var colB: dword := Column(0, d0, key.n[0], Lo(colA));
            Columns(key, c, a, b, d0, Lo(colB), [], colA, colB, 1) && (key.WellFormed() ==> Lo(colB) == 0)
  {
    var colA: dword := Column(0, a, b[0], c[0]);
    var lo := Lo(colA);
    var d0 := Multiplier(lo, key.n0inv);
    var colB: dword := Column(0, d0, key.n[0], lo);
    if key.WellFormed() {
      LowWordCancels(lo, key.n0inv, key.n[0]);
    }
    ValueFirst(c);
    ValueFirst(b);
    ValueFirst(key.n);
    assert BASE * Hi(colA) + BASE * Hi(colB) + Lo(colB) == colA - lo + colB;
  }

  lemma ValueFirst(s: seq<word>)
    requires s != []
    ensures Value(s[..1]) == s[0]
  {
    ValueStep(s, 0);
  }

  lemma NextColumn(key: PublicKey, c: seq<word>, a: word, b: seq<word>, d0: word, drop: word,
                   written: seq<word>, colA: dword, colB: dword, i: nat)
    requires Columns(key, c, a, b, d0, drop, written, colA, colB, i) && i < |key.n|
    ensures var nextA := Column(colA, a, b[i], c[i]);
            var nextB := Column(colB, d0, key.n[i], Lo(nextA));
            Columns(key, c, a, b, d0, drop, written + [Lo(nextB)], nextA, nextB, i + 1)
  {
    hide *;
    ColumnsAt(key, c, a, b, d0, drop, written, colA, colB, i);
    ColumnArithmetic(a, b[i], c[i], d0, key.n[i], colA, colB,
                     Value(written), Value(c[..i]) - drop, Value(b[..i]), Value(key.n[..i]),
                     Weight(i - 1), Weight(i), Weight(i + 1));
    var nextA := Column(colA, a, b[i], c[i]);
    var nextB := Column(colB, d0, key.n[i], Lo(nextA));
    ValueStep(c, i);
    ValueStep(b, i);
    ValueStep(key.n, i);
    ValueAppend(written, Lo(nextB));
    ColumnsFrom(key, c, a, b, d0, drop, written + [Lo(nextB)], nextA, nextB, i + 1);
  }

  lemma ValueAppend(s: seq<word>, x: word)
    ensures Value(s + [x]) == Value(s) + x * Weight(|s|)
  {
    assert (s + [x])[..|s|] == s;
  }

  lemma ColumnsAt(key: PublicKey, c: seq<word>, a: word, b: seq<word>, d0: word, drop: word,
                  written: seq<word>, colA: dword, colB: dword, i: nat)
    requires Columns(key, c, a, b, d0, drop, written, colA, colB, i)
    ensures 1 <= i <= |key.n| == |b| == |c| && |written| == i - 1
    ensures Weight(i) == BASE * Weight(i - 1) && Weight(i + 1) == BASE * Weight(i)
    ensures BASE * Value(written) + (Hi(colA) + Hi(colB)) * Weight(i) + drop
         == Value(c[..i]) + a * Value(b[..i]) + d0 * Value(key.n[..i])
  {
  }

  lemma ColumnsFrom(key: PublicKey, c: seq<word>, a: word, b: seq<word>, d0: word, drop: word,
                    written: seq<word>, colA: dword, colB: dword, i: nat)
    requires 1 <= i <= |key.n| == |b| == |c| && |written| == i - 1
    requires BASE * Value(written) + (Hi(colA) + Hi(colB)) * Weight(i) + drop
          == Value(c[..i]) + a * Value(b[..i]) + d0 * Value(key.n[..i])
    ensures Columns(key, c, a, b, d0, drop, written, colA, colB, i)
  {
  }

  /** The column identity on plain integers: v, w and u are consecutive weights. */
  lemma ColumnArithmetic(a: word, b: word, c: word, d: word, n: word, colA: dword, colB: dword,
                         out: int, vc: int, vb: int, vn: int, v: int, w: int, u: int)
    requires w == BASE * v && u == BASE * w
    requires BASE * out + (Hi(colA) + Hi(colB)) * w == vc + a * vb + d * vn
    ensures var na := Column(colA, a, b, c);
            var nb := Column(colB, d, n, Lo(na));
            BASE * (out + Lo(nb) * v) + (Hi(na) + Hi(nb)) * u
            == (vc + c * w) + a * (vb + b * w) + d * (vn + n * w)
  {
    var ca, cb := Hi(colA), Hi(colB);
    var na := ca + a * b + c;
    var nb := cb + d * n + Lo(na);
    CarrySplit(na, w, u);
    CarrySplit(nb, w, u);
    Distribute(ca, a * b, c, w);
    Distribute(cb, d * n, Lo(na), w);
    ShiftOut(out, Lo(nb), v, w);
    SpreadSum(Hi(na), Hi(nb), u);
    SpreadSum(ca, cb, w);
    SpreadProduct(a, vb, b, w);
    SpreadProduct(d, vn, n, w);
  }

  lemma ShiftOut(out: int, r: int, v: int, w: int)
    requires w == BASE * v
    ensures BASE * (out + r * v) == BASE * out + r * w
  {
  }

  lemma SpreadSum(x: int, y: int, w: int)
    ensures (x + y) * w == x * w + y * w
  {
  }

  lemma SpreadProduct(a: int, rest: int, x: int, w: int)
    ensures a * (rest + x * w) == a * rest + (a * x) * w
  {
  }

  lemma TopArithmetic(low: int, top: int, v: int, w: int)
    requires w == BASE * v
    ensures BASE * (low + Lo(top) * v + Hi(top) * w) == BASE * low + top * w
  {
    CarrySplit(top, v, w);
    ShiftOut(low, top, v, w);
  }

  /** c + a*b + d0*n is below 2^32 * (R + n), so one subtraction is enough. */
  lemma OneSubtractionSuffices(c: nat, a: word, b: nat, d0: word, n: nat, r: nat, t: nat)
    requires c < r && b < r && n < r && BASE * t <= c + a * b + d0 * n
    ensures t < r + n
  {
    ScaleBound(a, BASE - 1, b);
    ScaleBound(d0, BASE - 1, n);
  }

  lemma QuotientCongruent(c: int, a: int, b: int, d0: int, n: int, t: int)
    requires BASE * t == c + a * b + d0 * n
    ensures Congruent(BASE * t, c + a * b, n)
    ensures Congruent(BASE * (t - n), c + a * b, n)
  {
    CongruentBy(BASE * t, c + a * b, n, d0);
    DistributeSub(d0, 0, BASE, n);
    CongruentBy(BASE * (t - n), c + a * b, n, d0 - BASE);
  }

  lemma ValueLow(s: seq<word>)
    requires s != []
    ensures Value(s) % BASE == s[0]
  {
    ValueHead(s);
  }

  /** After the last column the words and the carry out together are the quotient. */
  lemma LastColumn(key: PublicKey, was: seq<word>, a: word, b: seq<word>, d0: word, drop: word,
                   low: seq<word>, colA: dword, colB: dword)
    requires Columns(key, was, a, b, d0, drop, low, colA, colB, |key.n|)
    ensures var top := Hi(colA) + Hi(colB);
            var v := Value(low + [Lo(top)]);
            var t := (Value(was) + a * Value(b) + d0 * key.Modulus()) / BASE;
            if Hi(top) == 0 then t == v < key.R() else t == v + key.R() && v < key.Modulus()
  {
    var k := |key.n| - 1;
    var top := Hi(colA) + Hi(colB);
    var v := Value(low + [Lo(top)]);
    assert was[..|key.n|] == was && b[..|key.n|] == b && key.n[..|key.n|] == key.n;
    assert (low + [Lo(top)])[..k] == low;
    TopArithmetic(Value(low), top, Weight(k), Weight(k + 1));
    assert 0 <= Hi(top) <= 1;
    var t := v + (if Hi(top) == 0 then 0 else key.R());
    assert Hi(top) * Weight(k + 1) == t - v;
    assert BASE * t + drop == Value(was) + a * Value(b) + d0 * key.Modulus();
    OneSubtractionSuffices(Value(was), a, Value(b), d0, key.Modulus(), key.R(), t);
  }

  /** The multiplier depends on the low words alone. */
  lemma SameMultiplier(key: PublicKey, c: seq<word>, a: word, b: seq<word>)
    requires |c| == |b| == |key.n| && key.Shaped()
    ensures Multiplier(Lo(Column(0, a, b[0], c[0])), key.n0inv) == MultiplierOf(key, Value(c), a, Value(b))
  {
    ValueLow(c);
    ValueLow(b);
  }

  /** montMulAdd computes the step, whatever the key. */
  method MontMulAdd(key: PublicKey, c: array<word>, a: word, b: seq<word>)
    requires key.Shaped() && c.Length == |b| == |key.n|
    modifies c
    ensures Value(c[..]) == Step(key, old(Value(c[..])), a, Value(b))
  {
    assert |key.n| >= 1;
    ghost var was := c[..];
    hide *;
    var colA: dword := Column(0, a, b[0], c[0]);
    var d0 := Multiplier(Lo(colA), key.n0inv);
    var colB: dword := Column(0, d0, key.n[0], Lo(colA));
    FirstColumn(key, was, a, b);
    ghost var drop := Lo(colB);
    SameMultiplier(key, was, a, b);
    var i := 1;
    assert c[..i - 1] == [];
    while i < |key.n|
      invariant 1 <= i <= |key.n|
      invariant c[i..] == was[i..]
      invariant Columns(key, was, a, b, d0, drop, c[..i - 1], colA, colB, i)
    {
      assert c[i] == c[i..][0] == was[i];
      NextColumn(key, was, a, b, d0, drop, c[..i - 1], colA, colB, i);
      ghost var written := c[..i - 1];
      colA := Column(colA, a, b[i], c[i]);
      colB := Column(colB, d0, key.n[i], Lo(colA));
      c[i - 1] := Lo(colB);
      assert c[..i] == written + [Lo(colB)];
      assert c[i + 1..] == c[i..][1..] == was[i..][1..] == was[i + 1..];
      i := i + 1;
    }
    FinishStep(key, c, i, colA, colB, was, a, b, d0, drop);
  }

  lemma StepIs(key: PublicKey, c: nat, a: word, b: nat, d0: word, v: int)
    requires key.Shaped() && d0 == MultiplierOf(key, c, a, b)
    requires var t := (c + a * b + d0 * key.Modulus()) / BASE;
             if t < key.R() then v == t else v == t - key.Modulus()
    ensures v == Step(key, c, a, b)
  {
    hide MultiplierOf;
  }

  /** n0inv makes the dropped word zero, so that the step is a division by 2^32 modulo n. */
  lemma StepAdvances(key: PublicKey, c: nat, a: word, b: nat)
    requires key.WellFormed() && c < key.R() && b < key.R()
    ensures Advanced(key, c, a, b, Step(key, c, a, b)) && Step(key, c, a, b) < key.R()
  {
    TotalDivisible(key, c, a, b);
    hide MultiplierOf, Congruent;
    var d0 := MultiplierOf(key, c, a, b);
    var total := Total(c, a, b, d0, key.Modulus());
    assert total == c + a * b + d0 * key.Modulus();
    hide Total;
    StepArithmetic(c, a, b, d0, key.Modulus(), key.R(), total / BASE);
  }

  lemma TotalDivisible(key: PublicKey, c: nat, a: word, b: nat)
    requires key.WellFormed()
    ensures var total := Total(c, a, b, MultiplierOf(key, c, a, b), key.Modulus()); BASE * (total / BASE) == total
  {
    var lo := Lo(c % BASE + a * (b % BASE));
    Cancels(key, lo);
    hide Multiplier;
    Divisible(c, a, b, Multiplier(lo, key.n0inv), key.Modulus());
  }

  lemma Cancels(key: PublicKey, lo: word)
    requires key.WellFormed()
    ensures (Multiplier(lo, key.n0inv) * (key.Modulus() % BASE) + lo) % BASE == 0
  {
    ValueLow(key.n);
    LowWordCancels(lo, key.n0inv, key.n[0]);
  }

  lemma StepArithmetic(c: nat, a: word, b: nat, d0: word, n: nat, r: nat, t: nat)
    requires c < r && b < r && n < r && BASE * t == c + a * b + d0 * n
    ensures var v := if t < r then t else t - n; v < r && Congruent(BASE * v, c + a * b, n)
  {
    OneSubtractionSuffices(c, a, b, d0, n, r, t);
    QuotientCongruent(c, a, b, d0, n, t);
  }

  /** A sum is divisible by 2^32 if its low word is. */
  lemma Divisible(c: int, a: int, b: int, d: int, n: int)
    requires (d * (n % BASE) + Lo(c % BASE + a * (b % BASE))) % BASE == 0
    ensures BASE * ((c + a * b + d * n) / BASE) == c + a * b + d * n
  {
    var x, y, z := c / BASE, b / BASE, n / BASE;
    var low := c % BASE + a * (b % BASE);
    var q := low / BASE;
    var e := (d * (n % BASE) + low % BASE) / BASE;
    SpreadProduct(a, b % BASE, y, BASE);
    SpreadProduct(d, n % BASE, z, BASE);
    assert c + a * b + d * n == (x + a * y + d * z + q + e) * BASE;
  }

  /** The last word and the conditional subtraction. */
  method FinishStep(key: PublicKey, c: array<word>, i: nat, colA: dword, colB: dword,
                    ghost was: seq<word>, ghost a: word, ghost b: seq<word>, ghost d0: word, ghost drop: word)
    requires key.Shaped() && i == c.Length == |key.n| && |b| == |was| == |key.n|
    requires Columns(key, was, a, b, d0, drop, c[..i - 1], colA, colB, i) && d0 == MultiplierOf(key, Value(was), a, Value(b))
    modifies c
    ensures Value(c[..]) == Step(key, Value(was), a, Value(b))
  {
    LastColumn(key, was, a, b, d0, drop, c[..i - 1], colA, colB);
    hide Columns, MultiplierOf, Step;
    ghost var low := c[..i - 1];
    var top := Hi(colA) + Hi(colB);
    c[i - 1] := Lo(top);
    assert c[..] == low + [Lo(top)];
    if Hi(top) != 0 {
      SubM(key, c);
    }
    StepIs(key, Value(was), a, Value(b), d0, Value(c[..]));
  }

  // ------------------------------------------------------------ multiplication

  /** k steps, one for each of the k low words of x. */
  function Steps(key: PublicKey, c: nat, x: nat, y: nat, k: nat): nat
    requires key.Shaped()
    decreases k
  {
    if k == 0 then c else Steps(key, Step(key, c, x % BASE, y), x / BASE, y, k - 1)
  }

  /** The Montgomery product of two numbers. */
  function Mul(key: PublicKey, x: nat, y: nat): nat
    requires key.Shaped()
  {
    Steps(key, 0, x, y, |key.n|)
  }

  /** montMul computes the Montgomery product, whatever the key. */
  method MontMul(key: PublicKey, c: array<word>, a: seq<word>, b: seq<word>)
    requires key.Shaped() && c.Length == |a| == |b| == |key.n|
    modifies c
    ensures Value(c[..]) == Mul(key, Value(a), Value(b))
  {
    var i := 0;
    while i < |key.n|
      invariant 0 <= i <= |key.n|
      invariant forall j :: 0 <= j < i ==> c[j] == 0
    {
      c[i] := 0;
      i := i + 1;
    }
    ZeroValue(c[..]);
    assert a[0..] == a;
    hide Step;
    i := 0;
    while i < |key.n|
      invariant 0 <= i <= |key.n|
      invariant Steps(key, Value(c[..]), Value(a[i..]), Value(b), |key.n| - i) == Mul(key, Value(a), Value(b))
    {
      ValueHead(a[i..]);
      assert a[i..][1..] == a[i + 1..] && a[i..][0] == a[i];
      WordOff(a[i], Value(a[i + 1..]));
      MontMulAdd(key, c, a[i], b);
      i := i + 1;
    }
  }

  lemma WordOff(x: word, rest: nat)
    ensures (x + BASE * rest) % BASE == x && (x + BASE * rest) / BASE == rest
  {
  }

  /** R * c = a * b (mod n). */
  ghost predicate Product(key: PublicKey, c: int, a: int, b: int)
  {
    Congruent(key.R() * c, a * b, key.Modulus())
  }

  lemma {:induction false} ZeroValue(s: seq<word>)
    requires forall j :: 0 <= j < |s| ==> s[j] == 0
    ensures Value(s) == 0
  {
    if s != [] {
      ZeroValue(s[..|s| - 1]);
    }
  }

  /** k steps take in x: 2^(32*k) * after = before + x*y (mod n). */
  lemma {:induction false} StepsAdvance(key: PublicKey, c: nat, x: nat, y: nat, k: nat)
    requires key.WellFormed() && c < key.R() && y < key.R() && x < Weight(k)
    ensures Congruent(Weight(k) * Steps(key, c, x, y, k), c + x * y, key.Modulus())
    ensures Steps(key, c, x, y, k) < key.R()
    decreases k
  {
    hide Congruent, Step;
    if k == 0 {
      CongruentBy(c, c, key.Modulus(), 0);
    } else {
      var mid := Step(key, c, x % BASE, y);
      StepAdvances(key, c, x % BASE, y);
      StepsAdvance(key, mid, x / BASE, y, k - 1);
      StepsArithmetic(Weight(k - 1), c, mid, Steps(key, mid, x / BASE, y, k - 1), x, y, key.Modulus());
    }
  }

  lemma StepsArithmetic(w: int, c: int, mid: int, after: int, x: int, y: int, m: int)
    requires Congruent(BASE * mid, c + (x % BASE) * y, m)
    requires Congruent(w * after, mid + (x / BASE) * y, m)
    ensures Congruent((BASE * w) * after, c + x * y, m)
  {
    hide Congruent;
    var q, r := x / BASE, x % BASE;
    CongruentScale(w * after, mid + q * y, BASE, m);
    assert BASE * (w * after) == (BASE * w) * after;
    assert BASE * (mid + q * y) == BASE * mid + BASE * (q * y);
    CongruentAdd(BASE * mid, c + r * y, BASE * (q * y), m);
    assert x == BASE * q + r;
    assert x * y == BASE * (q * y) + r * y;
    CongruentTransitive((BASE * w) * after, BASE * mid + BASE * (q * y), c + x * y, m);
  }

  /** For a key with the right n0inv, the Montgomery product is the product divided by R modulo n. */
  lemma MulIsProduct(key: PublicKey, x: nat, y: nat)
    requires key.WellFormed() && x < key.R() && y < key.R()
    ensures Product(key, Mul(key, x, y), x, y) && Mul(key, x, y) < key.R()
  {
    hide Congruent, Steps;
    StepsAdvance(key, 0, x, y, |key.n|);
  }
}
