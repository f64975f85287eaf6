/**
secure_verify/rsa.c, modpow: in-place public exponentiation of a big-endian byte
string. The result is RSAVP1 of section 5.2.2 of RFC 8017, s^e mod n.
 */
module Rsa {
  import opened BigNum
  import opened Montgomery

  // ------------------------------------------------------------ bytes and words

  /** Word i of a big-endian byte string; word 0 is at the end. */
  function WordAt(s: seq<byte>, i: nat): word
    requires 4 * i + 4 <= |s|
  {
    var p := |s| - 4 * i - 4;
    Join(s[p], s[p + 1], s[p + 2], s[p + 3])
  }

  function WordsOf(s: seq<byte>): (w: seq<word>)
    requires |s| % 4 == 0
    ensures |w| == |s| / 4
  {
    seq(|s| / 4, i requires 0 <= i < |s| / 4 => WordAt(s, i))
  }

  /** Regrouping bytes into words does not change the number. */
  lemma {:induction false} WordsOfValue(s: seq<byte>)
    requires |s| % 4 == 0
    ensures Value(WordsOf(s)) == BytesValue(s)
  {
    if s != [] {
      var rest := s[..|s| - 4];
      WordsOfValue(rest);
      ValueHead(WordsOf(s));
      assert WordsOf(s)[1..] == WordsOf(rest);
      LastFourBytes(s);
    }
  }

  lemma LastFourBytes(s: seq<byte>)
    requires |s| >= 4
    ensures BytesValue(s) == BytesValue(s[..|s| - 4]) * BASE + WordAt(s, 0)
  {
    var k := |s|;
    assert s[..k - 1][..k - 2] == s[..k - 2];
    assert s[..k - 2][..k - 3] == s[..k - 3];
    assert s[..k - 3][..k - 4] == s[..k - 4];
    assert BytesValue(s[..k - 1]) == BytesValue(s[..k - 2]) * 256 + s[k - 2];
    assert BytesValue(s[..k - 2]) == BytesValue(s[..k - 3]) * 256 + s[k - 3];
    assert BytesValue(s[..k - 3]) == BytesValue(s[..k - 4]) * 256 + s[k - 4];
  }

  /** Two byte strings with the same words are read as the same number. */
  lemma SameWords(s: seq<byte>, w: seq<word>)
    requires |s| == 4 * |w|
    requires forall i :: 0 <= i < |w| ==> WordAt(s, i) == w[i]
    ensures BytesValue(s) == Value(w)
  {
    assert WordsOf(s) == w;
    WordsOfValue(s);
  }

  method ReadWords(inout: array<byte>, a: array<word>)
    requires inout.Length == 4 * a.Length
    modifies a
    ensures Value(a[..]) == BytesValue(inout[..])
  {
    var i := 0;
    while i < a.Length
      invariant 0 <= i <= a.Length
      invariant forall j :: 0 <= j < i ==> a[j] == WordAt(inout[..], j)
    {
      var p := (a.Length - 1 - i) * 4;
      a[i] := Join(inout[p], inout[p + 1], inout[p + 2], inout[p + 3]);
      i := i + 1;
    }
    SameWords(inout[..], a[..]);
  }

  method PutWord(out: array<byte>, p: nat, tmp: word)
    requires p + 4 <= out.Length
    modifies out
    ensures out[..p] == old(out[..p]) && out[p + 4..] == old(out[p + 4..])
    ensures Join(out[p], out[p + 1], out[p + 2], out[p + 3]) == tmp
  {
    hide Join;
    JoinSplit(tmp);
    out[p] := tmp / 0x100_0000;
    out[p + 1] := tmp / 0x1_0000 % 256;
    out[p + 2] := tmp / 0x100 % 256;
    out[p + 3] := tmp % 256;
  }

  /** Words of higher index lie before position p and are not touched after it. */
  lemma WordAtPrefix(s: seq<byte>, t: seq<byte>, p: nat, i: nat)
    requires |s| - 4 * i <= p <= |s| == |t| && 4 * i + 4 <= |s| && s[..p] == t[..p]
    ensures WordAt(s, i) == WordAt(t, i)
  {
    var q := |s| - 4 * i - 4;
    assert s[q] == s[..p][q] && s[q + 1] == s[..p][q + 1] && s[q + 2] == s[..p][q + 2] && s[q + 3] == s[..p][q + 3];
  }

  method WriteWords(inout: array<byte>, a: array<word>)
    requires inout.Length == 4 * a.Length
    modifies inout
    ensures BytesValue(inout[..]) == Value(a[..])
  {
    var i := a.Length;
    var p := 0;
    while i > 0
      invariant 0 <= i <= a.Length && p == 4 * (a.Length - i)
      invariant forall j :: i <= j < a.Length ==> WordAt(inout[..], j) == a[j]
    {
      i := i - 1;
      ghost var was := inout[..];
      PutWord(inout, p, a[i]);
      forall j | i < j < a.Length
        ensures WordAt(inout[..], j) == a[j]
      {
        assert inout[..][..p] == inout[..p] && was[..p] == inout[..p];
        WordAtPrefix(inout[..], was, p, j);
      }
      p := p + 4;
    }
    SameWords(inout[..], a[..]);
  }

  // ------------------------------------------------------------ the inverse of R

  /** n0inv * n = -1 (mod 2^32) hands us an inverse of 2^32 modulo n. */
  lemma BaseInverse(key: PublicKey) returns (q: int)
    requires key.WellFormed()
    ensures Congruent(BASE * q, 1, key.Modulus())
  {
    ValueHead(key.n);
    var rest := Value(key.n[1..]);
    var t := (key.n0inv * key.n[0] + 1) / BASE;
    q := t + key.n0inv * rest;
    InverseArithmetic(key.n0inv, key.n[0], rest, t, key.Modulus());
    CongruentBy(BASE * q, 1, key.Modulus(), key.n0inv);
  }

  lemma InverseArithmetic(n0inv: int, n0: int, rest: int, t: int, n: int)
    requires n0inv * n0 + 1 == BASE * t && n == n0 + BASE * rest
    ensures BASE * (t + n0inv * rest) - 1 == n0inv * n
  {
    assert n0inv * (n0 + BASE * rest) == n0inv * n0 + BASE * (n0inv * rest);
  }

  lemma {:induction false} WeightInverse(i: nat, q: int, m: int)
    requires Congruent(BASE * q, 1, m)
    ensures Congruent(Weight(i) * Power(q, i), 1, m)
  {
    if i == 0 {
      CongruentBy(1, 1, m, 0);
    } else {
      var w, r := Weight(i - 1), Power(q, i - 1);
      WeightInverse(i - 1, q, m);
      CongruentMul(BASE * q, 1, w * r, 1, m);
      assert (BASE * q) * (w * r) == (BASE * w) * (q * r);
    }
  }

  /** Montgomery products are determined modulo n: R*c = R*x gives c = x. */
  lemma CancelR(key: PublicKey, c: int, x: int)
    requires key.WellFormed() && Congruent(key.R() * c, key.R() * x, key.Modulus())
    ensures Congruent(c, x, key.Modulus())
  {
    var q := BaseInverse(key);
    WeightInverse(|key.n|, q, key.Modulus());
    CongruentCancel(key.R(), Power(q, |key.n|), c, x, key.Modulus());
  }

  // ------------------------------------------------------------ the exponent chain

  /** aR = a*rr/R = a*R. */
  lemma EnterDomain(key: PublicKey, s: int, c: int)
    requires key.WellFormed() && key.HasRR()
    requires Product(key, c, s, Value(key.rr))
    ensures InDomain(key, c, s)
  {
    EnterArithmetic(key.R(), key.Modulus(), Value(key.rr), s, c);
    hide Congruent;
    CancelR(key, c, s * key.R());
  }

  lemma EnterArithmetic(r: int, m: int, rr: int, s: int, c: int)
    requires Congruent(rr, r * r, m) && Congruent(r * c, s * rr, m)
    ensures Congruent(r * c, r * (s * r), m)
  {
    hide Congruent;
    CongruentScale(rr, r * r, s, m);
    assert s * (r * r) == r * (s * r);
    CongruentTransitive(r * c, s * rr, r * (s * r), m);
  }

  /** c stands for x in the Montgomery domain: c = x*R (mod n). */
  ghost predicate InDomain(key: PublicKey, c: int, x: int)
  {
    Congruent(c, x * key.R(), key.Modulus())
  }

  lemma SquareInDomain(key: PublicKey, c: int, a: int, x: int)
    requires key.WellFormed() && InDomain(key, a, x)
    requires Product(key, c, a, a)
    ensures InDomain(key, c, x * x)
  {
    SquareArithmetic(key.R(), key.Modulus(), a, x, c);
    hide Congruent;
    CancelR(key, c, (x * x) * key.R());
  }

  lemma SquareArithmetic(r: int, m: int, a: int, x: int, c: int)
    requires Congruent(a, x * r, m) && Congruent(r * c, a * a, m)
    ensures Congruent(r * c, r * ((x * x) * r), m)
  {
    hide Congruent;
    CongruentMul(a, x * r, a, x * r, m);
    assert (x * r) * (x * r) == r * ((x * x) * r);
    CongruentTransitive(r * c, a * a, r * ((x * x) * r), m);
  }

  lemma LeaveDomain(key: PublicKey, c: int, a: int, x: int, s: int)
    requires key.WellFormed() && InDomain(key, a, x)
    requires Product(key, c, a, s)
    ensures Congruent(c, s * x, key.Modulus())
  {
    LeaveArithmetic(key.R(), key.Modulus(), a, x, s, c);
    hide Congruent;
    CancelR(key, c, s * x);
  }

  lemma LeaveArithmetic(r: int, m: int, a: int, x: int, s: int, c: int)
    requires Congruent(a, x * r, m) && Congruent(r * c, a * s, m)
    ensures Congruent(r * c, r * (s * x), m)
  {
    hide Congruent;
    CongruentScale(a, x * r, s, m);
    assert s * a == a * s && s * (x * r) == r * (s * x);
    CongruentTransitive(r * c, a * s, r * (s * x), m);
  }

  lemma SquarePower(s: int, i: nat)
    ensures Power(s, Pow2(i)) * Power(s, Pow2(i)) == Power(s, Pow2(i + 1))
  {
    PowerAdd(s, Pow2(i), Pow2(i));
  }

  /** The last correction: below R <= 2n, one conditional subtraction reduces fully. */
  lemma Reduced(c: int, v: int, x: int, n: int, r: int)
    requires 0 <= c < r && 0 <= n < r && Congruent(c, x, n)
    requires v == if c >= n then c - n else c
    ensures Congruent(v, x, n)
    ensures 0 < n && r <= 2 * n ==> v == x % n
  {
    CongruentBy(c - n, c, n, -1);
    if c >= n {
      CongruentTransitive(c - n, c, x, n);
    }
    if 0 < n && r <= 2 * n {
      CongruentMod(x, n);
      CongruentTransitive(v, x, x % n, n);
      ResidueUnique(v, x % n, n);
    }
  }

  // ------------------------------------------------------------ modpow

  /** The supported exponents; any other leaves the result pointer null (rsa.c:101-127). */
  predicate Supported(e: int) { e == 3 || e == 65537 }

  /** k Montgomery squarings. */
  function Squared(key: PublicKey, x: nat, k: nat): nat
    requires key.Shaped()
  {
    if k == 0 then x else Mul(key, Squared(key, x, k - 1), Squared(key, x, k - 1))
  }

  /** The chain of Montgomery products for the exponent 65537, and the one for 3. */
  function Chain65537(key: PublicKey, s: nat): nat
    requires key.Shaped()
  {
    Mul(key, Squared(key, Mul(key, s, Value(key.rr)), 16), s)
  }

  function Chain3(key: PublicKey, s: nat): nat
    requires key.Shaped()
  {
    Mul(key, Squared(key, Mul(key, s, Value(key.rr)), 1), s)
  }

  /** What modpow computes for any key: the chain and one conditional subtraction. */
  function ModPowOf(key: PublicKey, s: nat): nat
    requires key.Shaped()
  {
    var c := if key.exponent == 65537 then Chain65537(key, s) else Chain3(key, s);
    if c >= key.Modulus() then c - key.Modulus() else c
  }

  lemma {:induction false} SquaredIsPower(key: PublicKey, s: nat, k: nat)
    requires Sound(key) && s < key.R()
    ensures InDomain(key, Squared(key, Mul(key, s, Value(key.rr)), k), Power(s, Pow2(k)))
    ensures Squared(key, Mul(key, s, Value(key.rr)), k) < key.R()
  {
    hide InDomain, Mul, Power, Congruent;
    var x := Mul(key, s, Value(key.rr));
    if k == 0 {
      MulIsProduct(key, s, Value(key.rr));
      EnterDomain(key, s, x);
      PowerBasics(s);
    } else {
      SquaredIsPower(key, s, k - 1);
      var a := Squared(key, x, k - 1);
      MulIsProduct(key, a, a);
      SquareInDomain(key, Mul(key, a, a), a, Power(s, Pow2(k - 1)));
      SquarePower(s, k - 1);
    }
  }

  lemma ChainIsPower(key: PublicKey, s: nat, k: nat)
    requires Sound(key) && s < key.R()
    ensures var c := Mul(key, Squared(key, Mul(key, s, Value(key.rr)), k), s);
            c < key.R() && Congruent(c, s * Power(s, Pow2(k)), key.Modulus())
  {
    hide InDomain, Mul, Power, Congruent, Squared;
    SquaredIsPower(key, s, k);
    var a := Squared(key, Mul(key, s, Value(key.rr)), k);
    MulIsProduct(key, a, s);
    LeaveDomain(key, Mul(key, a, s), a, Power(s, Pow2(k)), s);
  }

  /** For a key made for its modulus it is s^e modulo n, and fully reduced when R <= 2n. */
  lemma ModPowIsPower(key: PublicKey, s: nat)
    requires Sound(key) && Supported(key.exponent) && s < key.R()
    ensures Congruent(ModPowOf(key, s), Power(s, key.exponent), key.Modulus())
    ensures key.R() <= 2 * key.Modulus() ==> ModPowOf(key, s) == Power(s, key.exponent) % key.Modulus()
  {
    hide Power, Congruent, Squared, Mul;
    PowerBasics(s);
    ChainIsPower(key, s, 16);
    ChainIsPower(key, s, 1);
    var c := if key.exponent == 65537 then Chain65537(key, s) else Chain3(key, s);
    Reduced(c, ModPowOf(key, s), Power(s, key.exponent), key.Modulus(), key.R());
  }

  /** modpow, in place: for every key what ModPowOf says, hence s^e modulo n for every key with a right
      n0inv and rr; below R/2 it may be n too large. */
  method ModPow(key: PublicKey, inout: array<byte>)
    requires key.Shaped() && Supported(key.exponent) && inout.Length == 4 * |key.n|
    modifies inout
    ensures BytesValue(inout[..]) == ModPowOf(key, old(BytesValue(inout[..])))
    ensures Sound(key) ==>
      var s := old(BytesValue(inout[..]));
      && Congruent(BytesValue(inout[..]), Power(s, key.exponent), key.Modulus())
      && (key.R() <= 2 * key.Modulus() ==>
            BytesValue(inout[..]) == Power(s, key.exponent) % key.Modulus())
  {
    hide Congruent, Sound, Chain65537, Chain3, Power;
    var a := new word[|key.n|];
    var aR := new word[|key.n|];
    var aaR := new word[|key.n|];
    ReadWords(inout, a);
    ghost var s := Value(a[..]);
    var aaa: array<word>;
    if key.exponent == 65537 {
      aaa := aaR;
      Exponent65537(key, a, aR, aaR);
    } else {
      aaa := aR;
      Exponent3(key, a, aR, aaR);
    }
    var ge := GeM(key, aaa);
    if ge {
      SubM(key, aaa);
    }
    if Sound(key) {
      ModPowIsPower(key, s);
    }
    WriteWords(inout, aaa);
  }

  /** The key was made for its modulus. */
  ghost predicate Sound(key: PublicKey)
  {
    key.WellFormed() && key.HasRR()
  }

  /** Sixteen squarings and one product (rsa.c:115-121). */
  method Exponent65537(key: PublicKey, a: array<word>, aR: array<word>, aaR: array<word>)
    requires key.Shaped() && a.Length == aR.Length == aaR.Length == |key.n|
    requires a != aR && a != aaR && aR != aaR
    modifies aR, aaR
    ensures Value(aaR[..]) == Chain65537(key, Value(a[..]))
  {
    hide Mul;
    MontMul(key, aR, a[..], key.rr);
    ghost var x := Value(aR[..]);
    var i := 0;
    while i < 16
      invariant 0 <= i <= 16 && i % 2 == 0 && a[..] == old(a[..])
      invariant Value(aR[..]) == Squared(key, x, i)
    {
      MontMul(key, aaR, aR[..], aR[..]);
      MontMul(key, aR, aaR[..], aaR[..]);
      i := i + 2;
    }
    MontMul(key, aaR, aR[..], a[..]);
  }

  /** One squaring and one product (rsa.c:123-126). */
  method Exponent3(key: PublicKey, a: array<word>, aR: array<word>, aaR: array<word>)
    requires key.Shaped() && a.Length == aR.Length == aaR.Length == |key.n|
    requires a != aR && a != aaR && aR != aaR
    modifies aR, aaR
    ensures Value(aR[..]) == Chain3(key, Value(a[..]))
  {
    hide Mul;
    MontMul(key, aR, a[..], key.rr);
    ghost var x := Value(aR[..]);
    assert Squared(key, x, 0) == x && Squared(key, x, 1) == Mul(key, x, x);
    MontMul(key, aaR, aR[..], aR[..]);
    MontMul(key, aR, aaR[..], a[..]);
  }

  lemma PowerBasics(s: int)
    ensures Power(s, Pow2(0)) == s
    ensures s * Power(s, Pow2(1)) == Power(s, 3)
    ensures s * Power(s, Pow2(16)) == Power(s, 65537)
  {
    assert Power(s, 1) == s * Power(s, 0) == s;
    assert Pow2(1) == 2;
    assert Power(s, 2) == s * Power(s, 1);
    assert Pow2(4) == 16;
    assert Pow2(8) == 256;
    assert Pow2(12) == 4096;
    assert Pow2(16) == 65536;
  }
}
