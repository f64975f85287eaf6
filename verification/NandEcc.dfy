/**
drivers/nand/comip_nand.c, comip_ecc_arithmetic: one-bit correction of a 512-byte
sector from a 24-bit parity code. The code itself is computed by the controller; here
it is the twelve-pair parity code that the decoder's bit map assumes.
 */
module NandEcc {
  import opened BigNum

  const SECTOR: nat := 512
  const CELLS: nat := 4096

  type Sector = s: seq<bv8> | |s| == SECTOR witness seq(SECTOR, i => 0)

  // ------------------------------------------------------------ bit strings

  function Differ(x: seq<bool>, y: seq<bool>): (z: seq<bool>)
    requires |x| == |y|
    ensures |z| == |x|
  {
    seq(|x|, i requires 0 <= i < |x| => x[i] != y[i])
  }

  function Ones(s: seq<bool>): (n: nat)
    ensures n <= |s|
  {
    if s == [] then 0 else (if s[0] then 1 else 0) + Ones(s[1..])
  }

  function Number(bits: seq<bool>): nat
  {
    if bits == [] then 0 else (if bits[0] then 1 else 0) + 2 * Number(bits[1..])
  }

  function BitsOf(a: nat, n: nat): (bits: seq<bool>)
    ensures |bits| == n
  {
    if n == 0 then [] else [a % 2 == 1] + BitsOf(a / 2, n - 1)
  }

  lemma {:induction false} NumberOfBits(a: nat, n: nat)
    requires a < Pow2(n)
    ensures Number(BitsOf(a, n)) == a
  {
    if n != 0 {
      NumberOfBits(a / 2, n - 1);
      assert BitsOf(a, n)[1..] == BitsOf(a / 2, n - 1);
    }
  }

  lemma {:induction false} BitsOfNumber(bits: seq<bool>)
    ensures Number(bits) < Pow2(|bits|) && BitsOf(Number(bits), |bits|) == bits
  {
    if bits != [] {
      BitsOfNumber(bits[1..]);
      assert bits == [bits[0]] + bits[1..];
    }
  }

  lemma SizeOfAddress()
    ensures Pow2(12) == CELLS
  {
    assert Pow2(4) == 16;
    assert Pow2(8) == 256;
  }

  lemma AddressInverse(a: nat)
    requires a < CELLS
    ensures Number(BitsOf(a, 12)) == a
  {
    SizeOfAddress();
    NumberOfBits(a, 12);
  }

  // ------------------------------------------------------------ pairs

  /** Each address bit as the pair (its complement, itself). */
  function Pairs(bits: seq<bool>): (p: seq<bool>)
    ensures |p| == 2 * |bits|
  {
    if bits == [] then [] else [!bits[0], bits[0]] + Pairs(bits[1..])
  }

  /** Each bit twice. */
  function Twice(bits: seq<bool>): (p: seq<bool>)
    ensures |p| == 2 * |bits|
  {
    if bits == [] then [] else [bits[0], bits[0]] + Twice(bits[1..])
  }

  /** The second bit of each pair. */
  function Seconds(p: seq<bool>): (bits: seq<bool>)
    requires |p| % 2 == 0
    ensures 2 * |bits| == |p|
  {
    if p == [] then [] else [p[1]] + Seconds(p[2..])
  }

  lemma {:induction false} PairsWeigh(bits: seq<bool>)
    ensures Ones(Pairs(bits)) == |bits| && Seconds(Pairs(bits)) == bits
  {
    if bits != [] {
      var rest := Pairs(bits[1..]);
      PairsWeigh(bits[1..]);
      assert Pairs(bits)[1..] == [bits[0]] + rest && Pairs(bits)[2..] == rest;
      assert ([bits[0]] + rest)[1..] == rest;
    }
  }

  lemma {:induction false} TwiceWeighs(bits: seq<bool>)
    ensures Ones(Twice(bits)) == 2 * Ones(bits) && Seconds(Twice(bits)) == bits
  {
    if bits != [] {
      var rest := Twice(bits[1..]);
      TwiceWeighs(bits[1..]);
      assert Twice(bits)[1..] == [bits[0]] + rest && Twice(bits)[2..] == rest;
      assert ([bits[0]] + rest)[1..] == rest;
    }
  }

  lemma DifferConcat(a: seq<bool>, b: seq<bool>, p: seq<bool>, q: seq<bool>)
    requires |a| == |b| && |p| == |q|
    ensures Differ(a + p, b + q) == Differ(a, b) + Differ(p, q)
  {
  }

  lemma {:induction false} PairsDiffer(x: seq<bool>, y: seq<bool>)
    requires |x| == |y|
    ensures Differ(Pairs(x), Pairs(y)) == Twice(Differ(x, y))
  {
    if x != [] {
      PairsDiffer(x[1..], y[1..]);
      assert Differ(x, y)[1..] == Differ(x[1..], y[1..]);
      var p, q := Pairs(x[1..]), Pairs(y[1..]);
      DifferConcat([!x[0], x[0]], [!y[0], y[0]], p, q);
      assert Differ([!x[0], x[0]], [!y[0], y[0]]) == [x[0] != y[0], x[0] != y[0]];
    }
  }

  lemma {:induction false} OnesZero(s: seq<bool>)
    ensures Ones(s) == 0 <==> forall i :: 0 <= i < |s| ==> !s[i]
  {
    if s != [] {
      OnesZero(s[1..]);
      assert forall i :: 0 < i < |s| ==> s[i] == s[1..][i - 1];
    }
  }

  lemma {:induction false} OnesFlip(s: seq<bool>, k: nat)
    requires k < |s|
    ensures Ones(s[k := !s[k]]) == if s[k] then Ones(s) - 1 else Ones(s) + 1
  {
    if k == 0 {
      assert s[0 := !s[0]][1..] == s[1..];
    } else {
      OnesFlip(s[1..], k - 1);
      assert s[k := !s[k]][1..] == s[1..][k - 1 := !s[k]];
    }
  }

  // ------------------------------------------------------------ the code

  /** Address bits 0..8 select the byte and bits 9..11 the bit in it. */
  function Cell(s: Sector, a: nat): bool
    requires a < CELLS
  {
    BitAt(s[a % SECTOR], a / SECTOR)
  }

  function Column(a: nat): (c: seq<bool>)
    ensures |c| == 24
  {
    Pairs(BitsOf(a, 12))
  }

  function Toggle(c: seq<bool>, on: bool, column: seq<bool>): (d: seq<bool>)
    requires |c| == |column|
    ensures |d| == |c|
  {
    if on then Differ(c, column) else c
  }

  /** The parities over the first n cells. */
  function CodeOf(s: Sector, n: nat): (c: seq<bool>)
    requires n <= CELLS
    ensures |c| == 24
  {
    if n == 0 then seq(24, i => false) else Toggle(CodeOf(s, n - 1), Cell(s, n - 1), Column(n - 1))
  }

  function Code(s: Sector): (c: seq<bool>)
    ensures |c| == 24
  {
    CodeOf(s, CELLS)
  }

  function Xor8(x: bv8, y: bv8): bv8 { x ^ y }
  function And8(x: bv8, y: bv8): bv8 { x & y }

  function BitAt(x: bv8, k: nat): bool
    requires k < 8
  {
    And8(x, Bit8(k)) != 0
  }

  function Bit8(k: nat): bv8
    requires k < 8
  {
    match k
    case 0 => 1
    case 1 => 2
    case 2 => 4
    case 3 => 8
    case 4 => 16
    case 5 => 32
    case 6 => 64
    case _ => 128
  }

  /** The sector with the cell at address a inverted. */
  function FlipCell(s: Sector, a: nat): Sector
    requires a < CELLS
  {
    s[a % SECTOR := Xor8(s[a % SECTOR], Bit8(a / SECTOR))]
  }

  lemma Bit8Injective(j: nat, k: nat)
    requires j < 8 && k < 8 && Bit8(j) == Bit8(k)
    ensures j == k
  {
  }

  predicate IsBit(m: bv8)
  {
    m == 1 || m == 2 || m == 4 || m == 8 || m == 16 || m == 32 || m == 64 || m == 128
  }

  lemma XorOneBit(x: bv8, m: bv8, k: bv8)
    requires IsBit(m) && IsBit(k)
    ensures (And8(Xor8(x, m), k) != 0) == ((And8(x, k) != 0) != (m == k))
  {
  }

  lemma FlippedBit(x: bv8, j: nat, k: nat)
    requires j < 8 && k < 8
    ensures BitAt(Xor8(x, Bit8(j)), k) == (BitAt(x, k) != (j == k))
  {
    assert IsBit(Bit8(j)) && IsBit(Bit8(k));
    hide Bit8, Xor8, And8, IsBit;
    XorOneBit(x, Bit8(j), Bit8(k));
    if Bit8(j) == Bit8(k) {
      Bit8Injective(j, k);
    }
  }

  lemma SameCell(a: nat, b: nat)
    ensures a == b <==> a % SECTOR == b % SECTOR && a / SECTOR == b / SECTOR
  {
  }

  lemma FlippedCell(s: Sector, a: nat, b: nat)
    requires a < CELLS && b < CELLS
    ensures Cell(FlipCell(s, a), b) == (Cell(s, b) != (a == b))
  {
    hide Bit8, BitAt, Xor8;
    SameCell(a, b);
    FlippedBit(s[a % SECTOR], a / SECTOR, b / SECTOR);
  }

  lemma ToggleSwap(c: seq<bool>, on: bool, d: seq<bool>, x: seq<bool>)
    requires |c| == |d| == |x|
    ensures Toggle(Differ(c, x), on, d) == Differ(Toggle(c, on, d), x)
    ensures Toggle(c, !on, d) == Differ(Toggle(c, on, d), d)
  {
  }

  /** The code of a sector with one cell inverted differs by that cell's column. */
  lemma {:induction false} CodeOfFlip(s: Sector, a: nat, n: nat)
    requires a < CELLS && n <= CELLS
    ensures CodeOf(FlipCell(s, a), n) == if a < n then Differ(CodeOf(s, n), Column(a)) else CodeOf(s, n)
  {
    hide Column, Cell, FlipCell, Differ, Toggle;
    if n != 0 {
      CodeOfFlip(s, a, n - 1);
      FlippedCell(s, a, n - 1);
      ToggleSwap(CodeOf(s, n - 1), Cell(s, n - 1), Column(n - 1), Column(a));
    }
  }

  lemma DifferTwice(c: seq<bool>, x: seq<bool>)
    requires |c| == |x|
    ensures Differ(Differ(c, x), c) == x && Differ(c, Differ(c, x)) == x
  {
  }

  // ------------------------------------------------------------ the decoder

  /** What the reader gets: a sector, or the report that it cannot be repaired. */
  datatype Verdict = Accepted(data: Sector) | Rejected

  /** The odd syndrome bits spell an address. */
  function Position(syndrome: seq<bool>): (a: nat)
    requires |syndrome| == 24
    ensures a < CELLS
  {
    SizeOfAddress();
    BitsOfNumber(Seconds(syndrome));
    Number(Seconds(syndrome))
  }

  function Decoded(syndrome: seq<bool>, s: Sector): Verdict
    requires |syndrome| == 24
  {
    var weight := Ones(syndrome);
    if weight <= 1 then Accepted(s)
    else if weight == 12 then Accepted(FlipCell(s, Position(syndrome)))
    else Rejected
  }

  type Ecc = e: seq<bv8> | |e| == 3 witness [0, 0, 0]

  function EccBits(e: Ecc): (b: seq<bool>)
    ensures |b| == 24
  {
    seq(24, k requires 0 <= k < 24 => BitAt(e[k / 8], k % 8))
  }

  // ------------------------------------------------------------ the syndrome word

  function Widen(x: bv8): bv32 { x as bv32 }
  function Raise(v: bv32): bv32 { v << 8 }
  function Double(v: bv32): bv32 { v << 1 }
  predicate Meets(v: bv32, m: bv32) { v & m != 0 }

  function Gather(b0: bv8, b1: bv8, b2: bv8): bv32
  {
    Widen(b0) | Raise(Widen(b1)) | (Widen(b2) << 16)
  }

  /** 0x1 << k. */
  function Bit32(k: nat): bv32
  {
    if k == 0 then 1 else Double(Bit32(k - 1))
  }

  predicate Test(v: bv32, k: nat) { Meets(v, Bit32(k)) }

  lemma GatherMask(b0: bv8, b1: bv8, b2: bv8, m: bv8)
    ensures Meets(Gather(b0, b1, b2), Widen(m)) <==> And8(b0, m) != 0
    ensures Meets(Gather(b0, b1, b2), Raise(Widen(m))) <==> And8(b1, m) != 0
    ensures Meets(Gather(b0, b1, b2), Raise(Raise(Widen(m)))) <==> And8(b2, m) != 0
  {
  }

  lemma BitLow(k: nat)
    requires k < 8
    ensures Bit32(k) == Widen(Bit8(k))
  {
    assert Bit32(1) == 2;
    assert Bit32(2) == 4;
    assert Bit32(3) == 8;
    assert Bit32(4) == 16;
    assert Bit32(5) == 32;
    assert Bit32(6) == 64;
    assert Bit32(7) == 128;
  }

  lemma BitMiddle(k: nat)
    requires k < 8
    ensures Bit32(k + 8) == Raise(Widen(Bit8(k)))
  {
    BitLow(7);
    assert Bit32(8) == 0x100;
    assert Bit32(9) == 0x200;
    assert Bit32(10) == 0x400;
    assert Bit32(11) == 0x800;
    assert Bit32(12) == 0x1000;
    assert Bit32(13) == 0x2000;
    assert Bit32(14) == 0x4000;
    assert Bit32(15) == 0x8000;
  }

  lemma BitHigh(k: nat)
    requires k < 8
    ensures Bit32(k + 16) == Raise(Raise(Widen(Bit8(k))))
  {
    BitMiddle(7);
    assert Bit32(16) == 0x1_0000;
    assert Bit32(17) == 0x2_0000;
    assert Bit32(18) == 0x4_0000;
    assert Bit32(19) == 0x8_0000;
    assert Bit32(20) == 0x10_0000;
    assert Bit32(21) == 0x20_0000;
    assert Bit32(22) == 0x40_0000;
    assert Bit32(23) == 0x80_0000;
  }

  lemma GatherLow(e: Ecc, j: nat)
    requires j < 8
    ensures Test(Gather(e[0], e[1], e[2]), j) == BitAt(e[0], j)
    ensures Test(Gather(e[0], e[1], e[2]), j + 8) == BitAt(e[1], j)
    ensures Test(Gather(e[0], e[1], e[2]), j + 16) == BitAt(e[2], j)
  {
    hide Gather, Bit8, Bit32, Raise, Widen, Meets, And8;
    GatherMask(e[0], e[1], e[2], Bit8(j));
    BitLow(j);
    BitMiddle(j);
    BitHigh(j);
  }

  lemma GatherTest(e: Ecc, k: nat)
    requires k < 24
    ensures Test(Gather(e[0], e[1], e[2]), k) == BitAt(e[k / 8], k % 8)
  {
    hide Gather, Test, BitAt;
    GatherLow(e, k % 8);
    assert k == k % 8 + 8 * (k / 8);
    assert k / 8 == 0 || k / 8 == 1 || k / 8 == 2;
  }

  lemma XorBitAt(x: bv8, y: bv8, k: nat)
    requires k < 8
    ensures BitAt(Xor8(x, y), k) == (BitAt(x, k) != BitAt(y, k))
  {
    XorUnderMask(x, y, Bit8(k));
  }

  lemma XorUnderMask(x: bv8, y: bv8, m: bv8)
    requires IsBit(m)
    ensures And8(Xor8(x, y), m) != 0 <==> ((And8(x, m) != 0) != (And8(y, m) != 0))
  {
  }

  function Bits24(v: bv32): (b: seq<bool>)
    ensures |b| == 24
  {
    seq(24, k requires 0 <= k < 24 => Test(v, k))
  }

  function XorEcc(ecc1: Ecc, ecc2: Ecc): Ecc
  {
    [Xor8(ecc1[0], ecc2[0]), Xor8(ecc1[1], ecc2[1]), Xor8(ecc1[2], ecc2[2])]
  }

  lemma XorEccBit(ecc1: Ecc, ecc2: Ecc, k: nat)
    requires k < 24
    ensures BitAt(XorEcc(ecc1, ecc2)[k / 8], k % 8) == (BitAt(ecc1[k / 8], k % 8) != BitAt(ecc2[k / 8], k % 8))
  {
    hide BitAt, Xor8;
    XorBitAt(ecc1[k / 8], ecc2[k / 8], k % 8);
    assert k / 8 == 0 || k / 8 == 1 || k / 8 == 2;
  }

  function ResultOf(ecc1: Ecc, ecc2: Ecc): bv32
  {
    var e := XorEcc(ecc1, ecc2);
    Gather(e[0], e[1], e[2])
  }

  lemma ResultBits(ecc1: Ecc, ecc2: Ecc)
    ensures Bits24(ResultOf(ecc1, ecc2)) == Differ(EccBits(ecc1), EccBits(ecc2))
  {
    hide Test, BitAt, Gather, XorEcc;
    forall k | 0 <= k < 24
      ensures Test(ResultOf(ecc1, ecc2), k) == Differ(EccBits(ecc1), EccBits(ecc2))[k]
    {
      GatherTest(XorEcc(ecc1, ecc2), k);
      XorEccBit(ecc1, ecc2, k);
    }
  }

  // ------------------------------------------------------------ the position

  function ErrPosition(r: bv32): bv32
  {
    ((r & 0x02) >> 1) | ((r & 0x08) >> 2) | ((r & 0x20) >> 3) | ((r & 0x80) >> 4)
    | ((r & 0x200) >> 5) | ((r & 0x800) >> 6) | ((r & 0x2000) >> 7) | ((r & 0x8000) >> 8)
    | ((r & 0x20000) >> 9) | ((r & 0x80000) >> 10) | ((r & 0x200000) >> 11) | ((r & 0x800000) >> 12)
  }

  function ErrBit(position: bv32): bv32 { (position >> 9) & 0x7 }
  function ErrByte(position: bv32): bv32 { position & 0x1ff }

  function One(b: bool): nat { if b then 1 else 0 }

  /** The twelve bits that the position is built from. */
  function OddFlags(r: bv32): (s: seq<bool>)
    ensures |s| == 12
  {
    [Meets(r, 0x02), Meets(r, 0x08), Meets(r, 0x20), Meets(r, 0x80),
     Meets(r, 0x200), Meets(r, 0x800), Meets(r, 0x2000), Meets(r, 0x8000),
     Meets(r, 0x20000), Meets(r, 0x80000), Meets(r, 0x200000), Meets(r, 0x800000)]
  }

  /** Three bits from position i on, as a number. */
  function Three(bits: seq<bool>, i: nat): (n: nat)
    requires i + 3 <= |bits|
    ensures n < 8
  {
    One(bits[i]) + 2 * One(bits[i + 1]) + 4 * One(bits[i + 2])
  }

  function ByteSum(r: bv32): nat
  {
    One(Meets(r, 0x02)) + 2 * One(Meets(r, 0x08)) + 4 * One(Meets(r, 0x20)) + 8 * One(Meets(r, 0x80))
    + 16 * One(Meets(r, 0x200)) + 32 * One(Meets(r, 0x800)) + 64 * One(Meets(r, 0x2000))
    + 128 * One(Meets(r, 0x8000)) + 256 * One(Meets(r, 0x20000))
  }

  lemma ByteSumThrees(r: bv32)
    ensures var s := OddFlags(r); ByteSum(r) == Three(s, 0) + 8 * Three(s, 3) + 64 * Three(s, 6)
  {
    hide Meets;
  }

  lemma NumberOfByte(r: bv32)
    ensures ErrByte(ErrPosition(r)) as int == ByteSum(r)
  {
    var p := ErrByte(ErrPosition(r));
    assert p < 512;
    assert p & 1 != 0 <==> Meets(r, 0x02);
    assert p & 2 != 0 <==> Meets(r, 0x08);
    assert p & 4 != 0 <==> Meets(r, 0x20);
    assert p & 8 != 0 <==> Meets(r, 0x80);
    assert p & 16 != 0 <==> Meets(r, 0x200);
    assert p & 32 != 0 <==> Meets(r, 0x800);
    assert p & 64 != 0 <==> Meets(r, 0x2000);
    assert p & 128 != 0 <==> Meets(r, 0x8000);
    assert p & 256 != 0 <==> Meets(r, 0x20000);
    hide ErrByte, ErrPosition, Meets;
    NineBits(p);
  }

  lemma NineBits(p: bv32)
    requires p < 512
    ensures p as int == One(p & 1 != 0) + 2 * One(p & 2 != 0) + 4 * One(p & 4 != 0) + 8 * One(p & 8 != 0)
                      + 16 * One(p & 16 != 0) + 32 * One(p & 32 != 0) + 64 * One(p & 64 != 0)
                      + 128 * One(p & 128 != 0) + 256 * One(p & 256 != 0)
  {
  }

  lemma NumberOfBit(r: bv32)
    ensures ErrBit(ErrPosition(r)) as int == Three(OddFlags(r), 9)
  {
    var p := ErrBit(ErrPosition(r));
    assert p < 8;
    assert p & 1 != 0 <==> Meets(r, 0x80000);
    assert p & 2 != 0 <==> Meets(r, 0x200000);
    assert p & 4 != 0 <==> Meets(r, 0x800000);
    hide ErrBit, ErrPosition, Meets;
    ThreeBits(p);
  }

  lemma ThreeBits(p: bv32)
    requires p < 8
    ensures p as int == One(p & 1 != 0) + 2 * One(p & 2 != 0) + 4 * One(p & 4 != 0)
  {
  }

  lemma NumberPrefix(bits: seq<bool>)
    requires |bits| >= 3
    ensures Number(bits) == Three(bits, 0) + 8 * Number(bits[3..])
  {
    var u := bits[1..];
    var v := u[1..];
    assert v[1..] == bits[3..];
    assert Number(v) == One(bits[2]) + 2 * Number(bits[3..]);
    assert Number(u) == One(bits[1]) + 2 * Number(v);
  }

  lemma NumberNone()
    ensures Number([]) == 0
  {
  }

  lemma OctalDigits(t0: nat, t1: nat, t2: nat, t3: nat)
    requires t0 < 8 && t1 < 8 && t2 < 8 && t3 < 8
    ensures (t0 + 8 * (t1 + 8 * (t2 + 8 * t3))) % SECTOR == t0 + 8 * t1 + 64 * t2
    ensures (t0 + 8 * (t1 + 8 * (t2 + 8 * t3))) / SECTOR == t3
  {
  }

  /** An address from its four groups of three bits. */
  lemma NumberTwelve(bits: seq<bool>)
    requires |bits| == 12
    ensures Number(bits) % SECTOR == Three(bits, 0) + 8 * Three(bits, 3) + 64 * Three(bits, 6)
    ensures Number(bits) / SECTOR == Three(bits, 9)
  {
    hide Number;
    var m := bits[3..];
    var n := m[3..];
    NumberPrefix(bits);
    NumberPrefix(m);
    NumberPrefix(n);
    NumberPrefix(n[3..]);
    assert Number(n[3..][3..]) == 0 by { assert n[3..][3..] == []; NumberNone(); }
    assert Three(m, 0) == Three(bits, 3) && Three(n, 0) == Three(bits, 6) && Three(n[3..], 0) == Three(bits, 9);
    hide Three;
    OctalDigits(Three(bits, 0), Three(bits, 3), Three(bits, 6), Three(bits, 9));
  }

  lemma SizeThree()
    ensures Pow2(3) == 8
  {
    assert Pow2(1) == 2;
  }

  lemma {:induction false} SecondsAt(p: seq<bool>, k: nat)
    requires |p| % 2 == 0 && k < |p| / 2
    ensures Seconds(p)[k] == p[2 * k + 1]
  {
    if k != 0 {
      SecondsAt(p[2..], k - 1);
    }
  }

  /** The extracted byte and bit numbers are those of the spelled address. */
  lemma PositionSplits(r: bv32)
    ensures ErrByte(ErrPosition(r)) as int == Position(Bits24(r)) % SECTOR
    ensures ErrBit(ErrPosition(r)) as int == Position(Bits24(r)) / SECTOR
  {
    hide Number, ErrPosition, ErrByte, ErrBit, ByteSum, Seconds, Three, OddFlags, Bits24;
    ByteSumThrees(r);
    NumberTwelve(OddFlags(r));
    NumberOfByte(r);
    NumberOfBit(r);
    SecondsOfWord(r);
  }

  lemma SecondsOfWord(r: bv32)
    ensures Seconds(Bits24(r)) == OddFlags(r)
  {
    hide Seconds, Meets, Bit32;
    var bits := Bits24(r);
    forall k | 0 <= k < 12
      ensures Seconds(bits)[k] == Meets(r, Bit32(2 * k + 1))
    {
      SecondsAt(bits, k);
    }
    OddBits();
  }

  lemma OddBits()
    ensures Bit32(1) == 0x02 && Bit32(3) == 0x08 && Bit32(5) == 0x20 && Bit32(7) == 0x80
    ensures Bit32(9) == 0x200 && Bit32(11) == 0x800 && Bit32(13) == 0x2000 && Bit32(15) == 0x8000
    ensures Bit32(17) == 0x2_0000 && Bit32(19) == 0x8_0000 && Bit32(21) == 0x20_0000 && Bit32(23) == 0x80_0000
  {
    assert Bit32(2) == 4;
    assert Bit32(4) == 16;
    assert Bit32(6) == 64;
    assert Bit32(8) == 0x100;
    assert Bit32(10) == 0x400;
    assert Bit32(12) == 0x1000;
    assert Bit32(14) == 0x4000;
    assert Bit32(16) == 0x1_0000;
    assert Bit32(18) == 0x4_0000;
    assert Bit32(20) == 0x10_0000;
    assert Bit32(22) == 0x40_0000;
  }

  // ------------------------------------------------------------ the correction

  /** Clear the bit if it is set, set it if it is clear. */
  function Invert(x: bv8, k: bv32): bv8
    requires k < 8
  {
    if (x >> k) & 0x01 != 0 then x & (0xff & !((1 as bv8) << k)) else x | ((1 as bv8) << k)
  }

  lemma InvertFlips(x: bv8, k: bv32)
    requires k < 8
    ensures Invert(x, k) == Xor8(x, Bit8(k as int))
  {
    if k == 0 {
    } else if k == 1 {
    } else if k == 2 {
    } else if k == 3 {
    } else if k == 4 {
    } else if k == 5 {
    } else if k == 6 {
    } else {
      assert k == 7;
    }
  }

  lemma {:induction false} OnesAppend(s: seq<bool>, b: bool)
    ensures Ones(s + [b]) == Ones(s) + One(b)
  {
    if s != [] {
      OnesAppend(s[1..], b);
      assert (s + [b])[1..] == s[1..] + [b];
    }
  }

  method CountBits(result: bv32) returns (tmp: nat)
    ensures tmp == Ones(Bits24(result))
  {
    hide Test;
    ghost var bits := Bits24(result);
    tmp := 0;
    for cnt := 0 to 24
      invariant tmp == Ones(bits[..cnt])
    {
      OnesAppend(bits[..cnt], bits[cnt]);
      assert bits[..cnt + 1] == bits[..cnt] + [bits[cnt]];
      if Test(result, cnt) {
        tmp := tmp + 1;
      }
    }
    assert bits[..24] == bits;
  }

  lemma SameCode(e: Ecc)
    ensures Ones(Differ(EccBits(e), EccBits(e))) == 0
  {
    OnesZero(Differ(EccBits(e), EccBits(e)));
  }

  /** comip_ecc_arithmetic. */
  method EccArithmetic(ecc1: Ecc, ecc2: Ecc, buf: array<bv8>) returns (r: int)
    requires buf.Length == SECTOR
    modifies buf
    ensures var v := Decoded(Differ(EccBits(ecc1), EccBits(ecc2)), old(buf[..]));
            match v
            case Accepted(data) => r == 0 && buf[..] == data
            case Rejected => r == -1 && buf[..] == old(buf[..])
  {
    hide EccBits, Differ, Ones, Bits24, FlipCell, Position, Invert, ResultOf, Bit8, ErrPosition, ErrByte, ErrBit;
    if ecc1 == ecc2 {
      SameCode(ecc1);
      return 0;
    }
    var result := ResultOf(ecc1, ecc2);
    ResultBits(ecc1, ecc2);
    var tmp := CountBits(result);
    if tmp == 0 || tmp == 1 {
      return 0;
    } else if tmp == 12 {
      Correct(result, buf);
      return 0;
    } else {
      return -1;
    }
  }

  method Correct(result: bv32, buf: array<bv8>)
    requires buf.Length == SECTOR
    modifies buf
    ensures buf[..] == FlipCell(old(buf[..]), Position(Bits24(result)))
  {
    hide Bits24, Position, Invert, Bit8, Xor8, ErrPosition, ErrByte, ErrBit;
    var position := ErrPosition(result);
    var errBit := ErrBit(position);
    PositionSplits(result);
    var errByte := ErrByte(position) as int;
    var tmp := buf[errByte];
    BitRange(position);
    InvertFlips(tmp, errBit);
    buf[errByte] := Invert(tmp, errBit);
  }

  lemma BitRange(position: bv32)
    ensures ErrBit(position) < 8
  {
  }

  // ------------------------------------------------------------ what it repairs and reports

  /** Read sector t, recompute its code and compare it with the code e read from the spare area. */
  function Repair(t: Sector, e: seq<bool>): Verdict
    requires |e| == 24
  {
    Decoded(Differ(Code(t), e), t)
  }

  function Damage(c: seq<bool>, k: nat): seq<bool>
    requires k < |c|
  {
    c[k := !c[k]]
  }

  lemma CodeFlip(s: Sector, a: nat)
    requires a < CELLS
    ensures Code(FlipCell(s, a)) == Differ(Code(s), Column(a))
  {
    hide FlipCell, Differ, Column, CodeOf;
    CodeOfFlip(s, a, CELLS);
  }

  lemma FlipTwice(s: Sector, a: nat)
    requires a < CELLS
    ensures FlipCell(FlipCell(s, a), a) == s
  {
    hide Bit8, Xor8;
    XorBack(s[a % SECTOR], Bit8(a / SECTOR));
  }

  lemma XorBack(x: bv8, m: bv8)
    ensures Xor8(Xor8(x, m), m) == x
  {
  }

  lemma ColumnWeight(a: nat)
    requires a < CELLS
    ensures Ones(Column(a)) == 12 && Position(Column(a)) == a
  {
    hide Pairs, Seconds, Number, BitsOf, Ones;
    PairsWeigh(BitsOf(a, 12));
    AddressInverse(a);
  }

  lemma DifferDamaged(c: seq<bool>, x: seq<bool>, k: nat)
    requires |c| == |x| && k < |c|
    ensures Differ(Differ(c, x), Damage(c, k)) == Damage(x, k)
  {
  }

  lemma DamageWeight(c: seq<bool>, k: nat)
    requires k < |c|
    ensures Ones(Damage(c, k)) == Ones(c) + 1 || Ones(Damage(c, k)) + 1 == Ones(c)
  {
    hide Ones;
    OnesFlip(c, k);
  }

  lemma DamageShows(c: seq<bool>, k: nat)
    requires k < |c|
    ensures Ones(Differ(c, Damage(c, k))) == 1
  {
    hide Ones;
    var d := Differ(c, Damage(c, k));
    assert d[k := false] == All(false, |c|);
    OnesAll(|c|);
    OnesFlip(d, k);
  }

  /** One inverted data bit is restored, whichever it is. */
  lemma DataBitRestored(s: Sector, a: nat)
    requires a < CELLS
    ensures Repair(FlipCell(s, a), Code(s)) == Accepted(s)
  {
    hide FlipCell, Differ, Column, CodeOf, Ones, Position;
    CodeFlip(s, a);
    DifferTwice(Code(s), Column(a));
    ColumnWeight(a);
    FlipTwice(s, a);
  }

  /** A sector whose code agrees is accepted as it is. */
  lemma UndamagedAccepted(s: Sector)
    ensures Repair(s, Code(s)) == Accepted(s)
  {
    hide CodeOf, Position;
    OnesZero(Differ(Code(s), Code(s)));
  }

  /** Damage to the code alone, by the number n of code bits that differ: none or one is ignored, twelve
      are taken for a data bit, and every other number is reported. */
  lemma CodeDamage(s: Sector, e: seq<bool>)
    requires |e| == 24
    ensures var n, v := Ones(Differ(Code(s), e)), Repair(s, e);
            && (v == Accepted(s) <==> n == 0 || n == 1)
            && (v == Rejected <==> 2 <= n <= 11 || 13 <= n)
            && (n == 12 ==> exists a: nat :: a < CELLS && v == Accepted(FlipCell(s, a)))
  {
    hide CodeOf, Position, Ones, FlipCell;
    var d := Differ(Code(s), e);
    if Ones(d) == 12 {
      FlipChanges(s, Position(d));
    }
  }

  lemma FlipChanges(s: Sector, a: nat)
    requires a < CELLS
    ensures FlipCell(s, a) != s
  {
    hide FlipCell, Cell;
    FlippedCell(s, a, a);
  }

  /** One inverted code bit leaves the data alone. */
  lemma CodeBitIgnored(s: Sector, k: nat)
    requires k < 24
    ensures Repair(s, Damage(Code(s), k)) == Accepted(s)
  {
    hide Differ, CodeOf, Ones, Position, Damage;
    DamageShows(Code(s), k);
  }

  /** One inverted data bit and one inverted code bit are reported. */
  lemma DataAndCodeBitReported(s: Sector, a: nat, k: nat)
    requires a < CELLS && k < 24
    ensures Repair(FlipCell(s, a), Damage(Code(s), k)) == Rejected
  {
    hide FlipCell, Differ, Column, CodeOf, Ones, Position, Damage;
    CodeFlip(s, a);
    DifferDamaged(Code(s), Column(a), k);
    ColumnWeight(a);
    DamageWeight(Column(a), k);
  }

  /** Two inverted code bits are reported. */
  lemma TwoCodeBitsReported(s: Sector, j: nat, k: nat)
    requires j < k < 24
    ensures Repair(s, Damage(Damage(Code(s), j), k)) == Rejected
  {
    hide CodeOf, Position;
    var c := Code(s);
    var d := Differ(c, Damage(c, j));
    assert Differ(c, Damage(Damage(c, j), k)) == d[k := true];
    DamageShows(c, j);
    OnesFlip(d, k);
  }

  /** In how many bits two addresses differ. */
  function Distance(a: nat, b: nat): (h: nat)
    ensures h <= 12
  {
    Ones(Differ(BitsOf(a, 12), BitsOf(b, 12)))
  }

  lemma DistanceZero(a: nat, b: nat)
    requires a < CELLS && b < CELLS && Distance(a, b) == 0
    ensures a == b
  {
    hide BitsOf, Number;
    var x, y := BitsOf(a, 12), BitsOf(b, 12);
    OnesZero(Differ(x, y));
    forall i | 0 <= i < 12
      ensures x[i] == y[i]
    {
      assert !Differ(x, y)[i];
    }
    assert x == y;
    AddressInverse(a);
    AddressInverse(b);
  }

  lemma TwoColumns(a: nat, b: nat)
    ensures Ones(Differ(Column(a), Column(b))) == 2 * Distance(a, b)
  {
    hide BitsOf, Ones, Pairs, Twice, Differ;
    PairsDiffer(BitsOf(a, 12), BitsOf(b, 12));
    TwiceWeighs(Differ(BitsOf(a, 12), BitsOf(b, 12)));
  }

  lemma TwoFlipsSyndrome(s: Sector, a: nat, b: nat)
    requires a < CELLS && b < CELLS
    ensures Differ(Code(FlipCell(FlipCell(s, a), b)), Code(s)) == Differ(Column(a), Column(b))
  {
    hide FlipCell, Column, CodeOf;
    CodeFlip(s, a);
    CodeFlip(FlipCell(s, a), b);
  }

  /** Inverting a third cell cannot undo two distinct ones. */
  lemma ThreeFlipsDiffer(s: Sector, a: nat, b: nat, p: nat)
    requires a < CELLS && b < CELLS && p < CELLS && a != b
    ensures FlipCell(FlipCell(FlipCell(s, a), b), p) != s
  {
    hide FlipCell, Cell;
    var t, u := FlipCell(s, a), FlipCell(FlipCell(s, a), b);
    FlippedCell(s, a, a);
    FlippedCell(t, b, a);
    FlippedCell(u, p, a);
    FlippedCell(s, a, b);
    FlippedCell(t, b, b);
    FlippedCell(u, p, b);
  }

  /**
  Two inverted data bits are never restored: they are reported, unless their addresses differ
  in exactly six bits; then the sector is accepted with wrong data.
   */
  lemma TwoDataBits(s: Sector, a: nat, b: nat)
    requires a < CELLS && b < CELLS && a != b
    ensures var v := Repair(FlipCell(FlipCell(s, a), b), Code(s));
            && (v == Rejected <==> Distance(a, b) != 6)
            && (Distance(a, b) == 6 ==> v.Accepted? && v.data != s)
  {
    hide FlipCell, Column, CodeOf, Ones, Differ, Position, Distance;
    TwoFlipsSyndrome(s, a, b);
    TwoColumns(a, b);
    var syndrome := Differ(Column(a), Column(b));
    if Distance(a, b) == 0 {
      DistanceZero(a, b);
      assert false;
    }
    ThreeFlipsDiffer(s, a, b, Position(syndrome));
  }

  /** Two such bits: bit 0 of bytes 0 and 63. */
  lemma TwoBitsSlipThrough(s: Sector)
    ensures exists wrong :: wrong != s && Repair(FlipCell(FlipCell(s, 0), 63), Code(s)) == Accepted(wrong)
  {
    hide FlipCell, CodeOf, Position;
    SixBitsApart();
    TwoDataBits(s, 0, 63);
  }

  lemma {:induction false} OnesConcat(s: seq<bool>, t: seq<bool>)
    ensures Ones(s + t) == Ones(s) + Ones(t)
  {
    if s == [] {
      assert s + t == t;
    } else {
      OnesConcat(s[1..], t);
      assert (s + t)[1..] == s[1..] + t;
    }
  }

  function All(b: bool, n: nat): seq<bool> { seq(n, i => b) }

  /** 2^k - 1 written with k + n bits. */
  lemma {:induction false} BitsOfOnes(k: nat, n: nat)
    ensures BitsOf(Pow2(k) - 1, k + n) == All(true, k) + All(false, n)
  {
    if k != 0 {
      BitsOfOnes(k - 1, n);
      assert All(true, k) + All(false, n) == [true] + (All(true, k - 1) + All(false, n));
    } else if n != 0 {
      BitsOfOnes(0, n - 1);
      assert All(true, 0) + All(false, n) == [false] + (All(true, 0) + All(false, n - 1));
    }
  }

  lemma SizeSix()
    ensures Pow2(6) == 64 && Pow2(0) == 1
  {
    SizeThree();
  }

  lemma {:induction false} OnesAll(n: nat)
    ensures Ones(All(true, n)) == n && Ones(All(false, n)) == 0
  {
    if n != 0 {
      OnesAll(n - 1);
      assert All(true, n)[1..] == All(true, n - 1);
      assert All(false, n)[1..] == All(false, n - 1);
    }
  }

  lemma SixBitsApart()
    ensures Distance(0, 63) == 6
  {
    SizeSix();
    hide BitsOf, Ones, Pow2;
    BitsOfOnes(6, 6);
    BitsOfOnes(0, 12);
    var x, y := All(true, 0) + All(false, 12), All(true, 6) + All(false, 6);
    assert Differ(x, y) == y;
    OnesConcat(All(true, 6), All(false, 6));
    OnesAll(6);
  }
}
