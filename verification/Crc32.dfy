/**
lib/crc32.c: the table-driven CRC-32 on a little-endian host, in its three phases
(bytes up to a word boundary, whole words, trailing bytes), against the
bit-serial definition of section 8 of RFC 1952, and what that code detects.
 */
module Crc32 {
  import BigNum

  // ------------------------------------------------------------ the definition

  /** Multiply the register by x modulo the polynomial. */
  function BitStep(c: bv32): bv32
  {
    if c & 1 == 1 then 0xedb88320 ^ (c >> 1) else c >> 1
  }

  /** Exclusive or and shift, named so that proofs can treat them as symbols. */
  function Mix(c: bv32, v: bv32): bv32 { c ^ v }
  function Up(v: bv32): bv32 { v << 1 }

  function BitOf(b: bool): bv32 { if b then 1 else 0 }

  /** Take in one message bit. */
  function Feed(c: bv32, b: bool): bv32 { BitStep(Mix(c, BitOf(b))) }

  /** The shift register over a sequence of bits, first bit first. */
  function Register(c: bv32, bits: seq<bool>): bv32
    decreases |bits|
  {
    if bits == [] then c else Register(Feed(c, bits[0]), bits[1..])
  }

  /** A byte is sent least significant bit first. */
  function ByteBits(x: bv8): (bits: seq<bool>)
    ensures |bits| == 8
  {
    [x & 1 != 0, x & 2 != 0, x & 4 != 0, x & 8 != 0,
     x & 16 != 0, x & 32 != 0, x & 64 != 0, x & 128 != 0]
  }

  function Bits(s: seq<bv8>): (bits: seq<bool>)
    ensures |bits| == 8 * |s|
  {
    if s == [] then [] else ByteBits(s[0]) + Bits(s[1..])
  }

  function Flip(c: bv32): bv32 { c ^ 0xffff_ffff }

  /** The CRC-32 of a byte string, continued from `crc`. */
  function Crc(crc: bv32, s: seq<bv8>): bv32
  {
    Flip(Register(Flip(crc), Bits(s)))
  }

  lemma {:induction false} RegisterAppend(c: bv32, x: seq<bool>, y: seq<bool>)
    ensures Register(c, x + y) == Register(Register(c, x), y)
    decreases |x|
  {
    hide Feed;
    if x == [] {
      assert x + y == y;
    } else {
      assert (x + y)[1..] == x[1..] + y;
      RegisterAppend(Feed(c, x[0]), x[1..], y);
    }
  }

  // ------------------------------------------------------------ many bits at once

  function StepN(c: bv32, n: nat): bv32
    decreases n
  {
    if n == 0 then c else StepN(BitStep(c), n - 1)
  }

  function Push(b: bool, v: bv32): bv32 { Mix(BitOf(b), Up(v)) }

  /** The number whose bit i is bits[i]. */
  function BitsValue(bits: seq<bool>): bv32
    decreases |bits|
  {
    if bits == [] then 0 else Push(bits[0], BitsValue(bits[1..]))
  }

  /** The n low bits. */
  function Mask(n: nat): bv32
  {
    if n == 0 then 0 else (Mask(n - 1) << 1) ^ 1
  }

  predicate Clear(v: bv32) { v & 0x8000_0000 == 0 }

  lemma {:induction false} MaskGrows(n: nat)
    ensures Mask(n) & Mask(n + 1) == Mask(n)
  {
    if n != 0 {
      MaskGrows(n - 1);
    }
  }

  lemma {:induction false} MaskTop(n: nat)
    requires n <= 31
    ensures Mask(n) & 0x8000_0000 == 0
    decreases 31 - n
  {
    if n == 31 {
      assert Mask(8) == 0xff;
      assert Mask(16) == 0xffff;
      assert Mask(24) == 0xff_ffff;
      assert Mask(31) == 0x7fff_ffff;
    } else {
      MaskTop(n + 1);
      MaskGrows(n);
    }
  }

  lemma {:induction false} BitsValueMasked(bits: seq<bool>)
    ensures BitsValue(bits) & Mask(|bits|) == BitsValue(bits)
    decreases |bits|
  {
    hide Push;
    if bits != [] {
      BitsValueMasked(bits[1..]);
      PushMasked(bits[0], BitsValue(bits[1..]), Mask(|bits| - 1));
    }
  }

  lemma PushMasked(b: bool, v: bv32, m: bv32)
    requires v & m == v
    ensures Push(b, v) & ((m << 1) ^ 1) == Push(b, v)
  {
    if b {
    } else {
    }
  }

  lemma TopBitMasked(v: bv32, m: bv32)
    requires v & m == v && m & 0x8000_0000 == 0
    ensures Clear(v)
  {
  }

  lemma ShortValue(bits: seq<bool>)
    requires |bits| <= 31
    ensures Clear(BitsValue(bits))
  {
    hide BitsValue, Mask;
    BitsValueMasked(bits);
    MaskTop(|bits|);
    TopBitMasked(BitsValue(bits), Mask(|bits|));
  }

  /** Data above bit 0 is only shifted down, so it can be mixed in before or after. */
  lemma StepShift(c: bv32, v: bv32)
    requires Clear(v)
    ensures BitStep(Mix(c, Up(v))) == Mix(BitStep(c), v)
  {
    hide BitStep;
    RawStepShift(c, v);
  }

  lemma RawStepShift(c: bv32, v: bv32)
    requires v & 0x8000_0000 == 0
    ensures BitStep(c ^ (v << 1)) == BitStep(c) ^ v
  {
    if c & 1 == 1 {
    } else {
    }
  }

  lemma MixAssociative(a: bv32, b: bv32, c: bv32)
    ensures Mix(Mix(a, b), c) == Mix(a, Mix(b, c))
  {
  }

  lemma MixZero(c: bv32)
    ensures Mix(c, 0) == c
  {
  }

  lemma FeedPush(c: bv32, b: bool, v: bv32)
    requires Clear(v)
    ensures BitStep(Mix(c, Push(b, v))) == Mix(Feed(c, b), v)
  {
    hide BitStep, Mix, Up, BitOf, Clear;
    MixAssociative(c, BitOf(b), Up(v));
    StepShift(Mix(c, BitOf(b)), v);
  }

  /** Up to 32 bits can be added to the register at once instead of one by one. */
  lemma {:induction false} Absorb(c: bv32, bits: seq<bool>)
    requires |bits| <= 32
    ensures Register(c, bits) == StepN(Mix(c, BitsValue(bits)), |bits|)
    decreases |bits|
  {
    hide BitStep, Feed, Push, Mix, Clear;
    if bits == [] {
      MixZero(c);
    } else {
      var rest := bits[1..];
      ShortValue(rest);
      FeedPush(c, bits[0], BitsValue(rest));
      Absorb(Feed(c, bits[0]), rest);
    }
  }

  // ------------------------------------------------------------ bytes

  function Step8(c: bv32): bv32
  {
    BitStep(BitStep(BitStep(BitStep(BitStep(BitStep(BitStep(BitStep(c))))))))
  }

  function ByteStep(c: bv32, x: bv8): bv32 { Step8(Mix(c, x as bv32)) }

  function Bytes(c: bv32, s: seq<bv8>): bv32
    decreases |s|
  {
    if s == [] then c else Bytes(ByteStep(c, s[0]), s[1..])
  }

  lemma {:induction false} BytesAppend(c: bv32, x: seq<bv8>, y: seq<bv8>)
    ensures Bytes(c, x + y) == Bytes(Bytes(c, x), y)
    decreases |x|
  {
    hide ByteStep;
    if x == [] {
      assert x + y == y;
    } else {
      assert (x + y)[1..] == x[1..] + y;
      BytesAppend(ByteStep(c, x[0]), x[1..], y);
    }
  }

  lemma StepEight(c: bv32)
    ensures StepN(c, 8) == Step8(c)
  {
    hide BitStep;
    var c4 := BitStep(BitStep(BitStep(BitStep(c))));
    assert StepN(c, 8) == StepN(BitStep(BitStep(c)), 6) == StepN(c4, 4);
    assert StepN(c4, 4) == StepN(BitStep(BitStep(c4)), 2);
  }

  lemma BitsValueEight(b0: bool, b1: bool, b2: bool, b3: bool, b4: bool, b5: bool, b6: bool, b7: bool)
    ensures BitsValue([b0, b1, b2, b3, b4, b5, b6, b7])
         == Push(b0, Push(b1, Push(b2, Push(b3, Push(b4, Push(b5, Push(b6, Push(b7, 0))))))))
  {
    hide Push;
    assert [b0, b1, b2, b3, b4, b5, b6, b7][1..] == [b1, b2, b3, b4, b5, b6, b7];
    assert [b1, b2, b3, b4, b5, b6, b7][1..] == [b2, b3, b4, b5, b6, b7];
    assert [b2, b3, b4, b5, b6, b7][1..] == [b3, b4, b5, b6, b7];
    assert [b3, b4, b5, b6, b7][1..] == [b4, b5, b6, b7];
    BitsValueFour(b4, b5, b6, b7);
    assert BitsValue([b3, b4, b5, b6, b7]) == Push(b3, BitsValue([b4, b5, b6, b7]));
    assert BitsValue([b1, b2, b3, b4, b5, b6, b7]) == Push(b1, Push(b2, BitsValue([b3, b4, b5, b6, b7])));
  }

  lemma BitsValueFour(b4: bool, b5: bool, b6: bool, b7: bool)
    ensures BitsValue([b4, b5, b6, b7]) == Push(b4, Push(b5, Push(b6, Push(b7, 0))))
  {
    hide Push;
    assert [b4, b5, b6, b7][1..] == [b5, b6, b7];
    assert [b5, b6, b7][1..] == [b6, b7];
    assert [b6, b7][1..] == [b7];
    assert [b7][1..] == [];
    assert BitsValue([b7]) == Push(b7, 0);
    assert BitsValue([b6, b7]) == Push(b6, Push(b7, 0));
  }

  lemma ByteBitsValue(x: bv8)
    ensures BitsValue(ByteBits(x)) == x as bv32
  {
    hide BitsValue;
    BitsValueEight(x & 1 != 0, x & 2 != 0, x & 4 != 0, x & 8 != 0,
                   x & 16 != 0, x & 32 != 0, x & 64 != 0, x & 128 != 0);
  }

  /** Eight serial steps over a byte are one byte step. */
  lemma ByteIsEightBits(c: bv32, x: bv8)
    ensures Register(c, ByteBits(x)) == ByteStep(c, x)
  {
    hide Step8, BitsValue, ByteBits, StepN, Register, Mix;
    Absorb(c, ByteBits(x));
    ByteBitsValue(x);
    StepEight(Mix(c, x as bv32));
  }

  lemma {:induction false} BytesAreBits(c: bv32, s: seq<bv8>)
    ensures Bytes(c, s) == Register(c, Bits(s))
    decreases |s|
  {
    hide ByteStep, Feed, ByteBits;
    if s != [] {
      RegisterAppend(c, ByteBits(s[0]), Bits(s[1..]));
      ByteIsEightBits(c, s[0]);
      BytesAreBits(ByteStep(c, s[0]), s[1..]);
    }
  }

  // ------------------------------------------------------------ the table

  function Up4(h: bv32): bv32 { Up(Up(Up(Up(h)))) }

  lemma ClearUp4(h: bv32)
    requires h & 0xf000_0000 == 0
    ensures Clear(h) && Clear(Up(h)) && Clear(Up(Up(h))) && Clear(Up(Up(Up(h))))
  {
  }

  lemma Step4Shift(c: bv32, h: bv32)
    requires h & 0xf000_0000 == 0
    ensures BitStep(BitStep(BitStep(BitStep(Mix(c, Up4(h))))))
         == Mix(BitStep(BitStep(BitStep(BitStep(c)))), h)
  {
    ClearUp4(h);
    hide BitStep, Mix, Up, Clear;
    StepShift(c, Up(Up(Up(h))));
    StepShift(BitStep(c), Up(Up(h)));
    StepShift(BitStep(BitStep(c)), Up(h));
    StepShift(BitStep(BitStep(BitStep(c))), h);
  }

  lemma Up4Up4(h: bv32)
    requires h & 0xff00_0000 == 0
    ensures h & 0xf000_0000 == 0 && Up4(h) & 0xf000_0000 == 0 && Up4(Up4(h)) == h << 8
  {
  }

  /** Up to 24 bits above the byte being consumed are shifted down eight places. */
  lemma Step8Shift(c: bv32, h: bv32)
    requires h & 0xff00_0000 == 0
    ensures Step8(Mix(c, h << 8)) == Mix(Step8(c), h)
  {
    Up4Up4(h);
    hide BitStep, Mix, Up4;
    Step4Shift(c, Up4(h));
    Step4Shift(BitStep(BitStep(BitStep(BitStep(c)))), h);
  }

  lemma SplitLowByte(c: bv32, x: bv32)
    requires x & 0xffff_ff00 == 0
    ensures (c >> 8) & 0xff00_0000 == 0
    ensures Mix(c, x) == Mix((c ^ x) & 255, (c >> 8) << 8)
  {
  }

  lemma ByteRange(x: bv8)
    ensures (x as bv32) & 0xffff_ff00 == 0
  {
  }

  /** DO_CRC (crc32.c:167): one table lookup is one byte step. */
  lemma LookupIsByteStep(c: bv32, x: bv8)
    ensures Step8((c ^ x as bv32) & 255) ^ (c >> 8) == ByteStep(c, x)
  {
    hide Step8;
    ByteRange(x);
    SplitLowByte(c, x as bv32);
    Step8Shift((c ^ x as bv32) & 255, c >> 8);
  }

  /** The terms of the polynomial, without x^32 (crc32.c:63). */
  function Term(n: nat): (t: nat)
    requires n < 14
    ensures t <= 31
  {
    if n < 3 then n else if n < 5 then n + 1 else if n < 7 then n + 2
    else if n < 10 then n + 3 else if n == 10 then 16 else if n < 13 then n + 11 else 26
  }

  function Pattern(n: nat): bv32
    requires n <= 14
  {
    if n == 0 then 0 else Pattern(n - 1) | ((1 as bv32) << (31 - Term(n - 1)))
  }

  /** The exclusive-or pattern built from the terms is the published constant. */
  lemma PatternIsPoly()
    ensures Pattern(14) == 0xedb88320
  {
    assert Pattern(2) == 0xc000_0000;
    assert Pattern(4) == 0xe800_0000;
    assert Pattern(6) == 0xed00_0000;
    assert Pattern(8) == 0xeda0_0000;
    assert Pattern(10) == 0xedb8_0000;
    assert Pattern(12) == 0xedb8_8200;
  }

  ghost predicate IsTable(tab: seq<bv32>)
  {
    |tab| == 256 && forall n :: 0 <= n < 256 ==> tab[n] == Step8(n as bv32)
  }

  method MakeEntry(poly: bv32, n: nat) returns (c: bv32)
    requires poly == 0xedb88320 && n < 256
    ensures c == Step8(n as bv32)
  {
    c := n as bv32;
    ghost var start := c;
    var k := 0;
    while k < 8
      invariant 0 <= k <= 8
      invariant StepN(c, 8 - k) == StepN(start, 8)
    {
      ghost var before := c;
      c := if c & 1 == 1 then poly ^ (c >> 1) else c >> 1;
      assert c == BitStep(before);
      k := k + 1;
    }
    StepEight(start);
  }

  /** make_crc_table: entry n is the register after byte n. */
  method MakeCrcTable(tab: array<bv32>)
    requires tab.Length == 256
    modifies tab
    ensures IsTable(tab[..])
  {
    var poly := MakePattern();
    hide *;
    var n := 0;
    while n < 256
      invariant 0 <= n <= 256
      invariant forall j :: 0 <= j < n ==> tab[j] == Step8(j as bv32)
    {
      tab[n] := MakeEntry(poly, n);
      n := n + 1;
    }
    TableFrom(tab[..]);
  }

  method MakePattern() returns (poly: bv32)
    ensures poly == 0xedb88320
  {
    poly := 0;
    var n := 0;
    while n < 14
      invariant 0 <= n <= 14 && poly == Pattern(n)
    {
      poly := poly | (1 << (31 - Term(n)));
      n := n + 1;
    }
    PatternIsPoly();
  }

  lemma TableFrom(tab: seq<bv32>)
    requires |tab| == 256 && forall n :: 0 <= n < 256 ==> tab[n] == Step8(n as bv32)
    ensures IsTable(tab)
  {
    hide Step8;
  }

  // ------------------------------------------------------------ the three phases

  function DoCrc(tab: seq<bv32>, crc: bv32, x: bv8): bv32
    requires |tab| == 256
  {
    tab[((crc ^ x as bv32) & 255) as int] ^ (crc >> 8)
  }

  lemma DoCrcIsByteStep(tab: seq<bv32>, crc: bv32, x: bv8)
    requires IsTable(tab)
    ensures DoCrc(tab, crc, x) == ByteStep(crc, x)
  {
    hide Step8, ByteStep, IsTable;
    LowByte(crc ^ x as bv32);
    TableAt(tab, (crc ^ x as bv32) & 255);
    LookupIsByteStep(crc, x);
  }

  lemma LowByte(y: bv32)
    ensures y & 255 < 256
  {
  }

  lemma TableAt(tab: seq<bv32>, z: bv32)
    requires IsTable(tab) && z < 256
    ensures 0 <= z as int < |tab| && tab[z as int] == Step8(z)
  {
    hide Step8;
    assert (z as int) as bv32 == z;
  }

  /** A 32-bit little-endian load. */
  function Load(b: seq<bv8>): bv32
    requires |b| == 4
  {
    b[0] as bv32 | (b[1] as bv32 << 8) | (b[2] as bv32 << 16) | (b[3] as bv32 << 24)
  }

  lemma LoadMix(c: bv32, b0: bv8, b1: bv8, b2: bv8, b3: bv8)
    ensures var r2 := Mix(b2 as bv32, b3 as bv32 << 8);
            var r1 := Mix(b1 as bv32, r2 << 8);
            && (b3 as bv32) & 0xff00_0000 == 0 && r2 & 0xff00_0000 == 0 && r1 & 0xff00_0000 == 0
            && Mix(c, b0 as bv32 | (b1 as bv32 << 8) | (b2 as bv32 << 16) | (b3 as bv32 << 24))
               == Mix(Mix(c, b0 as bv32), r1 << 8)
  {
  }

  function Word(c: bv32): bv32 { Step8(Step8(Step8(Step8(c)))) }

  /** Adding a whole word and taking four zero-byte steps consumes its four bytes in order. */
  lemma WordIsFourBytes(c: bv32, b: seq<bv8>)
    requires |b| == 4
    ensures Word(Mix(c, Load(b))) == Bytes(c, b)
  {
    var b1, b2, b3 := b[1] as bv32, b[2] as bv32, b[3] as bv32;
    LoadMix(c, b[0], b[1], b[2], b[3]);
    hide Mix, Step8;
    var r2 := Mix(b2, b3 << 8);
    var r1 := Mix(b1, r2 << 8);
    var s1 := ByteStep(c, b[0]);
    Step8Shift(Mix(c, b[0] as bv32), r1);
    MixAssociative(s1, b1, r2 << 8);
    var s2 := ByteStep(s1, b[1]);
    Step8Shift(Mix(s1, b1), r2);
    MixAssociative(s2, b2, b3 << 8);
    Step8Shift(Mix(s2, b2), b3);
    FourBytes(c, b);
  }

  lemma FourBytes(c: bv32, b: seq<bv8>)
    requires |b| == 4
    ensures Bytes(c, b) == ByteStep(ByteStep(ByteStep(ByteStep(c, b[0]), b[1]), b[2]), b[3])
  {
    hide ByteStep;
    assert b[1..][1..] == b[2..] && b[2..][1..] == b[3..] && b[3..][1..] == [];
    var d := ByteStep(ByteStep(c, b[0]), b[1]);
    assert Bytes(c, b) == Bytes(d, b[2..]);
    var e := ByteStep(d, b[2]);
    assert Bytes(d, b[2..]) == Bytes(e, b[3..]);
    assert Bytes(e, b[3..]) == Bytes(ByteStep(e, b[3]), []);
  }

  lemma FourLookups(tab: seq<bv32>, c: bv32)
    requires IsTable(tab)
    ensures DoCrc(tab, DoCrc(tab, DoCrc(tab, DoCrc(tab, c, 0), 0), 0), 0) == Word(c)
  {
    hide DoCrc, Step8, Mix;
    ZeroLookup(tab, c);
    ZeroLookup(tab, Step8(c));
    ZeroLookup(tab, Step8(Step8(c)));
    ZeroLookup(tab, Step8(Step8(Step8(c))));
  }

  lemma ZeroLookup(tab: seq<bv32>, c: bv32)
    requires IsTable(tab)
    ensures DoCrc(tab, c, 0) == Step8(c)
  {
    hide Step8;
    DoCrcIsByteStep(tab, c, 0);
    MixZero(c);
  }

  lemma NextByte(tab: seq<bv32>, c: bv32, s: seq<bv8>, p: nat)
    requires IsTable(tab) && p < |s|
    ensures DoCrc(tab, Bytes(c, s[..p]), s[p]) == Bytes(c, s[..p + 1])
  {
    hide ByteStep, DoCrc;
    DoCrcIsByteStep(tab, Bytes(c, s[..p]), s[p]);
    assert s[..p + 1] == s[..p] + [s[p]];
    BytesAppend(c, s[..p], [s[p]]);
    assert [s[p]][1..] == [];
  }

  lemma NextWord(tab: seq<bv32>, c: bv32, s: seq<bv8>, p: nat)
    requires IsTable(tab) && p + 4 <= |s|
    ensures DoCrc(tab, DoCrc(tab, DoCrc(tab, DoCrc(tab, Mix(Bytes(c, s[..p]), Load(s[p..p + 4])), 0), 0), 0), 0)
         == Bytes(c, s[..p + 4])
  {
    TableSize(tab);
    hide *;
    var d, b := Bytes(c, s[..p]), s[p..p + 4];
    FourLookups(tab, Mix(d, Load(b)));
    WordIsFourBytes(d, b);
    assert s[..p + 4] == s[..p] + b;
    BytesAppend(c, s[..p], b);
  }

  /** crc32_no_comp on a buffer at address `addr`; word loads are aligned. */
  method Crc32NoComp(tab: seq<bv32>, crc: bv32, buf: seq<bv8>, addr: nat) returns (r: bv32)
    requires IsTable(tab)
    ensures r == Register(crc, Bits(buf))
  {
    hide *;
    TableSize(tab);
    r := crc;
    var p: nat := 0;
    var len: nat := |buf|;
    StartBytes(crc, buf);
    if addr % 4 != 0 && len != 0 {
      NextByte(tab, crc, buf, p);
      r := DoCrc(tab, r, buf[p]);
      p, len := p + 1, len - 1;
      while len != 0 && (addr + p) % 4 != 0
        invariant p + len == |buf| && r == Bytes(crc, buf[..p])
      {
        NextByte(tab, crc, buf, p);
        r := DoCrc(tab, r, buf[p]);
        p, len := p + 1, len - 1;
      }
    }
    var rem_len: nat := len % 4;
    len := len / 4;
    while len != 0
      invariant p + 4 * len + rem_len == |buf| && r == Bytes(crc, buf[..p])
      invariant len != 0 ==> (addr + p) % 4 == 0
    {
      NextWord(tab, crc, buf, p);
      r := Mix(r, Load(buf[p..p + 4]));
      r := DoCrc(tab, r, 0);
      r := DoCrc(tab, r, 0);
      r := DoCrc(tab, r, 0);
      r := DoCrc(tab, r, 0);
      p, len := p + 4, len - 1;
    }
    len := rem_len;
    while len != 0
      invariant p + len == |buf| && r == Bytes(crc, buf[..p])
    {
      NextByte(tab, crc, buf, p);
      r := DoCrc(tab, r, buf[p]);
      p, len := p + 1, len - 1;
    }
    assert buf[..p] == buf;
    BytesAreBits(crc, buf);
  }

  lemma TableSize(tab: seq<bv32>)
    requires IsTable(tab)
    ensures |tab| == 256
  {
  }

  lemma StartBytes(crc: bv32, buf: seq<bv8>)
    ensures Bytes(crc, buf[..0]) == crc
  {
  }

  /** crc32: the complemented form. */
  method ComputeCrc32(tab: seq<bv32>, crc: bv32, buf: seq<bv8>, addr: nat) returns (r: bv32)
    requires IsTable(tab)
    ensures r == Crc(crc, buf)
  {
    r := Crc32NoComp(tab, Flip(crc), buf, addr);
    r := Flip(r);
  }

  lemma {:induction false} BitsAppend(x: seq<bv8>, y: seq<bv8>)
    ensures Bits(x + y) == Bits(x) + Bits(y)
  {
    hide ByteBits;
    if x == [] {
      assert x + y == y;
    } else {
      assert (x + y)[1..] == x[1..] + y;
      BitsAppend(x[1..], y);
    }
  }

  lemma FlipTwice(c: bv32)
    ensures Flip(Flip(c)) == c
  {
  }

  /** A CRC can be continued over a further buffer. */
  lemma CrcAppend(c: bv32, x: seq<bv8>, y: seq<bv8>)
    ensures Crc(Crc(c, x), y) == Crc(c, x + y)
  {
    hide Register, Bits, Flip;
    var d := Flip(c);
    FlipTwice(Register(d, Bits(x)));
    BitsAppend(x, y);
    RegisterAppend(d, Bits(x), Bits(y));
  }

  /** An int compared with an unsigned. */
  function Unsigned(x: int): int { if x < 0 then x + 0x1_0000_0000 else x }

  /** crc32_wd: the same checksum, taken in chunks so that the watchdog can be fed. A chunk is an
      int, negative from 2^31 on; added to a 32-bit address it still moves on by the chunk. The watchdog is
      fed once for every full chunk and once for the rest. */
  method Crc32Watchdog(tab: seq<bv32>, crc: bv32, buf: seq<bv8>, addr: nat, chunkSize: nat) returns (r: bv32, feeds: nat)
    requires IsTable(tab) && 0 < chunkSize < 0x1_0000_0000 && addr + |buf| < 0x1_0000_0000
    ensures r == Crc(crc, buf)
    ensures (feeds - 1) * chunkSize < |buf| <= feeds * chunkSize
  {
    hide Crc, IsTable, Fed, BigNum.Signed, Unsigned;
    r, feeds := crc, 0;
    FedStart(chunkSize, |buf|);
    var curr, end := addr, addr + |buf|;
    CrcEmpty(crc);
    while curr < end
      invariant addr <= curr <= end && r == Crc(crc, buf[..curr - addr])
      invariant Fed(feeds, chunkSize, curr - addr, |buf|)
      decreases end - curr
    {
      UnsignedBack(end - curr);
      UnsignedBack(chunkSize);
      var chunk := BigNum.Signed(end - curr);
      if Unsigned(chunk) > chunkSize {
        chunk := BigNum.Signed(chunkSize);
      }
      var p, n := curr - addr, Unsigned(chunk);
      CrcAppend(crc, buf[..p], buf[p..p + n]);
      assert buf[..p + n] == buf[..p] + buf[p..p + n];
      r := ComputeCrc32(tab, r, buf[p..p + n], curr);
      MovesOn(curr, n);
      curr := (curr + chunk) % 0x1_0000_0000;
      FedNext(feeds, chunkSize, p, |buf|, n);
      feeds := feeds + 1;
    }
    FedAll(feeds, chunkSize, |buf|);
    assert buf[..end - addr] == buf;
  }

  lemma UnsignedBack(n: nat)
    requires n < 0x1_0000_0000
    ensures Unsigned(BigNum.Signed(n)) == n
  {
  }

  lemma MovesOn(curr: nat, n: nat)
    requires curr + n < 0x1_0000_0000
    ensures (curr + BigNum.Signed(n)) % 0x1_0000_0000 == curr + n
  {
  }

  /** After `feeds` chunks `done` bytes of `total` have been taken. */
  predicate Fed(feeds: nat, size: nat, done: nat, total: nat)
  {
    if done < total then done == feeds * size else (feeds - 1) * size < total <= feeds * size
  }

  lemma FedStart(size: nat, total: nat)
    requires size > 0
    ensures Fed(0, size, 0, total)
  {
  }

  lemma FedNext(feeds: nat, size: nat, done: nat, total: nat, n: nat)
    requires Fed(feeds, size, done, total) && done < total && n == if total - done > size then size else total - done
    ensures Fed(feeds + 1, size, done + n, total)
  {
    assert (feeds + 1) * size == feeds * size + size;
    assert feeds + 1 - 1 == feeds;
  }

  lemma FedAll(feeds: nat, size: nat, total: nat)
    requires Fed(feeds, size, total, total)
    ensures (feeds - 1) * size < total <= feeds * size
  {
  }

  lemma CrcEmpty(c: bv32)
    ensures Crc(c, []) == c
  {
    FlipTwice(c);
  }

  // ------------------------------------------------------------ error detection

  /** Undoes a register step; the polynomial's top bit tells the two cases apart. */
  function Unstep(d: bv32): bv32
  {
    if d & 0x8000_0000 != 0 then ((d ^ 0xedb88320) << 1) ^ 1 else d << 1
  }

  lemma UnstepStep(c: bv32)
    ensures Unstep(BitStep(c)) == c
  {
  }

  lemma {:induction false} StepNInjective(c: bv32, d: bv32, n: nat)
    requires StepN(c, n) == StepN(d, n)
    ensures c == d
    decreases n
  {
    hide BitStep, Unstep;
    if n != 0 {
      StepNInjective(BitStep(c), BitStep(d), n - 1);
      UnstepStep(c);
      UnstepStep(d);
    }
  }

  lemma MixInjective(c: bv32, v: bv32, w: bv32)
    ensures Mix(c, v) == Mix(c, w) <==> v == w
    ensures Mix(v, c) == Mix(w, c) <==> v == w
  {
  }

  lemma {:induction false} RegisterInjective(c: bv32, d: bv32, bits: seq<bool>)
    requires Register(c, bits) == Register(d, bits)
    ensures c == d
    decreases |bits|
  {
    hide BitStep, Unstep, Mix;
    if bits != [] {
      RegisterInjective(Feed(c, bits[0]), Feed(d, bits[0]), bits[1..]);
      UnstepStep(Mix(c, BitOf(bits[0])));
      UnstepStep(Mix(d, BitOf(bits[0])));
      MixInjective(BitOf(bits[0]), c, d);
    }
  }

  lemma PushInjective(b: bool, c: bool, v: bv32, w: bv32)
    requires Clear(v) && Clear(w) && Push(b, v) == Push(c, w)
    ensures b == c && v == w
  {
  }

  lemma {:induction false} BitsValueInjective(x: seq<bool>, y: seq<bool>)
    requires |x| == |y| <= 32 && BitsValue(x) == BitsValue(y)
    ensures x == y
    decreases |x|
  {
    hide Push, Clear;
    if x != [] {
      ShortValue(x[1..]);
      ShortValue(y[1..]);
      PushInjective(x[0], y[0], BitsValue(x[1..]), BitsValue(y[1..]));
      BitsValueInjective(x[1..], y[1..]);
      assert x == [x[0]] + x[1..] && y == [y[0]] + y[1..];
    }
  }

  /** Bit strings that differ only inside a window of 32 bits leave different registers. */
  lemma RegisterDetectsBurst(c: bv32, x: seq<bool>, y: seq<bool>, from: nat, to: nat)
    requires |x| == |y| && from <= to <= |x| && to - from <= 32
    requires x[..from] == y[..from] && x[to..] == y[to..] && x != y
    ensures Register(c, x) != Register(c, y)
  {
    hide Register, BitsValue, StepN, Mix;
    var pre, post := x[..from], x[to..];
    var u, v := x[from..to], y[from..to];
    assert x == pre + (u + post) && y == pre + (v + post);
    var d := Register(c, pre);
    RegisterAppend(c, pre, u + post);
    RegisterAppend(c, pre, v + post);
    RegisterAppend(d, u, post);
    RegisterAppend(d, v, post);
    if Register(c, x) == Register(c, y) {
      RegisterInjective(Register(d, u), Register(d, v), post);
      Absorb(d, u);
      Absorb(d, v);
      StepNInjective(Mix(d, BitsValue(u)), Mix(d, BitsValue(v)), |u|);
      MixInjective(d, BitsValue(u), BitsValue(v));
      BitsValueInjective(u, v);
      assert false;
    }
  }

  /** The same for the checksum of two byte strings: every burst of at most 32 bits is noticed. */
  lemma CrcDetectsBurst(c: bv32, x: seq<bv8>, y: seq<bv8>, from: nat, to: nat)
    requires |x| == |y| && from <= to <= 8 * |x| && to - from <= 32
    requires Bits(x)[..from] == Bits(y)[..from] && Bits(x)[to..] == Bits(y)[to..] && x != y
    ensures Crc(c, x) != Crc(c, y)
  {
    hide Register, Bits, Flip;
    BitsInjective(x, y);
    var d := Flip(c);
    RegisterDetectsBurst(d, Bits(x), Bits(y), from, to);
    FlipTwice(Register(d, Bits(x)));
    FlipTwice(Register(d, Bits(y)));
  }

  lemma {:induction false} BitsInjective(x: seq<bv8>, y: seq<bv8>)
    requires |x| == |y|
    ensures Bits(x) == Bits(y) ==> x == y
  {
    hide ByteBits;
    if x != [] && Bits(x) == Bits(y) {
      assert ByteBits(x[0]) == Bits(x)[..8] == Bits(y)[..8] == ByteBits(y[0]);
      assert Bits(x[1..]) == Bits(x)[8..] == Bits(y)[8..] == Bits(y[1..]);
      ByteBitsValue(x[0]);
      ByteBitsValue(y[0]);
      ByteWidens(x[0], y[0]);
      BitsInjective(x[1..], y[1..]);
      assert x == [x[0]] + x[1..] && y == [y[0]] + y[1..];
    }
  }

  lemma ByteWidens(x: bv8, y: bv8)
    requires x as bv32 == y as bv32
    ensures x == y
  {
  }

  /** Four consecutive bytes are one such window. */
  lemma CrcDetectsFourBytes(c: bv32, x: seq<bv8>, y: seq<bv8>, p: nat)
    requires |x| == |y| && x != y
    requires forall i :: 0 <= i < |x| && !(p <= i < p + 4) ==> x[i] == y[i]
    ensures Crc(c, x) != Crc(c, y)
  {
    hide Crc, Bits;
    var from := if p <= |x| then p else |x|;
    var to := if p + 4 <= |x| then p + 4 else |x|;
    assert x[..from] == y[..from] && x[to..] == y[to..];
    BitsSlice(x, from);
    BitsSlice(y, from);
    BitsSlice(x, to);
    BitsSlice(y, to);
    CrcDetectsBurst(c, x, y, 8 * from, 8 * to);
  }

  lemma BitsSlice(x: seq<bv8>, k: nat)
    requires k <= |x|
    ensures Bits(x)[..8 * k] == Bits(x[..k]) && Bits(x)[8 * k..] == Bits(x[k..])
  {
    hide Bits;
    BitsAppend(x[..k], x[k..]);
    assert x == x[..k] + x[k..];
  }

  // ------------------------------------------------------------ bytes and words as numbers

  lemma LowByteBack(x: int)
    requires 0 <= x < 128
    ensures (x as bv8) as int == x
  {
    if x < 16 {
    } else if x < 32 {
    } else if x < 48 {
    } else if x < 64 {
    } else if x < 80 {
    } else if x < 96 {
    } else if x < 112 {
    } else {
    }
  }

  lemma HighByteBack(x: int)
    requires 128 <= x < 256
    ensures (x as bv8) as int == x
  {
    if x < 144 {
    } else if x < 160 {
    } else if x < 176 {
    } else if x < 192 {
    } else if x < 208 {
    } else if x < 224 {
    } else if x < 240 {
    } else {
    }
  }

  lemma ByteBack(x: int)
    requires 0 <= x < 256
    ensures (x as bv8) as int == x
  {
    if x < 128 {
      LowByteBack(x);
    } else {
      HighByteBack(x);
    }
  }

  lemma WordBack(c: bv32, d: bv32)
    requires c as int == d as int
    ensures c == d
  {
    assert (c as int) as bv32 == c && (d as int) as bv32 == d;
  }

  // ------------------------------------------------------------ linearity

  function Half(c: bv32): bv32 { c >> 1 }
  predicate Odd(c: bv32) { c & 1 == 1 }

  lemma BitStepHalf(c: bv32)
    ensures BitStep(c) == if Odd(c) then Mix(0xedb88320, Half(c)) else Half(c)
  {
  }

  lemma HalfLinear(a: bv32, b: bv32)
    ensures Half(Mix(a, b)) == Mix(Half(a), Half(b))
    ensures Odd(Mix(a, b)) <==> Odd(a) != Odd(b)
  {
  }

  lemma MixSwap(p: bv32, a: bv32, b: bv32)
    ensures Mix(p, Mix(a, b)) == Mix(a, Mix(p, b))
  {
  }

  lemma MixSelf(p: bv32, b: bv32)
    ensures Mix(p, Mix(p, b)) == b
  {
  }

  lemma BitStepLinear(a: bv32, b: bv32)
    ensures BitStep(Mix(a, b)) == Mix(BitStep(a), BitStep(b))
  {
    BitStepHalf(a);
    BitStepHalf(b);
    BitStepHalf(Mix(a, b));
    HalfLinear(a, b);
    MixAssociative(0xedb88320, Half(a), Half(b));
    MixSwap(0xedb88320, Half(a), Half(b));
    MixAssociative(0xedb88320, Half(a), Mix(0xedb88320, Half(b)));
    MixSwap(Half(a), 0xedb88320, Half(b));
    MixSelf(0xedb88320, Mix(Half(a), Half(b)));
    hide BitStep, Mix, Half, Odd;
  }

  /** A byte's entry is the exclusive or of the entries of its two halves. */
  lemma Step8Linear(a: bv32, b: bv32)
    ensures Step8(Mix(a, b)) == Mix(Step8(a), Step8(b))
  {
    var a1, b1 := BitStep(a), BitStep(b);
    var a2, b2 := BitStep(a1), BitStep(b1);
    var a3, b3 := BitStep(a2), BitStep(b2);
    var a4, b4 := BitStep(a3), BitStep(b3);
    var a5, b5 := BitStep(a4), BitStep(b4);
    var a6, b6 := BitStep(a5), BitStep(b5);
    var a7, b7 := BitStep(a6), BitStep(b6);
    hide BitStep, Mix;
    BitStepLinear(a, b);
    BitStepLinear(a1, b1);
    BitStepLinear(a2, b2);
    BitStepLinear(a3, b3);
    BitStepLinear(a4, b4);
    BitStepLinear(a5, b5);
    BitStepLinear(a6, b6);
    BitStepLinear(a7, b7);
  }

  function Xor8(x: bv8, y: bv8): bv8 { x ^ y }

  /** The change between two strings. */
  function Change(x: seq<bv8>, y: seq<bv8>): (z: seq<bv8>)
    requires |x| == |y|
    ensures |z| == |x|
  {
    seq(|x|, i requires 0 <= i < |x| => Xor8(x[i], y[i]))
  }

  lemma Xor8Wide(x: bv8, y: bv8)
    ensures Xor8(x, y) as bv32 == Mix(x as bv32, y as bv32)
  {
  }

  lemma MixFour(a: bv32, b: bv32, x: bv32, y: bv32)
    ensures Mix(Mix(a, x), Mix(b, y)) == Mix(Mix(a, b), Mix(x, y))
  {
    MixAssociative(a, x, Mix(b, y));
    MixSwap(x, b, y);
    MixAssociative(a, b, Mix(x, y));
    hide Mix;
  }

  lemma ByteStepLinear(a: bv32, b: bv32, u: bv8, v: bv8)
    ensures Mix(ByteStep(a, u), ByteStep(b, v)) == ByteStep(Mix(a, b), Xor8(u, v))
  {
    Xor8Wide(u, v);
    MixFour(a, b, u as bv32, v as bv32);
    Step8Linear(Mix(a, u as bv32), Mix(b, v as bv32));
    hide Step8, Mix, Xor8;
  }

  lemma {:induction false} BytesLinear(a: bv32, b: bv32, x: seq<bv8>, y: seq<bv8>)
    requires |x| == |y|
    ensures Mix(Bytes(a, x), Bytes(b, y)) == Bytes(Mix(a, b), Change(x, y))
    decreases |x|
  {
    hide ByteStep, Mix, Xor8;
    if x != [] {
      ByteStepLinear(a, b, x[0], y[0]);
      BytesLinear(ByteStep(a, x[0]), ByteStep(b, y[0]), x[1..], y[1..]);
      assert Change(x, y)[1..] == Change(x[1..], y[1..]);
    }
  }

  /** The difference of two checksums depends on the change alone. */
  lemma CrcChange(x: seq<bv8>, y: seq<bv8>)
    requires |x| == |y|
    ensures Mix(Crc(0, x), Crc(0, y)) == Bytes(0, Change(x, y))
  {
    BytesAreBits(Flip(0), x);
    BytesAreBits(Flip(0), y);
    BytesLinear(Flip(0), Flip(0), x, y);
    FlipBoth(Bytes(Flip(0), x), Bytes(Flip(0), y));
    MixNone(Flip(0));
    hide Bytes, Mix, Flip, Register;
  }

  lemma MixNone(a: bv32)
    ensures Mix(a, a) == 0
  {
  }

  function Step8N(d: bv32, n: nat): bv32
    decreases n
  {
    if n == 0 then d else Step8N(Step8(d), n - 1)
  }

  /** Behind a difference, equal bytes carry it on. */
  lemma {:induction false} BytesDelta(a: bv32, b: bv32, s: seq<bv8>)
    ensures Mix(Bytes(a, s), Bytes(b, s)) == Step8N(Mix(a, b), |s|)
    decreases |s|
  {
    hide Step8, Mix;
    if s != [] {
      StepDelta(a, b, s[0] as bv32);
      BytesDelta(ByteStep(a, s[0]), ByteStep(b, s[0]), s[1..]);
    }
  }

  lemma StepDelta(a: bv32, b: bv32, x: bv32)
    ensures Mix(Step8(Mix(a, x)), Step8(Mix(b, x))) == Step8(Mix(a, b))
  {
    Step8Linear(Mix(a, x), Mix(b, x));
    MixCommon(a, b, x);
    hide Step8, Mix;
  }

  lemma MixCommon(a: bv32, b: bv32, x: bv32)
    ensures Mix(Mix(a, x), Mix(b, x)) == Mix(a, b)
  {
    MixCommute(b, x);
    MixAssociative(a, x, Mix(x, b));
    MixSelf(x, b);
    hide Mix;
  }

  lemma MixCommute(a: bv32, b: bv32)
    ensures Mix(a, b) == Mix(b, a)
  {
  }

  lemma {:induction false} Step8NAdd(d: bv32, m: nat, n: nat)
    ensures Step8N(d, m + n) == Step8N(Step8N(d, m), n)
    decreases m
  {
    hide Step8;
    if m != 0 {
      Step8NAdd(Step8(d), m - 1, n);
    }
  }

  lemma Twelve0()
    ensures Step8N(0x0000_0068, 12) == 0x2e5e_1af6
  {
    assert Step8(0x0000_0068) == 0x4369_e96a;
    assert Step8(0x4369_e96a) == 0xad24_e1af;
    assert Step8(0xad24_e1af) == 0x46c4_9a98;
    assert Step8(0x46c4_9a98) == 0xfe92_dfec;
    assert Step8(0xfe92_dfec) == 0xa942_3c8c;
    assert Step8(0xa942_3c8c) == 0xe4a7_8d37;
    assert Step8(0xe4a7_8d37) == 0xb859_0282;
    assert Step8(0xb859_0282) == 0x030e_bb0e;
    assert Step8(0x030e_bb0e) == 0xe7bb_23bc;
    assert Step8(0xe7bb_23bc) == 0xc230_4484;
    assert Step8(0xc230_4484) == 0xea17_777d;
    assert Step8(0xea17_777d) == 0x2e5e_1af6;
    hide Step8;
    assert Step8N(0xea17_777d, 1) == 0x2e5e_1af6;
    assert Step8N(0xc230_4484, 2) == 0x2e5e_1af6;
    assert Step8N(0xe7bb_23bc, 3) == 0x2e5e_1af6;
    assert Step8N(0x030e_bb0e, 4) == 0x2e5e_1af6;
    assert Step8N(0xb859_0282, 5) == 0x2e5e_1af6;
    assert Step8N(0xe4a7_8d37, 6) == 0x2e5e_1af6;
    assert Step8N(0xa942_3c8c, 7) == 0x2e5e_1af6;
    assert Step8N(0xfe92_dfec, 8) == 0x2e5e_1af6;
    assert Step8N(0x46c4_9a98, 9) == 0x2e5e_1af6;
    assert Step8N(0xad24_e1af, 10) == 0x2e5e_1af6;
    assert Step8N(0x4369_e96a, 11) == 0x2e5e_1af6;
    assert Step8N(0x0000_0068, 12) == 0x2e5e_1af6;
  }

  lemma Twelve1()
    ensures Step8N(0x2e5e_1af6, 12) == 0x0a07_3871
  {
    assert Step8(0x2e5e_1af6) == 0x54f0_0933;
    assert Step8(0x54f0_0933) == 0xbf84_911f;
    assert Step8(0xbf84_911f) == 0x8db7_8964;
    assert Step8(0x8db7_8964) == 0x4a52_12c8;
    assert Step8(0x4a52_12c8) == 0x95f5_1890;
    assert Step8(0x95f5_1890) == 0xf09a_665c;
    assert Step8(0xf09a_665c) == 0x622d_87b9;
    assert Step8(0x622d_87b9) == 0xb2df_26af;
    assert Step8(0xb2df_26af) == 0x46db_615f;
    assert Step8(0x46db_615f) == 0xfb92_9704;
    assert Step8(0xfb92_9704) == 0x0796_568e;
    assert Step8(0x0796_568e) == 0x0a07_3871;
    hide Step8;
    assert Step8N(0x0796_568e, 1) == 0x0a07_3871;
    assert Step8N(0xfb92_9704, 2) == 0x0a07_3871;
    assert Step8N(0x46db_615f, 3) == 0x0a07_3871;
    assert Step8N(0xb2df_26af, 4) == 0x0a07_3871;
    assert Step8N(0x622d_87b9, 5) == 0x0a07_3871;
    assert Step8N(0xf09a_665c, 6) == 0x0a07_3871;
    assert Step8N(0x95f5_1890, 7) == 0x0a07_3871;
    assert Step8N(0x4a52_12c8, 8) == 0x0a07_3871;
    assert Step8N(0x8db7_8964, 9) == 0x0a07_3871;
    assert Step8N(0xbf84_911f, 10) == 0x0a07_3871;
    assert Step8N(0x54f0_0933, 11) == 0x0a07_3871;
    assert Step8N(0x2e5e_1af6, 12) == 0x0a07_3871;
  }

  lemma Twelve2()
    ensures Step8N(0x0a07_3871, 12) == 0x5ab4_f625
  {
    assert Step8(0x0a07_3871) == 0x2708_4692;
    assert Step8(0x2708_4692) == 0x1e26_fa2e;
    assert Step8(0x1e26_fa2e) == 0xdcc8_2b35;
    assert Step8(0xdcc8_2b35) == 0x566f_0c08;
    assert Step8(0x566f_0c08) == 0x0e8d_e73e;
    assert Step8(0x0e8d_e73e) == 0xc16f_904c;
    assert Step8(0xc16f_904c) == 0x7fab_622b;
    assert Step8(0x7fab_622b) == 0xacc3_5222;
    assert Step8(0xacc3_5222) == 0xd5cc_82b6;
    assert Step8(0xd5cc_82b6) == 0x22d7_da3b;
    assert Step8(0x22d7_da3b) == 0xb129_3efe;
    assert Step8(0xb129_3efe) == 0x5ab4_f625;
    hide Step8;
    assert Step8N(0xb129_3efe, 1) == 0x5ab4_f625;
    assert Step8N(0x22d7_da3b, 2) == 0x5ab4_f625;
    assert Step8N(0xd5cc_82b6, 3) == 0x5ab4_f625;
    assert Step8N(0xacc3_5222, 4) == 0x5ab4_f625;
    assert Step8N(0x7fab_622b, 5) == 0x5ab4_f625;
    assert Step8N(0xc16f_904c, 6) == 0x5ab4_f625;
    assert Step8N(0x0e8d_e73e, 7) == 0x5ab4_f625;
    assert Step8N(0x566f_0c08, 8) == 0x5ab4_f625;
    assert Step8N(0xdcc8_2b35, 9) == 0x5ab4_f625;
    assert Step8N(0x1e26_fa2e, 10) == 0x5ab4_f625;
    assert Step8N(0x2708_4692, 11) == 0x5ab4_f625;
    assert Step8N(0x0a07_3871, 12) == 0x5ab4_f625;
  }

  lemma Twelve3()
    ensures Step8N(0x5ab4_f625, 12) == 0x8185_e16c
  {
    assert Step8(0x5ab4_f625) == 0x4b5e_60b1;
    assert Step8(0x4b5e_60b1) == 0xbc2d_dd7a;
    assert Step8(0xbc2d_dd7a) == 0xb06c_b5ff;
    assert Step8(0xb06c_b5ff) == 0x2db2_8338;
    assert Step8(0x2db2_8338) == 0x282f_0a1d;
    assert Step8(0x282f_0a1d) == 0x632e_43d3;
    assert Step8(0x632e_43d3) == 0x1fb9_ad2d;
    assert Step8(0x1fb9_ad2d) == 0x45c0_e5d8;
    assert Step8(0x45c0_e5d8) == 0x884d_9a03;
    assert Step8(0x884d_9a03) == 0x9981_1c20;
    assert Step8(0x9981_1c20) == 0x3bf7_a1d4;
    assert Step8(0x3bf7_a1d4) == 0x8185_e16c;
    hide Step8;
    assert Step8N(0x3bf7_a1d4, 1) == 0x8185_e16c;
    assert Step8N(0x9981_1c20, 2) == 0x8185_e16c;
    assert Step8N(0x884d_9a03, 3) == 0x8185_e16c;
    assert Step8N(0x45c0_e5d8, 4) == 0x8185_e16c;
    assert Step8N(0x1fb9_ad2d, 5) == 0x8185_e16c;
    assert Step8N(0x632e_43d3, 6) == 0x8185_e16c;
    assert Step8N(0x282f_0a1d, 7) == 0x8185_e16c;
    assert Step8N(0x2db2_8338, 8) == 0x8185_e16c;
    assert Step8N(0xb06c_b5ff, 9) == 0x8185_e16c;
    assert Step8N(0xbc2d_dd7a, 10) == 0x8185_e16c;
    assert Step8N(0x4b5e_60b1, 11) == 0x8185_e16c;
    assert Step8N(0x5ab4_f625, 12) == 0x8185_e16c;
  }

  lemma Twelve4()
    ensures Step8N(0x8185_e16c, 12) == 0xbae1_8ba7
  {
    assert Step8(0x8185_e16c) == 0x4485_a892;
    assert Step8(0x4485_a892) == 0x1e45_77c0;
    assert Step8(0x1e45_77c0) == 0x9b7a_87c7;
    assert Step8(0x9b7a_87c7) == 0x059b_2d94;
    assert Step8(0x059b_2d94) == 0xf767_cc70;
    assert Step8(0xf767_cc70) == 0x50f2_16f0;
    assert Step8(0x50f2_16f0) == 0xbded_000a;
    assert Step8(0xbded_000a) == 0xe068_041e;
    assert Step8(0xe068_041e) == 0xfaef_5567;
    assert Step8(0xfaef_5567) == 0xd32c_1bae;
    assert Step8(0xd32c_1bae) == 0x31bd_a2f4;
    assert Step8(0x31bd_a2f4) == 0xbae1_8ba7;
    hide Step8;
    assert Step8N(0x31bd_a2f4, 1) == 0xbae1_8ba7;
    assert Step8N(0xd32c_1bae, 2) == 0xbae1_8ba7;
    assert Step8N(0xfaef_5567, 3) == 0xbae1_8ba7;
    assert Step8N(0xe068_041e, 4) == 0xbae1_8ba7;
    assert Step8N(0xbded_000a, 5) == 0xbae1_8ba7;
    assert Step8N(0x50f2_16f0, 6) == 0xbae1_8ba7;
    assert Step8N(0xf767_cc70, 7) == 0xbae1_8ba7;
    assert Step8N(0x059b_2d94, 8) == 0xbae1_8ba7;
    assert Step8N(0x9b7a_87c7, 9) == 0xbae1_8ba7;
    assert Step8N(0x1e45_77c0, 10) == 0xbae1_8ba7;
    assert Step8N(0x4485_a892, 11) == 0xbae1_8ba7;
    assert Step8N(0x8185_e16c, 12) == 0xbae1_8ba7;
  }

  lemma Twelve5()
    ensures Step8N(0xbae1_8ba7, 12) == 0x5dc4_c300
  {
    assert Step8(0xbae1_8ba7) == 0x4808_d7c0;
    assert Step8(0x4808_d7c0) == 0x9b2c_ca67;
    assert Step8(0x9b2c_ca67) == 0xd34d_d831;
    assert Step8(0xd34d_d831) == 0x510d_4de2;
    assert Step8(0x510d_4de2) == 0x4e55_8e19;
    assert Step8(0x4e55_8e19) == 0x6425_fd4e;
    assert Step8(0x6425_fd4e) == 0x9100_496a;
    assert Step8(0x9100_496a) == 0xadf6_880f;
    assert Step8(0xadf6_880f) == 0x9012_eb19;
    assert Step8(0x9012_eb19) == 0x64fb_ba2b;
    assert Step8(0x64fb_ba2b) == 0xacd8_02fa;
    assert Step8(0xacd8_02fa) == 0x5dc4_c300;
    hide Step8;
    assert Step8N(0xacd8_02fa, 1) == 0x5dc4_c300;
    assert Step8N(0x64fb_ba2b, 2) == 0x5dc4_c300;
    assert Step8N(0x9012_eb19, 3) == 0x5dc4_c300;
    assert Step8N(0xadf6_880f, 4) == 0x5dc4_c300;
    assert Step8N(0x9100_496a, 5) == 0x5dc4_c300;
    assert Step8N(0x6425_fd4e, 6) == 0x5dc4_c300;
    assert Step8N(0x4e55_8e19, 7) == 0x5dc4_c300;
    assert Step8N(0x510d_4de2, 8) == 0x5dc4_c300;
    assert Step8N(0xd34d_d831, 9) == 0x5dc4_c300;
    assert Step8N(0x9b2c_ca67, 10) == 0x5dc4_c300;
    assert Step8N(0x4808_d7c0, 11) == 0x5dc4_c300;
    assert Step8N(0xbae1_8ba7, 12) == 0x5dc4_c300;
  }

  lemma SeventyTwo()
    ensures Step8N(0x68, 72) == 0x5dc4_c300
  {
    hide Step8N;
    Twelve0();
    Twelve1();
    Twelve2();
    Twelve3();
    Twelve4();
    Twelve5();
    Step8NAdd(0x68, 12, 12);
    Step8NAdd(0x68, 24, 12);
    Step8NAdd(0x68, 36, 12);
    Step8NAdd(0x68, 48, 12);
    Step8NAdd(0x68, 60, 12);
  }

  lemma {:induction false} Step8NLinear(a: bv32, b: bv32, n: nat)
    ensures Mix(Step8N(a, n), Step8N(b, n)) == Step8N(Mix(a, b), n)
    decreases n
  {
    hide Step8, Mix;
    if n != 0 {
      Step8Linear(a, b);
      Step8NLinear(Step8(a), Step8(b), n - 1);
    }
  }

  lemma WordSteps(c: bv32)
    ensures Word(c) == Step8N(c, 4)
  {
    hide Step8;
    assert Step8N(Step8(c), 3) == Step8N(Step8(Step8(c)), 2);
    assert Step8N(Step8(Step8(c)), 2) == Step8N(Step8(Step8(Step8(c))), 1);
  }

  /** Four bytes and what follows them. */
  lemma BytesFrom(c: bv32, x: seq<bv8>, k: nat)
    requires k + 4 <= |x|
    ensures Bytes(c, x) == Bytes(Word(Mix(Bytes(c, x[..k]), Load(x[k..k + 4]))), x[k + 4..])
  {
    hide Word, Load, Mix, Bytes;
    assert x == x[..k] + (x[k..k + 4] + x[k + 4..]);
    BytesAppend(c, x[..k], x[k..k + 4] + x[k + 4..]);
    BytesAppend(Bytes(c, x[..k]), x[k..k + 4], x[k + 4..]);
    WordIsFourBytes(Bytes(c, x[..k]), x[k..k + 4]);
  }

  /** A change of one word changes the checksum by that word's change, stepped on to the end. */
  lemma WordDelta(x: seq<bv8>, y: seq<bv8>, k: nat)
    requires |x| == |y| && k + 4 <= |x| && x[..k] == y[..k] && x[k + 4..] == y[k + 4..]
    ensures Mix(Crc(0, x), Crc(0, y)) == Step8N(Mix(Load(x[k..k + 4]), Load(y[k..k + 4])), |x| - k)
  {
    BytesAreBits(Flip(0), x);
    BytesAreBits(Flip(0), y);
    hide Bytes, Word, Load, Mix, Flip, Register, Step8N;
    var a := Bytes(Flip(0), x[..k]);
    BytesFrom(Flip(0), x, k);
    BytesFrom(Flip(0), y, k);
    WordsDelta(a, Load(x[k..k + 4]), Load(y[k..k + 4]), x[k + 4..]);
    FlipBoth(Bytes(Flip(0), x), Bytes(Flip(0), y));
  }

  lemma WordsDelta(a: bv32, v: bv32, w: bv32, rest: seq<bv8>)
    ensures Mix(Bytes(Word(Mix(a, v)), rest), Bytes(Word(Mix(a, w)), rest)) == Step8N(Mix(v, w), 4 + |rest|)
  {
    hide Bytes, Word, Mix, Step8N;
    BytesDelta(Word(Mix(a, v)), Word(Mix(a, w)), rest);
    WordSteps(Mix(a, v));
    WordSteps(Mix(a, w));
    Step8NLinear(Mix(a, v), Mix(a, w), 4);
    MixCommute(a, v);
    MixCommute(a, w);
    MixCommon(v, w, a);
    Step8NAdd(Mix(v, w), 4, |rest|);
  }

  function Changed(x: bv8): bv8 { x ^ 0x68 }

  /** Four damaged bytes that a stored CRC does not tell: in a 92-byte header whose CRC stands in bytes
      16 to 19, changing byte 20 in this way changes the CRC in its upper three bytes alone. */
  lemma DamageSlips(x: seq<bv8>, y: seq<bv8>)
    requires |x| == |y| == 92 && y == x[20 := Changed(x[20])]
    ensures Mix(Crc(0, x), Crc(0, y)) == 0x5dc4_c300
  {
    hide Crc, Load, Mix, Changed, Step8N;
    assert y[..20] == x[..20] && y[24..] == x[24..];
    WordDelta(x, y, 20);
    assert y[20..24] == [Changed(x[20]), x[21], x[22], x[23]] && x[20..24] == [x[20], x[21], x[22], x[23]];
    LoadChanged(x[20], x[21], x[22], x[23]);
    SeventyTwo();
  }

  lemma LoadChanged(b0: bv8, b1: bv8, b2: bv8, b3: bv8)
    ensures Mix(Load([b0, b1, b2, b3]), Load([Changed(b0), b1, b2, b3])) == 0x68
  {
  }

  /** With its checksum appended, least significant byte first, every buffer has the same checksum. */
  lemma Residue(x: seq<bv8>, y: seq<bv8>)
    requires |y| == 4 && Load(y) == Crc(0, x)
    ensures Crc(0, x + y) == 0x2144_df1c
  {
    CrcAppend(0, x, y);
    BytesAreBits(Flip(Crc(0, x)), y);
    WordIsFourBytes(Flip(Crc(0, x)), y);
    FlipComplements(Crc(0, x));
    AllOnesWord();
  }

  lemma FlipComplements(c: bv32)
    ensures Mix(Flip(c), c) == 0xffff_ffff
  {
  }

  lemma AllOnesWord()
    ensures Flip(Word(0xffff_ffff)) == 0x2144_df1c
  {
    assert Step8(Step8(0xffff_ffff)) == 0xbe26_ed00;
  }

  /** The check value of this CRC: its checksum of the digits 1 to 9. */
  lemma CheckValue()
    ensures Crc(0, [0x31, 0x32, 0x33, 0x34, 0x35, 0x36, 0x37, 0x38, 0x39]) == 0xcbf4_3926
  {
    var s, t: seq<bv8> := [0x31, 0x32, 0x33, 0x34], [0x35, 0x36, 0x37, 0x38];
    assert [0x31, 0x32, 0x33, 0x34, 0x35, 0x36, 0x37, 0x38, 0x39] == s + t + [0x39];
    BytesAreBits(Flip(0), s + t + [0x39]);
    LoadDigits();
    WordIsFourBytes(0xffff_ffff, s);
    FirstDigits();
    WordIsFourBytes(0x641c_1f5c, t);
    MoreDigits();
    LastDigit();
    hide Bytes, Word, Load, Mix;
    BytesAppend(0xffff_ffff, s, t);
    BytesAppend(0xffff_ffff, s + t, [0x39]);
  }

  lemma LoadDigits()
    ensures Load([0x31, 0x32, 0x33, 0x34]) == 0x3433_3231 && Load([0x35, 0x36, 0x37, 0x38]) == 0x3837_3635
  {
  }

  lemma FirstDigits()
    ensures Word(Mix(0xffff_ffff, 0x3433_3231)) == 0x641c_1f5c
  {
    assert Step8(Step8(Mix(0xffff_ffff, 0x3433_3231))) == 0xb0ac_8f01;
  }

  lemma MoreDigits()
    ensures Word(Mix(0x641c_1f5c, 0x3837_3635)) == 0x651f_2550
  {
    assert Step8(Step8(Mix(0x641c_1f5c, 0x3837_3635))) == 0xf68d_14a9;
  }

  lemma LastDigit()
    ensures Bytes(0x651f_2550, [0x39]) == 0x340b_c6d9
  {
  }

  lemma FlipBoth(a: bv32, b: bv32)
    ensures Mix(Flip(a), Flip(b)) == Mix(a, b)
  {
  }

  function LastByte(c: bv32): bv8 { (c & 0xff) as bv8 }
  function Front(c: bv32): bv32 { c >> 8 }
  function Rejoin(h: bv32, l: bv8): bv32 { (h << 8) | (l as bv32) }

  lemma FrontAndByte(c: bv32)
    ensures c == Rejoin(Front(c), LastByte(c)) && Front(c) <= 0xff_ffff
  {
  }

  lemma SameLastByte(c: bv32, d: bv32)
    requires Mix(c, d) & 0xff == 0
    ensures LastByte(c) == LastByte(d)
  {
  }

  lemma ShiftedNumber(h: bv32, l: bv8)
    requires h <= 0xff_ffff
    ensures ((h << 8) | (l as bv32)) as int == 256 * (h as int) + (l as int)
  {
  }

  lemma ByteNumber(l: bv8)
    ensures 0 <= l as int < 256
  {
  }

  /** The number of a word from its front and its last byte. */
  function Number(h: bv32, l: bv8): int { 256 * (h as int) + (l as int) }

  lemma RejoinNumber(h: bv32, l: bv8)
    requires h <= 0xff_ffff
    ensures Rejoin(h, l) as int == Number(h, l) && Number(h, l) % 256 == l as int
  {
    ShiftedNumber(h, l);
    ByteNumber(l);
  }

  /** Words that differ in their upper three bytes alone are the same number modulo 256. */
  lemma SameLowByte(c: bv32, d: bv32)
    requires Mix(c, d) & 0xff == 0
    ensures (c as int) % 256 == (d as int) % 256
  {
    FrontAndByte(c);
    FrontAndByte(d);
    SameLastByte(c, d);
    RejoinNumber(Front(c), LastByte(c));
    RejoinNumber(Front(d), LastByte(d));
    hide Rejoin, Front, LastByte, Mix, Number;
  }
}
