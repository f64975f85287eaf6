/**
secure_verify/sha256.c: streaming SHA-256 over a hardware compression engine. The
compression function is not interpreted; the engine starts from the initial value
when the global updateNum is 0 and goes on from its last state otherwise. The
padding is that of section 5.1.1 of FIPS 180-4.
 */
module Sha256 {
  import opened BigNum

  type State = s: seq<word> | |s| == 8 witness [0, 0, 0, 0, 0, 0, 0, 0]
  type Compress = (State, seq<word>) -> State
  type Block = b: seq<byte> | |b| == 64 witness seq(64, i => 0)

  /** The initial hash value, section 5.3.3 of FIPS 180-4. */
  const IV: State := [0x6a09e667, 0xbb67ae85, 0x3c6ef372, 0xa54ff53a, 0x510e527f, 0x9b05688c, 0x1f83d9ab, 0x5be0cd19]

  const WORD64: nat := 0x1_0000_0000_0000_0000

  // ------------------------------------------------------------ the definition

  /** A block as the sixteen big-endian words given to the engine. */
  function Words(b: Block): seq<word>
  {
    seq(16, t requires 0 <= t < 16 => Join(b[4 * t], b[4 * t + 1], b[4 * t + 2], b[4 * t + 3]))
  }

  /** The hash chain over whole blocks. */
  function Chain(f: Compress, m: seq<Block>): State
  {
    if m == [] then IV else f(Chain(f, m[..|m| - 1]), Words(m[|m| - 1]))
  }

  /** A byte string cut into blocks; a remainder is dropped. */
  function Split(m: seq<byte>): seq<Block>
  {
    if |m| < 64 then [] else [m[..64]] + Split(m[64..])
  }

  /** Zero bytes between the 0x80 and the length: the least number that leaves 56 modulo 64. */
  function Gap(n: nat): (z: nat)
    ensures z < 64 && (n + 1 + z) % 64 == 56
  {
    (119 - n % 64) % 64
  }

  function Pad(m: seq<byte>): (p: seq<byte>)
    ensures |p| == |m| + Gap(|m|) + 9
  {
    PadAs(m, |m|)
  }

  /** The padding with `told` as the length. */
  function PadAs(m: seq<byte>, told: int): (p: seq<byte>)
    ensures |p| == |m| + Gap(|m|) + 9
  {
    m + [0x80] + Zeros(Gap(|m|)) + BigEndian(8 * told % WORD64, 8)
  }

  function StateBytes(s: State): (b: seq<byte>)
    ensures |b| == 32
  {
    BigEndian(s[0], 4) + BigEndian(s[1], 4) + BigEndian(s[2], 4) + BigEndian(s[3], 4)
    + BigEndian(s[4], 4) + BigEndian(s[5], 4) + BigEndian(s[6], 4) + BigEndian(s[7], 4)
  }

  function Digest(f: Compress, m: seq<byte>): (d: seq<byte>)
    ensures |d| == 32
  {
    StateBytes(Chain(f, Split(Pad(m))))
  }

  /** What SHA256_hash gives: its length is an int. */
  function Hashed(f: Compress, m: seq<byte>): (d: seq<byte>)
    ensures |d| == 32
  {
    StateBytes(Chain(f, Split(PadAs(m, Signed(|m|)))))
  }

  lemma {:induction false} BigEndianInjective(x: nat, y: nat, n: nat)
    requires x < Power(256, n) && y < Power(256, n) && BigEndian(x, n) == BigEndian(y, n)
    ensures x == y
  {
    if n != 0 {
      assert BigEndian(x, n)[..n - 1] == BigEndian(x / 256, n - 1);
      assert BigEndian(y, n)[..n - 1] == BigEndian(y / 256, n - 1);
      assert x % 256 == BigEndian(x, n)[n - 1] == BigEndian(y, n)[n - 1] == y % 256;
      BigEndianInjective(x / 256, y / 256, n - 1);
    }
  }

  lemma EightBytes()
    ensures Power(256, 8) == WORD64
  {
    assert Power(256, 2) == 0x1_0000;
    assert Power(256, 4) == 0x1_0000_0000;
    assert Power(256, 6) == 0x1_0000_0000_0000;
  }

  /** The message that is hashed is the padded one exactly if its length fits an int. */
  lemma HashedExactly(m: seq<byte>)
    requires |m| < BASE
    ensures PadAs(m, Signed(|m|)) == Pad(m) <==> |m| < 0x8000_0000
  {
    var x, y := 8 * |m| % WORD64, 8 * Signed(|m|) % WORD64;
    hide BigEndian;
    if PadAs(m, Signed(|m|)) == Pad(m) {
      var k := |m| + 1 + Gap(|m|);
      assert Pad(m)[k..] == BigEndian(x, 8) && PadAs(m, Signed(|m|))[k..] == BigEndian(y, 8);
      EightBytes();
      BigEndianInjective(x, y, 8);
    }
  }

  // ------------------------------------------------------------ the engine

  /** What the engine holds after the blocks m: updateNum is 32 bits wide, so every
      2^32-nd block starts again from the initial value. */
  function Engine(f: Compress, m: seq<Block>): State
  {
    if m == [] then IV else
      var k := |m| - 1;
      f(if k % BASE == 0 then IV else Engine(f, m[..k]), Words(m[k]))
  }

  /** The first block of the chain that ends with block k. */
  function Restart(k: nat): (start: nat)
    ensures start <= k < start + BASE
  {
    k - k % BASE
  }

  lemma RestartStep(k: nat)
    ensures k % BASE == 0 ==> Restart(k) == k
    ensures k % BASE != 0 ==> Restart(k) == Restart(k - 1)
  {
  }

  lemma RestartZero(k: nat)
    requires k < BASE
    ensures Restart(k) == 0
  {
  }

  /** The blocks of m since updateNum last was 0. */
  function Tail(m: seq<Block>): (t: seq<Block>)
    ensures |t| <= BASE && |t| <= |m|
  {
    if m == [] then [] else m[Restart(|m| - 1)..]
  }

  /** The engine forgets all blocks before the last wrap of updateNum. */
  lemma {:induction false} EngineIsTailChain(f: Compress, m: seq<Block>)
    ensures Engine(f, m) == Chain(f, Tail(m))
  {
    hide Words, Restart;
    if m != [] {
      var k := |m| - 1;
      var t := Tail(m);
      RestartStep(k);
      if k % BASE == 0 {
        assert t[..|t| - 1] == [];
      } else {
        EngineIsTailChain(f, m[..k]);
        assert t[..|t| - 1] == Tail(m[..k]);
      }
    }
  }

  /** Up to 2^32 blocks the engine computes the hash chain. */
  lemma EngineIsChain(f: Compress, m: seq<Block>)
    requires |m| <= BASE
    ensures Engine(f, m) == Chain(f, m)
  {
    hide Engine, Chain;
    EngineIsTailChain(f, m);
    if m != [] {
      RestartZero(|m| - 1);
    }
  }

  /** A compression function that counts blocks in the first two words. */
  function Counter(s: State): nat { s[0] + BASE * s[1] }

  function Count(s: State, w: seq<word>): State
  {
    var c := (Counter(s) + 1) % WORD64;
    s[0 := c % BASE][1 := c / BASE]
  }

  lemma CountStep(s: State, w: seq<word>, c: nat)
    requires Counter(s) == c % WORD64
    ensures Counter(Count(s, w)) == (c + 1) % WORD64
  {
  }

  lemma {:induction false} CountsBlocks(m: seq<Block>)
    ensures Counter(Chain(Count, m)) == (Counter(IV) + |m|) % WORD64
  {
    hide Count, Words;
    if m == [] {
    } else {
      var rest := m[..|m| - 1];
      CountsBlocks(rest);
      CountStep(Chain(Count, rest), Words(m[|m| - 1]), Counter(IV) + |rest|);
    }
  }

  lemma CounterRange(s: State)
    ensures Counter(s) < WORD64
  {
  }

  lemma WrapArithmetic(iv: nat, n: nat, t: nat)
    requires iv < WORD64 && n < WORD64 && t < n
    ensures (iv + n) % WORD64 != (iv + t) % WORD64
  {
  }

  lemma WrapIsVisible(m: seq<Block>)
    requires BASE < |m| < WORD64
    ensures Engine(Count, m) != Chain(Count, m)
  {
    hide Engine, Chain, Count, Counter, Tail;
    EngineIsTailChain(Count, m);
    CountsBlocks(m);
    CountsBlocks(Tail(m));
    CounterRange(IV);
    WrapArithmetic(Counter(IV), |m|, |Tail(m)|);
  }

  /** Beyond 2^32 blocks the engine does not compute the hash chain, whatever the message
      (its length is kept in 64 bits). */
  lemma EngineIsChainExactly(m: seq<Block>)
    requires |m| < WORD64
    ensures (forall f: Compress :: Engine(f, m) == Chain(f, m)) <==> |m| <= BASE
  {
    hide Engine, Chain;
    if |m| <= BASE {
      forall f: Compress
        ensures Engine(f, m) == Chain(f, m)
      {
        EngineIsChain(f, m);
      }
    } else {
      WrapIsVisible(m);
    }
  }

  // ------------------------------------------------------------ streams of blocks

  function Flat(m: seq<Block>): (s: seq<byte>)
  {
    if m == [] then [] else Flat(m[..|m| - 1]) + m[|m| - 1]
  }

  lemma {:induction false} FlatLength(m: seq<Block>)
    ensures |Flat(m)| == 64 * |m|
  {
    if m != [] {
      FlatLength(m[..|m| - 1]);
    }
  }

  lemma FlatAppend(m: seq<Block>, b: Block)
    ensures Flat(m + [b]) == Flat(m) + b
  {
    assert (m + [b])[..|m|] == m;
  }

  lemma {:induction false} SplitAppend(s: seq<byte>, b: Block)
    requires |s| % 64 == 0
    ensures Split(s + b) == Split(s) + [b]
    decreases |s|
  {
    if s == [] {
      assert s + b == b && b[..64] == b && b[64..] == [];
    } else {
      assert (s + b)[..64] == s[..64] && (s + b)[64..] == s[64..] + b;
      SplitAppend(s[64..], b);
    }
  }

  /** Cutting the concatenation of blocks gives them back. */
  lemma {:induction false} SplitFlat(m: seq<Block>)
    ensures Split(Flat(m)) == m
  {
    if m != [] {
      var rest := m[..|m| - 1];
      SplitFlat(rest);
      FlatLength(rest);
      SplitAppend(Flat(rest), m[|m| - 1]);
    }
  }

  /** The engine, updateNum and the buffer after the bytes `fed`, of which the blocks
      `done` have gone to the engine. */
  ghost predicate Streamed(f: Compress, done: seq<Block>, fed: seq<byte>, buf: seq<byte>, updateNum: word, h: State)
  {
    var r := |fed| - 64 * |done|;
    && |buf| == 64 && 0 <= r < 64
    && fed == Flat(done) + buf[..r]
    && updateNum == |done| % BASE
    && (done != [] ==> h == Engine(f, done))
  }

  lemma PutInside(f: Compress, done: seq<Block>, fed: seq<byte>, buf: seq<byte>, u: word, h: State, b: byte)
    requires Streamed(f, done, fed, buf, u, h) && |fed| - 64 * |done| < 63
    ensures Streamed(f, done, fed + [b], buf[|fed| - 64 * |done| := b], u, h)
  {
    hide Engine, Flat;
    var r := |fed| - 64 * |done|;
    assert buf[r := b][..r + 1] == buf[..r] + [b];
  }

  lemma PutLast(f: Compress, done: seq<Block>, fed: seq<byte>, buf: seq<byte>, u: word, h: State, b: byte)
    requires Streamed(f, done, fed, buf, u, h) && |fed| - 64 * |done| == 63
    ensures var full := buf[63 := b];
            Streamed(f, done + [full], fed + [b], full, Lo(u + 1), f(if u == 0 then IV else h, Words(full)))
  {
    hide Words, Flat;
    var full: Block := buf[63 := b];
    assert full == buf[..63] + [b] && full[..0] == [];
    FlatAppend(done, full);
    assert (done + [full])[..|done|] == done;
    LoStep(|done|);
  }

  lemma LoStep(n: nat)
    ensures Lo(n % BASE + 1) == (n + 1) % BASE
  {
  }

  lemma Position(fed: nat, done: nat)
    requires 0 <= fed - 64 * done < 64
    ensures fed % 64 == fed - 64 * done
  {
  }

  /** A length kept in 64 bits. */
  function Len64(n: int): nat { n % WORD64 }

  lemma Len64Add(n: int, k: int)
    ensures Len64(Len64(n) + k) == Len64(n + k) && Len64(n) % 64 == n % 64
  {
  }

  /** The count after a chunk of k bytes. */
  lemma CountNext(fed: nat, short: nat, k: nat)
    requires k < BASE
    ensures Len64(Len64(fed - BASE * short) + Signed(k))
         == Len64(fed + k - BASE * (short + (if k < 0x8000_0000 then 0 else 1)))
  {
    Len64Add(fed - BASE * short, Signed(k));
    assert BASE * (short + 1) == BASE * short + BASE;
  }

  /** Overlong chunks do not show in the position inside a block. */
  lemma Len64Short(n: int, short: int)
    ensures Len64(n - BASE * short) % 64 == n % 64
  {
    Len64Add(n - BASE * short, 0);
    assert n == (n - BASE * short) + 64 * (0x400_0000 * short);
  }

  lemma RemainderUnique(x: int, q: int, r: int)
    requires 0 <= r < WORD64 && x == q * WORD64 + r
    ensures x % WORD64 == r
  {
  }

  lemma Len64Bits(n: int)
    ensures Len64(Len64(n) * 8) == 8 * n % WORD64
  {
    var q, r := n / WORD64, n % WORD64;
    RemainderUnique(8 * n, 8 * q + 8 * r / WORD64, 8 * r % WORD64);
  }

  // ------------------------------------------------------------ the streaming code

  /** The loop of SHA256_Transform over the words of the buffered block. */
  method LoadBlock(buf: array<byte>) returns (w: seq<word>)
    requires buf.Length == 64
    ensures w == Words(buf[..])
  {
    w := [];
    var t, p := 0, 0;
    while t < 16
      invariant 0 <= t <= 16 && p == 4 * t && w == Words(buf[..])[..t]
    {
      w := w + [Join(buf[p], buf[p + 1], buf[p + 2], buf[p + 3])];
      p := p + 4;
      t := t + 1;
    }
  }

  /** The engine, the global updateNum and one hash context. */
  class Hasher {
    const compress: Compress
    const buf: array<byte>        // ctx->buf
    var count: nat                // ctx->count, 64 bits
    var updateNum: word
    var h: State                  // SHA_H0 .. SHA_H7

    ghost var fed: seq<byte>      // the bytes given since SHA256_init
    ghost var done: seq<Block>    // those of them that have gone to the engine
    ghost var short: nat          // chunks of 2^31 bytes or more, each counted 2^32 short

    ghost predicate Valid()
      reads this, buf
    {
      count == Len64(|fed| - BASE * short) && Streamed(compress, done, fed, buf[..], updateNum, h)
    }

    constructor (compress: Compress, h: State, updateNum: word)
      ensures this.compress == compress && this.h == h && this.updateNum == updateNum
      ensures buf.Length == 64 && fresh(buf)
    {
      this.compress, this.h, this.updateNum := compress, h, updateNum;
      buf := new byte[64];
      count, fed, done, short := 0, [], [], 0;
    }

    /** SHA256_init: it does not reset updateNum, its callers do. */
    method Init()
      requires buf.Length == 64
      modifies this`count, this`fed, this`done, this`short
      ensures fed == [] && short == 0 && (updateNum == 0 ==> Valid())
    {
      count, fed, done, short := 0, [], [], 0;
      assert buf[..][..0] == [];
    }

    /** SHA256_Transform: give the buffered block to the engine. */
    method Transform()
      requires buf.Length == 64
      modifies this`h, this`updateNum
      ensures h == compress(if old(updateNum) == 0 then IV else old(h), Words(buf[..]))
      ensures updateNum == Lo(old(updateNum) + 1)
    {
      var w := LoadBlock(buf);
      if updateNum == 0 {
        h := compress(IV, w);
      } else {
        h := compress(h, w);
      }
      updateNum := Lo(updateNum + 1);
    }

    /** One turn of SHA256_update's loop. */
    method PutByte(i: nat, b: byte) returns (next: nat)
      requires Streamed(compress, done, fed, buf[..], updateNum, h) && i == |fed| - 64 * |done|
      modifies this`h, this`updateNum, this`fed, this`done, buf
      ensures Streamed(compress, done, fed, buf[..], updateNum, h)
      ensures fed == old(fed) + [b] && next == |fed| - 64 * |done|
    {
      assert buf.Length == 64 && i < 64;
      hide *;
      ghost var was := buf[..];
      buf[i] := b;
      assert buf[..] == was[i := b];
      next := i + 1;
      if next == 64 {
        PutLast(compress, done, fed, was, updateNum, h, b);
        done := done + [buf[..]];
        Transform();
        next := 0;
      } else {
        PutInside(compress, done, fed, was, updateNum, h, b);
      }
      fed := fed + [b];
    }

    /** SHA256_update. Its length is an int: from 2^31 on it is added to the count as a negative
        number, while the loop still takes in every byte. */
    method Update(data: seq<byte>)
      requires Valid() && |data| < BASE
      modifies this`h, this`updateNum, this`fed, this`done, this`short, this`count, buf
      ensures Valid() && fed == old(fed) + data
      ensures short == old(short) + (if |data| < 0x8000_0000 then 0 else 1)
    {
      var i := count % 64;
      Len64Short(|fed|, short);
      CountNext(|fed|, short, |data|);
      Position(|fed|, |done|);
      hide Streamed, Len64, Signed;
      count := Len64(count + Signed(|data|));
      short := short + (if |data| < 0x8000_0000 then 0 else 1);
      Feed(i, data);
    }

    /** Its loop. */
    method Feed(start: nat, data: seq<byte>)
      requires Streamed(compress, done, fed, buf[..], updateNum, h) && start == |fed| - 64 * |done|
      modifies this`h, this`updateNum, this`fed, this`done, buf
      ensures Streamed(compress, done, fed, buf[..], updateNum, h) && fed == old(fed) + data
    {
      hide Streamed;
      var i := start;
      var p := 0;
      while p < |data|
        invariant 0 <= p <= |data| && fed == old(fed) + data[..p] && i == |fed| - 64 * |done|
        invariant Streamed(compress, done, fed, buf[..], updateNum, h)
      {
        i := PutByte(i, data[p]);
        p := p + 1;
        assert data[..p] == data[..p - 1] + [data[p - 1]];
      }
      assert data[..p] == data;
    }

    /** SHA256_final: pad, then read the engine. */
    method Final() returns (digest: seq<byte>)
      requires Valid()
      modifies this`h, this`updateNum, this`fed, this`done, this`short, this`count, buf
      ensures digest == StateBytes(Engine(compress, Split(PadAs(old(fed), |old(fed)| - BASE * old(short)))))
      ensures buf[..32] == digest
    {
      assert buf.Length == 64;
      hide Streamed, Engine, BigEndian, Len64, StateBytes, Zeros, Gap;
      ghost var m := fed;
      ghost var told := |fed| - BASE * short;
      Len64Bits(told);
      var cnt := Len64(count * 8);
      PadZeros();
      PutLength(cnt);
      assert fed == PadAs(m, told);
      AfterPadding(compress, done, m, told, buf[..], updateNum, h);
      digest := StateBytes(h);
      PutDigest(digest);
    }

    /** The 0x80 byte and the zeros up to 56 modulo 64. */
    method PadZeros()
      requires Valid()
      modifies this`h, this`updateNum, this`fed, this`done, this`short, this`count, buf
      ensures Valid() && fed == old(fed) + [0x80] + Zeros(Gap(|old(fed)|)) && short == old(short)
    {
      hide Streamed, Len64, Zeros, Gap;
      ghost var m := fed;
      Update([0x80]);
      ghost var z := 0;
      ZerosStep(0);
      while count % 64 != 56
        invariant Valid() && 0 <= z <= Gap(|m|) && short == old(short)
        invariant fed == m + [0x80] + Zeros(z)
        decreases Gap(|m|) - z
      {
        Len64Short(|fed|, short);
        Update([0]);
        ZerosStep(z);
        z := z + 1;
        assert fed == m + [0x80] + Zeros(z);
      }
      Len64Short(|fed|, short);
      GapUnique(|m|, z);
    }

    /** The eight bytes of the bit length, most significant first. */
    method PutLength(cnt: nat)
      requires Valid()
      modifies this`h, this`updateNum, this`fed, this`done, this`short, this`count, buf
      ensures Valid() && fed == old(fed) + BigEndian(cnt, 8)
    {
      ghost var m := fed;
      var i := 0;
      assert BigEndian(ShiftBytes(cnt, 8), 0) == [];
      assert ShiftBytes(cnt, 0) == cnt;
      hide Streamed, BigEndian, ShiftBytes;
      while i < 8
        invariant 0 <= i <= 8 && Valid()
        invariant fed == m + BigEndian(ShiftBytes(cnt, 8 - i), i)
      {
        var tmp := ShiftBytes(cnt, 7 - i) % 256;
        LengthByte(cnt, i);
        Update([tmp]);
        i := i + 1;
      }
    }

    method PutDigest(digest: seq<byte>)
      requires buf.Length == 64 && |digest| == 32
      modifies buf
      ensures buf[..32] == digest
    {
      var i := 0;
      while i < 32
        invariant 0 <= i <= 32 && buf[..i] == digest[..i]
      {
        buf[i] := digest[i];
        i := i + 1;
      }
    }

    /** SHA256_hash, called with updateNum reset. */
    method Hash(data: seq<byte>) returns (digest: seq<byte>)
      requires buf.Length == 64 && updateNum == 0 && |data| < BASE
      modifies this`h, this`updateNum, this`fed, this`done, this`short, this`count, buf
      ensures digest == Hashed(compress, data) && (|data| < 0x8000_0000 ==> digest == Digest(compress, data))
    {
      hide Streamed, Engine, Chain, PadAs, Split;
      Init();
      Update(data);
      assert fed == data && |data| - BASE * short == Signed(|data|);
      digest := Final();
      PadBlocks(data, Signed(|data|));
      EngineIsChain(compress, Split(PadAs(data, Signed(|data|))));
    }

    /** Any way of cutting a message into updates gives the same digest. */
    method HashPieces(pieces: seq<seq<byte>>) returns (digest: seq<byte>)
      requires buf.Length == 64 && updateNum == 0
      requires forall i :: 0 <= i < |pieces| ==> |pieces[i]| < 0x8000_0000
      modifies this`h, this`updateNum, this`fed, this`done, this`short, this`count, buf
      ensures digest == StateBytes(Engine(compress, Split(Pad(Joined(pieces)))))
      ensures |Joined(pieces)| <= 64 * BASE - 9 ==> digest == Digest(compress, Joined(pieces))
    {
      hide Streamed, Engine, Chain, PadAs, Split, Len64;
      Init();
      var i := 0;
      while i < |pieces|
        invariant 0 <= i <= |pieces| && Valid() && fed == Joined(pieces[..i]) && short == 0
      {
        Update(pieces[i]);
        assert pieces[..i + 1][..i] == pieces[..i];
        i := i + 1;
      }
      assert pieces[..i] == pieces;
      digest := Final();
      if |Joined(pieces)| <= 64 * BASE - 9 {
        PadBlocks(Joined(pieces), |Joined(pieces)|);
        EngineIsChain(compress, Split(Pad(Joined(pieces))));
      }
    }
  }

  function Joined(pieces: seq<seq<byte>>): seq<byte>
  {
    if pieces == [] then [] else Joined(pieces[..|pieces| - 1]) + pieces[|pieces| - 1]
  }

  lemma {:induction false} SplitLength(m: seq<byte>)
    ensures |Split(m)| == |m| / 64
    decreases |m|
  {
    if |m| >= 64 {
      SplitLength(m[64..]);
    }
  }

  /** A message and its padding fill at most 2^32 blocks up to this length. */
  lemma PadBlocks(m: seq<byte>, told: int)
    ensures |Split(PadAs(m, told))| <= BASE <==> |m| <= 64 * BASE - 9
  {
    hide Split, Zeros, BigEndian;
    SplitLength(PadAs(m, told));
  }

  lemma WordsInjective(x: nat, y: nat)
    requires x < BASE && y < BASE && BigEndian(x, 4) == BigEndian(y, 4)
    ensures x == y
  {
    assert Power(256, 2) == 0x1_0000;
    BigEndianInjective(x, y, 4);
  }

  lemma StateBytesInjective(s: State, t: State)
    requires StateBytes(s) == StateBytes(t)
    ensures s == t
  {
    StatePart(s);
    StatePart(t);
    hide StateBytes, BigEndian;
    forall i | 0 <= i < 8
      ensures s[i] == t[i]
    {
      assert BigEndian(s[i], 4) == StateBytes(s)[4 * i..4 * i + 4] == BigEndian(t[i], 4);
      WordsInjective(s[i], t[i]);
    }
  }

  lemma StatePart(s: State)
    ensures forall i :: 0 <= i < 8 ==> StateBytes(s)[4 * i..4 * i + 4] == BigEndian(s[i], 4)
  {
    hide BigEndian;
  }

  /** The streamed digest is that of the message, for every compression function, exactly up to this
      length. */
  lemma DigestExactly(m: seq<byte>)
    requires |m| < 64 * WORD64 - 72
    ensures (forall f: Compress :: StateBytes(Engine(f, Split(Pad(m)))) == Digest(f, m)) <==> |m| <= 64 * BASE - 9
  {
    var bs := Split(Pad(m));
    PadBlocks(m, |m|);
    PadShort(m);
    hide Split, Pad, PadAs, Engine, Chain, StateBytes, Count;
    if |m| <= 64 * BASE - 9 {
      forall f: Compress
        ensures StateBytes(Engine(f, bs)) == Digest(f, m)
      {
        EngineIsChain(f, bs);
      }
    } else {
      WrapIsVisible(bs);
      if StateBytes(Engine(Count, bs)) == Digest(Count, m) {
        StateBytesInjective(Engine(Count, bs), Chain(Count, bs));
      }
    }
  }

  lemma PadShort(m: seq<byte>)
    requires |m| < 64 * WORD64 - 72
    ensures |Split(Pad(m))| < WORD64
  {
    SplitLength(Pad(m));
  }

  // ---------------------------------------------------------------- against the standard

  /** Word t of a block is its bytes 4t to 4t + 3, most significant first (section 5.2.1 of FIPS 180-4). */
  lemma WordsAreBytes(b: Block, t: nat)
    requires t < 16
    ensures |Words(b)| == 16 && Words(b)[t] == BytesValue(b[4 * t..4 * t + 4])
  {
    JoinIsValue(b[4 * t..4 * t + 4]);
  }

  /** Bytes 4i to 4i + 3 of a digest are word i of the state, most significant first. */
  lemma DigestWords(s: State, i: nat)
    requires i < 8
    ensures BytesValue(StateBytes(s)[4 * i..4 * i + 4]) == s[i]
  {
    StatePart(s);
    assert Power(256, 2) == 0x1_0000;
    ValueOfBigEndian(s[i], 4);
  }

  /** Block i of a message is its bytes 64i to 64i + 63. */
  lemma {:induction false} SplitBlock(m: seq<byte>, i: nat)
    requires 64 * i + 64 <= |m|
    ensures i < |Split(m)| && Split(m)[i] == m[64 * i..64 * i + 64]
    decreases i
  {
    if i > 0 {
      SplitBlock(m[64..], i - 1);
      assert m[64..][64 * (i - 1)..64 * (i - 1) + 64] == m[64 * i..64 * i + 64];
    }
  }

  /** The padded message (section 5.1.1 of FIPS 180-4): whole blocks and no more than needed; the message, the
      bit 1, zeros, and the bit length in the last eight bytes. */
  lemma PaddedMessage(m: seq<byte>)
    requires 8 * |m| < WORD64
    ensures var p := Pad(m);
            && |p| % 64 == 0 && |m| + 9 <= |p| < |m| + 9 + 64
            && p[..|m|] == m && p[|m|] == 0x80 && (forall i :: |m| < i < |p| - 8 ==> p[i] == 0)
            && BytesValue(p[|p| - 8..]) == 8 * |m|
  {
    PadIs(m);
    EightBytes();
    ValueOfBigEndian(8 * |m|, 8);
    NoOverflow(8 * |m|);
    WholeBlocks(|m|, Gap(|m|));
    hide *;
    var z, n := Zeros(Gap(|m|)), BigEndian(8 * |m|, 8);
    ZerosAre(Gap(|m|));
    PadParts(m, z, n);
  }

  lemma PadIs(m: seq<byte>)
    ensures Pad(m) == m + [0x80] + Zeros(Gap(|m|)) + BigEndian(8 * |m| % WORD64, 8)
  {
    hide BigEndian, Gap, Zeros;
  }

  lemma ZerosAre(n: nat)
    ensures forall i :: 0 <= i < n ==> Zeros(n)[i] == 0
  {
  }

  lemma NoOverflow(x: nat)
    requires x < WORD64
    ensures x % WORD64 == x
  {
  }

  lemma WholeBlocks(n: nat, z: nat)
    requires (n + 1 + z) % 64 == 56
    ensures (n + z + 9) % 64 == 0
  {
  }

  lemma PadParts(m: seq<byte>, z: seq<byte>, n: seq<byte>)
    requires |n| == 8
    ensures var p := m + [0x80] + z + n;
            && p[..|m|] == m && p[|m|] == 0x80 && p[|p| - 8..] == n
            && forall i :: |m| < i < |p| - 8 ==> p[i] == z[i - |m| - 1]
  {
  }

  /** The initial value: the first 32 bits of the fractional parts of the square roots of the first eight
      primes (section 5.3.3 of FIPS 180-4). */
  lemma InitialValue()
    ensures RootAbove(2, 1, IV[0]) && RootAbove(3, 1, IV[1]) && RootAbove(5, 2, IV[2]) && RootAbove(7, 2, IV[3])
    ensures RootAbove(11, 3, IV[4]) && RootAbove(13, 3, IV[5]) && RootAbove(17, 4, IV[6]) && RootAbove(19, 4, IV[7])
  {
  }

  /** The square root of p lies in [k + v / 2^32, k + (v + 1) / 2^32). */
  predicate RootAbove(p: nat, k: nat, v: word)
  {
    var r := k * BASE + v;
    r * r <= p * (BASE * BASE) < (r + 1) * (r + 1)
  }

  /** The zeros stop at the first length that is 56 modulo 64. */
  lemma GapUnique(n: nat, z: nat)
    requires z <= Gap(n) && (n + 1 + z) % 64 == 56
    ensures z == Gap(n)
  {
  }

  lemma ZerosStep(n: nat)
    ensures Zeros(0) == [] && Zeros(n + 1) == Zeros(n) + [0]
  {
  }

  lemma AfterPadding(f: Compress, done: seq<Block>, m: seq<byte>, told: int, buf: seq<byte>, u: word, h: State)
    requires Streamed(f, done, PadAs(m, told), buf, u, h)
    ensures h == Engine(f, Split(PadAs(m, told)))
  {
    hide Engine, Flat, Split, BigEndian, Zeros;
    var r := |PadAs(m, told)| - 64 * |done|;
    assert r == 0;
    assert PadAs(m, told) == Flat(done);
    SplitFlat(done);
  }

  lemma LengthByte(cnt: nat, i: nat)
    requires i < 8
    ensures BigEndian(ShiftBytes(cnt, 7 - i), i + 1)
         == BigEndian(ShiftBytes(cnt, 8 - i), i) + [ShiftBytes(cnt, 7 - i) % 256]
  {
  }
}
