/**
secure_verify/secure_verify.c, secure_verify/decode.c and RSA_verify of
secure_verify/rsa.c: reading a signed image from memory, checking its public key
against the fuses and its signature against its hash, for the kernel and then for
the ramdisk. The image layout is the one images/sign.py writes.
 */
module SecureVerify {
  import opened BigNum
  import opened Montgomery
  import Rsa
  import SignKey
  import opened Sha256

  type Ram = nat -> byte

  // ------------------------------------------------------------ words in memory

  /** Little-endian load. */
  function Load(ram: Ram, a: nat): word { Join(ram(a + 3), ram(a + 2), ram(a + 1), ram(a)) }

  function LoadWords(ram: Ram, a: nat, n: nat): (w: seq<word>)
    ensures |w| == n
  {
    seq(n, i requires 0 <= i => Load(ram, a + 4 * i))
  }

  function Bytes(ram: Ram, a: nat, n: nat): (b: seq<byte>)
    ensures |b| == n
  {
    seq(n, i requires 0 <= i => ram(a + i))
  }

  /** A word as it lies in memory. */
  function Store(w: word): (b: seq<byte>)
    ensures |b| == 4
  {
    JoinSplit(w);
    [w % 256, w / 0x100 % 256, w / 0x1_0000 % 256, w / 0x100_0000]
  }

  function WordBytes(w: seq<word>): (b: seq<byte>)
    ensures |b| == 4 * |w|
  {
    if w == [] then [] else WordBytes(w[..|w| - 1]) + Store(w[|w| - 1])
  }

  /** Memory holds the bytes s from address a on. */
  ghost predicate Holds(ram: Ram, a: nat, s: seq<byte>)
  {
    forall i :: 0 <= i < |s| ==> ram(a + i) == s[i]
  }

  lemma StoreLoad(b0: byte, b1: byte, b2: byte, b3: byte)
    ensures Store(Join(b3, b2, b1, b0)) == [b0, b1, b2, b3]
  {
    var w := Join(b3, b2, b1, b0);
    var g: int := b3 * 256 + b2;
    var h: int := g * 256 + b1;
    assert w == h * 256 + b0;
    assert w / 0x100 == h && w % 256 == b0;
    assert h / 0x100 == g && h % 256 == b1 && w / 0x1_0000 == g;
    assert g / 0x100 == b3 && g % 256 == b2 && w / 0x100_0000 == b3;
  }

  lemma LoadStore(w: word)
    ensures Join(Store(w)[3], Store(w)[2], Store(w)[1], Store(w)[0]) == w
  {
    JoinSplit(w);
  }

  /** A word in memory has its least significant byte first. */
  lemma LoadIsLittleEndian(ram: Ram, a: nat)
    ensures Load(ram, a) == BytesValue([ram(a + 3), ram(a + 2), ram(a + 1), ram(a)])
  {
    JoinIsValue([ram(a + 3), ram(a + 2), ram(a + 1), ram(a)]);
  }

  /** Copying memory as words and looking at the copy as bytes gives the bytes. */
  lemma {:induction false} CopyIsBytes(ram: Ram, a: nat, n: nat)
    ensures WordBytes(LoadWords(ram, a, n)) == Bytes(ram, a, 4 * n)
  {
    hide Join, Store;
    if n != 0 {
      var k := n - 1;
      var w := LoadWords(ram, a, n);
      assert w[..k] == LoadWords(ram, a, k);
      CopyIsBytes(ram, a, k);
      StoreLoad(ram(a + 4 * k), ram(a + 4 * k + 1), ram(a + 4 * k + 2), ram(a + 4 * k + 3));
      assert Bytes(ram, a, 4 * n) == Bytes(ram, a, 4 * k)
        + [ram(a + 4 * k), ram(a + 4 * k + 1), ram(a + 4 * k + 2), ram(a + 4 * k + 3)];
    }
  }

  /** Words written to memory are loaded back. */
  lemma {:induction false} LoadsBack(ram: Ram, a: nat, w: seq<word>)
    requires Holds(ram, a, WordBytes(w))
    ensures LoadWords(ram, a, |w|) == w
  {
    hide Join, Store;
    if w != [] {
      var k := |w| - 1;
      var b := WordBytes(w);
      assert forall i :: 0 <= i < 4 * k ==> WordBytes(w[..k])[i] == b[i];
      LoadsBack(ram, a, w[..k]);
      LoadStore(w[k]);
      assert b[4 * k] == Store(w[k])[0] && b[4 * k + 1] == Store(w[k])[1];
      assert b[4 * k + 2] == Store(w[k])[2] && b[4 * k + 3] == Store(w[k])[3];
      assert ram(a + (4 * k)) == b[4 * k] && ram(a + (4 * k + 1)) == b[4 * k + 1];
      assert ram(a + (4 * k + 2)) == b[4 * k + 2] && ram(a + (4 * k + 3)) == b[4 * k + 3];
      assert Load(ram, a + 4 * k) == w[k];
      assert LoadWords(ram, a, |w|) == LoadWords(ram, a, k) + [w[k]];
    }
  }

  lemma HoldsPart(ram: Ram, a: nat, x: seq<byte>, y: seq<byte>, z: seq<byte>)
    requires Holds(ram, a, x + y + z)
    ensures Holds(ram, a + |x|, y)
  {
    forall i | 0 <= i < |y|
      ensures ram(a + |x| + i) == y[i]
    {
      assert (x + y + z)[|x| + i] == y[i];
      assert ram(a + (|x| + i)) == (x + y + z)[|x| + i];
    }
  }

  lemma HoldsBytes(ram: Ram, a: nat, s: seq<byte>)
    requires Holds(ram, a, s)
    ensures Bytes(ram, a, |s|) == s
  {
  }

  // ------------------------------------------------------------ the image layout

  const HEAD: nat := 1536

  /** RSAPublicKey as words: len, n0inv, n, rr, exponent. */
  function Record(key: PublicKey): (w: seq<word>)
    requires |key.n| == |key.rr| == 64 && 0 <= key.exponent < BASE
    ensures |w| == 131
  {
    [64, key.n0inv] + key.n + key.rr + [key.exponent]
  }

  /** The key in such a record, apart from its len. */
  function KeyOf(w: seq<word>): (key: PublicKey)
    requires |w| == 131
    ensures |key.n| == |key.rr| == 64
  {
    PublicKey(w[1], w[2..66], w[66..130], w[130])
  }

  /** Writing a key record and reading it back is the identity. */
  lemma RecordRoundTrip(key: PublicKey)
    requires |key.n| == |key.rr| == 64 && 0 <= key.exponent < BASE
    ensures Record(key)[0] == 64 && KeyOf(Record(key)) == key
  {
    var w := Record(key);
    assert w[2..66] == key.n && w[66..130] == key.rr;
  }

  /** The file images/sign.py writes: length, padding, signature, key, padding, image. */
  function SignedFile(image: seq<byte>, sig: seq<byte>, key: PublicKey): seq<byte>
    requires |image| < BASE && |sig| == 256
    requires |key.n| == |key.rr| == 64 && 0 <= key.exponent < BASE
  {
    Store(|image|) + Zeros(508) + sig + WordBytes(Record(key)) + Zeros(244) + image
  }

  /** Where the parts of a signed file stand. */
  lemma SignedPlaces(image: seq<byte>, sig: seq<byte>, key: PublicKey)
    requires |image| < BASE && |sig| == 256
    requires |key.n| == |key.rr| == 64 && 0 <= key.exponent < BASE
    ensures var s := SignedFile(image, sig, key);
            && |s| == 1536 + |image| && s[0..4] == Store(|image|) && s[512..768] == sig
            && s[768..1292] == WordBytes(Record(key)) && s[1536..] == image
            && forall i :: 4 <= i < 512 || 1292 <= i < 1536 ==> s[i] == 0
  {
    hide Store, WordBytes, Record;
  }

  /** What getverifyimage finds in memory at `base`. */
  function LengthAt(ram: Ram, base: nat): word { Load(ram, base) }
  function SignatureAt(ram: Ram, base: nat): seq<word> { LoadWords(ram, base + 512, 64) }
  function RecordAt(ram: Ram, base: nat): (w: seq<word>) ensures |w| == 131 { LoadWords(ram, base + 768, 131) }
  function ImageAt(ram: Ram, base: nat): seq<byte> { Bytes(ram, base + HEAD, LengthAt(ram, base)) }

  /** The fields of the key at `base`, at their places in the source's structure. */
  lemma KeyInMemory(ram: Ram, base: nat, i: nat)
    requires i < 64
    ensures var w, key := RecordAt(ram, base), KeyOf(RecordAt(ram, base));
            && w[0] == Load(ram, base + 768) && key.n0inv == Load(ram, base + 772)
            && key.n[i] == Load(ram, base + 776 + 4 * i) && key.rr[i] == Load(ram, base + 1032 + 4 * i)
            && key.exponent == Load(ram, base + 1288)
  {
    hide Load;
  }

  /** A signed file in memory is read as its own length, signature, key and image. */
  lemma LayoutRoundTrip(ram: Ram, base: nat, image: seq<byte>, sig: seq<byte>, key: PublicKey)
    requires |image| < BASE && |sig| == 256
    requires |key.n| == |key.rr| == 64 && 0 <= key.exponent < BASE
    requires Holds(ram, base, SignedFile(image, sig, key))
    ensures LengthAt(ram, base) == |image|
    ensures WordBytes(SignatureAt(ram, base)) == sig
    ensures RecordAt(ram, base) == Record(key)
    ensures ImageAt(ram, base) == image
  {
    hide Load, Join, Store, WordBytes, Zeros, Record, LoadWords, Bytes, Holds;
    var len, pad1, rec, pad2 := Store(|image|), Zeros(508), WordBytes(Record(key)), Zeros(244);
    var f := SignedFile(image, sig, key);
    assert f == [] + len + (pad1 + sig + rec + pad2 + image);
    HoldsPart(ram, base, [], len, pad1 + sig + rec + pad2 + image);
    LoadsLength(ram, base, |image|);
    assert f == (len + pad1) + sig + (rec + pad2 + image);
    HoldsPart(ram, base, len + pad1, sig, rec + pad2 + image);
    HoldsBytes(ram, base + 512, sig);
    CopyIsBytes(ram, base + 512, 64);
    assert f == (len + pad1 + sig) + rec + (pad2 + image);
    HoldsPart(ram, base, len + pad1 + sig, rec, pad2 + image);
    LoadsBack(ram, base + 768, Record(key));
    assert f == (len + pad1 + sig + rec + pad2) + image + [];
    HoldsPart(ram, base, len + pad1 + sig + rec + pad2, image, []);
    HoldsBytes(ram, base + HEAD, image);
  }

  lemma LoadsLength(ram: Ram, base: nat, n: word)
    requires Holds(ram, base, Store(n))
    ensures Load(ram, base) == n
  {
    hide Join, Store;
    var b := Store(n);
    LoadStore(n);
    assert ram(base + 0) == b[0] && ram(base + 1) == b[1] && ram(base + 2) == b[2] && ram(base + 3) == b[3];
  }

  // ------------------------------------------------------------ RSA_verify

  /** kExpectedPadSha256Rsa2048. */
  const PAD_DIGEST: seq<byte> := [
    0xab, 0x28, 0x8d, 0x8a, 0xd7, 0xd9, 0x59, 0x92, 0xba, 0xcc, 0xf8, 0x67, 0x20, 0xe1, 0x15, 0x2e,
    0x39, 0x8d, 0x80, 0x36, 0xd6, 0x6f, 0xf0, 0xfd, 0x90, 0xe8, 0x7d, 0x8b, 0xe1, 0x7c, 0x87, 0x59]

  /** Exclusive or of the n low bits. */
  function XorBits(a: nat, b: nat, n: nat): (x: nat)
    ensures x < Pow2(n)
  {
    if n == 0 then 0
    else 2 * XorBits(a / 2, b / 2, n - 1) + if a % 2 == b % 2 then 0 else 1
  }

  function Xor(a: byte, b: byte): byte
  {
    assert Pow2(8) == 256;
    XorBits(a, b, 8)
  }

  lemma {:induction false} XorBitsZero(a: nat, b: nat, n: nat)
    requires a < Pow2(n) && b < Pow2(n)
    ensures XorBits(a, b, n) == 0 <==> a == b
  {
    if n != 0 {
      XorBitsZero(a / 2, b / 2, n - 1);
    }
  }

  lemma XorZero(a: byte, b: byte)
    ensures Xor(a, b) == 0 <==> a == b
  {
    assert Pow2(8) == 256;
    XorBitsZero(a, b, 8);
  }

  predicate Bit(x: nat, k: nat)
  {
    if k == 0 then x % 2 == 1 else Bit(x / 2, k - 1)
  }

  lemma {:induction false} XorBitsAt(a: nat, b: nat, n: nat, k: nat)
    requires k < n
    ensures Bit(XorBits(a, b, n), k) <==> Bit(a, k) != Bit(b, k)
  {
    if k > 0 {
      XorBitsAt(a / 2, b / 2, n - 1, k - 1);
      assert XorBits(a, b, n) / 2 == XorBits(a / 2, b / 2, n - 1);
    }
  }

  /** Bit by bit. */
  lemma XorIsBitwise(a: byte, b: byte, k: nat)
    requires k < 8
    ensures Bit(Xor(a, b), k) <==> Bit(a, k) != Bit(b, k)
  {
    XorBitsAt(a, b, 8, k);
  }

  /** The encoded message with the hash xored onto its end. */
  function Masked(em: seq<byte>, hash: seq<byte>): (m: seq<byte>)
    requires |em| >= |hash|
    ensures |m| == |em|
  {
    var k := |em| - |hash|;
    seq(|em|, i requires 0 <= i < |em| => if i < k then em[i] else Xor(em[i], hash[i - k]))
  }

  /** RSAVP1 and I2OSP: s^e mod n as |s| bytes. */
  ghost function Opened(key: PublicKey, sig: seq<byte>): (em: seq<byte>)
    requires key.exponent >= 0 && key.Modulus() > 0
    ensures |em| == |sig|
  {
    BigEndian(Power(BytesValue(sig), key.exponent) % key.Modulus(), |sig|)
  }

  /** What modpow makes of a signature, for any key. */
  function Computed(key: PublicKey, sig: seq<byte>): (em: seq<byte>)
    requires key.Shaped()
    ensures |em| == |sig|
  {
    BigEndian(Rsa.ModPowOf(key, BytesValue(sig)), |sig|)
  }

  /** The checks of RSA_verify. */
  predicate Passes(f: Compress, len: word, key: PublicKey, sig: seq<byte>, hash: seq<byte>)
    requires key.Shaped()
  {
    && len == 64 && |sig| == 256 && |hash| == 32 && Rsa.Supported(key.exponent)
    && Digest(f, Masked(Computed(key, sig), hash)) == PAD_DIGEST
  }

  /** For a key made for a modulus with its top bit set, modpow opens the signature. */
  lemma ComputedIsOpened(key: PublicKey, sig: seq<byte>)
    requires Rsa.Sound(key) && Rsa.Supported(key.exponent) && 0 < key.R() <= 2 * key.Modulus()
    requires |sig| == 4 * |key.n|
    ensures Computed(key, sig) == Opened(key, sig)
  {
    Rsa.WordsOfValue(sig);
    Rsa.ModPowIsPower(key, BytesValue(sig));
  }

  /** The signature opens to the padding followed by the hash, as far as SHA-256 can tell. */
  ghost predicate Accepts(f: Compress, key: PublicKey, sig: seq<byte>, hash: seq<byte>)
    requires key.exponent >= 0 && key.Modulus() > 0 && |hash| <= |sig|
  {
    Digest(f, Masked(Opened(key, sig), hash)) == PAD_DIGEST
  }

  /** RSA_verify accepts every signature that opens to P[..224] + hash, P being a padding
      with that digest; and a signature that it accepts either does so open, or exhibits
      two different strings with the same SHA-256 value. */
  lemma AcceptsMeansPadded(f: Compress, key: PublicKey, sig: seq<byte>, hash: seq<byte>, p: seq<byte>)
    requires key.exponent >= 0 && key.Modulus() > 0 && |sig| == |p| == 256 && |hash| == 32
    requires Digest(f, p) == PAD_DIGEST && forall i :: 224 <= i < 256 ==> p[i] == 0
    ensures Opened(key, sig) == p[..224] + hash ==> Accepts(f, key, sig, hash)
    ensures Accepts(f, key, sig, hash) ==>
              || Opened(key, sig) == p[..224] + hash
              || (Masked(Opened(key, sig), hash) != p && Digest(f, Masked(Opened(key, sig), hash)) == Digest(f, p))
  {
    hide Digest, Opened;
    var em := Opened(key, sig);
    MaskedPadding(em, hash, p);
  }

  lemma MaskedPadding(em: seq<byte>, hash: seq<byte>, p: seq<byte>)
    requires |em| == |p| == 256 && |hash| == 32 && forall i :: 224 <= i < 256 ==> p[i] == 0
    ensures em == p[..224] + hash <==> Masked(em, hash) == p
  {
    hide Xor;
    forall i | 224 <= i < 256
      ensures em[i] == hash[i - 224] <==> Xor(em[i], hash[i - 224]) == 0
    {
      XorZero(em[i], hash[i - 224]);
    }
    var m := Masked(em, hash);
    if em == p[..224] + hash {
      assert forall i :: 0 <= i < 256 ==> m[i] == p[i];
    }
    if m == p {
      forall i | 0 <= i < 256
        ensures em[i] == (p[..224] + hash)[i]
      {
        assert m[i] == p[i];
      }
    }
  }

  // ------------------------------------------------------------ the run

  /** The eight fuse words are the digest read as little-endian words (decode.c:56-96). */
  predicate FusesMatch(digest: seq<byte>, fuses: seq<word>)
    requires |digest| == 32 && |fuses| == 8
  {
    forall i :: 0 <= i < 8 ==>
      fuses[i] == Join(digest[4 * i + 3], digest[4 * i + 2], digest[4 * i + 1], digest[4 * i])
  }

  /** The fuses are the digest, each word of them with its least significant byte first. */
  lemma FusesAreBytes(digest: seq<byte>, fuses: seq<word>)
    requires |digest| == 32 && |fuses| == 8
    ensures FusesMatch(digest, fuses) <==> WordBytes(fuses) == digest
  {
    hide Join, Store, WordBytes;
    var ram: Ram := i => if 0 <= i < 32 then digest[i] else 0;
    assert Bytes(ram, 0, 32) == digest;
    CopyIsBytes(ram, 0, 8);
    if FusesMatch(digest, fuses) {
      assert LoadWords(ram, 0, 8) == fuses;
    }
    if WordBytes(fuses) == digest {
      WordBytesInjective(fuses, LoadWords(ram, 0, 8));
    }
  }

  /** A record modpow can be trusted on: 64 words, a supported exponent, and a key made for
      a modulus with its top bit set. */
  ghost predicate GoodRecord(w: seq<word>)
    requires |w| == 131
  {
    var key := KeyOf(w);
    w[0] == 64 && Rsa.Supported(key.exponent) && Rsa.Sound(key) && key.R() <= 2 * key.Modulus()
  }

  /** The key in the image is the one the fuses name. */
  ghost predicate KeyTrusted(f: Compress, ram: Ram, fuses: seq<word>, base: nat)
    requires |fuses| == 8
  {
    FusesMatch(Digest(f, Bytes(ram, base + 768, 524)), fuses)
  }

  /** The image passes RSA_verify with the key and the signature beside it. */
  ghost predicate ImagePasses(f: Compress, ram: Ram, base: nat)
  {
    var w := RecordAt(ram, base);
    Passes(f, w[0], KeyOf(w), WordBytes(SignatureAt(ram, base)), Hashed(f, ImageAt(ram, base)))
  }

  /** The signature in the image is one for the image. */
  ghost predicate ImageSigned(f: Compress, ram: Ram, base: nat)
  {
    var key := KeyOf(RecordAt(ram, base));
    key.exponent >= 0 && key.Modulus() > 0
    && Accepts(f, key, WordBytes(SignatureAt(ram, base)), Hashed(f, ImageAt(ram, base)))
  }

  /** With a good record, passing is being signed. */
  lemma PassesIsSigned(f: Compress, ram: Ram, base: nat)
    requires GoodRecord(RecordAt(ram, base))
    ensures ImagePasses(f, ram, base) <==> ImageSigned(f, ram, base)
  {
    hide Digest, Hashed, Masked, Computed, Opened, Rsa.Sound, WordBytes, LoadWords, Bytes;
    var key := KeyOf(RecordAt(ram, base));
    ComputedIsOpened(key, WordBytes(SignatureAt(ram, base)));
  }

  /** Two different key records with the same digest. */
  ghost predicate Collision(f: Compress, v: seq<word>, w: seq<word>)
  {
    WordBytes(v) != WordBytes(w) && Digest(f, WordBytes(v)) == Digest(f, WordBytes(w))
  }

  /** Against any good record that the fuses name: the image carries that record and is signed
      with its key, or its record and that one collide. */
  ghost predicate Genuine(f: Compress, ram: Ram, fuses: seq<word>, base: nat)
    requires |fuses| == 8
  {
    forall w: seq<word> :: |w| == 131 && GoodRecord(w) && FusesMatch(Digest(f, WordBytes(w)), fuses) ==>
      (RecordAt(ram, base) == w && ImageSigned(f, ram, base)) || Collision(f, RecordAt(ram, base), w)
  }

  /** The fuses determine the digest. */
  lemma FusesNameOne(d: seq<byte>, e: seq<byte>, fuses: seq<word>)
    requires |d| == |e| == 32 && |fuses| == 8 && FusesMatch(d, fuses) && FusesMatch(e, fuses)
    ensures d == e
  {
    hide Join, Store;
    forall i | 0 <= i < 8
      ensures d[4 * i..4 * i + 4] == e[4 * i..4 * i + 4]
    {
      StoreLoad(d[4 * i], d[4 * i + 1], d[4 * i + 2], d[4 * i + 3]);
      StoreLoad(e[4 * i], e[4 * i + 1], e[4 * i + 2], e[4 * i + 3]);
      assert d[4 * i..4 * i + 4] == Store(fuses[i]) == e[4 * i..4 * i + 4];
    }
    forall k | 0 <= k < 32
      ensures d[k] == e[k]
    {
      var i := k / 4;
      assert d[k] == d[4 * i..4 * i + 4][k % 4] && e[k] == e[4 * i..4 * i + 4][k % 4];
    }
  }

  lemma {:induction false} WordBytesInjective(v: seq<word>, w: seq<word>)
    requires |v| == |w| && WordBytes(v) == WordBytes(w)
    ensures v == w
  {
    hide Store;
    if v != [] {
      var k := |v| - 1;
      var x, y := WordBytes(v), WordBytes(w);
      assert x[..4 * k] == WordBytes(v[..k]) && y[..4 * k] == WordBytes(w[..k]);
      WordBytesInjective(v[..k], w[..k]);
      assert x[4 * k..] == Store(v[k]) && y[4 * k..] == Store(w[k]);
      LoadStore(v[k]);
      LoadStore(w[k]);
      assert v == v[..k] + [v[k]] && w == w[..k] + [w[k]];
    }
  }

  /** An image whose key the fuses name and that passes is genuine. */
  lemma TrustedIsGenuine(f: Compress, ram: Ram, fuses: seq<word>, base: nat)
    requires |fuses| == 8 && KeyTrusted(f, ram, fuses, base) && ImagePasses(f, ram, base)
    ensures Genuine(f, ram, fuses, base)
  {
    hide Digest, WordBytes, FusesMatch, LoadWords, Bytes, ImagePasses, ImageSigned, GoodRecord;
    CopyIsBytes(ram, base + 768, 131);
    var v := RecordAt(ram, base);
    forall w: seq<word> | |w| == 131 && GoodRecord(w) && FusesMatch(Digest(f, WordBytes(w)), fuses)
      ensures (v == w && ImageSigned(f, ram, base)) || Collision(f, v, w)
    {
      FusesNameOne(Digest(f, WordBytes(v)), Digest(f, WordBytes(w)), fuses);
      if WordBytes(v) == WordBytes(w) {
        WordBytesInjective(v, w);
        PassesIsSigned(f, ram, base);
      }
    }
  }

  lemma HashedIsDigest(f: Compress, m: seq<byte>)
    requires |m| < 0x8000_0000
    ensures Hashed(f, m) == Digest(f, m)
  {
  }

  /** An image signed with a 2048-bit key made by images/sign.py, whose key the fuses name,
      is accepted. */
  lemma SignedImageVerifies(f: Compress, ram: Ram, fuses: seq<word>, base: nat,
                            image: seq<byte>, sig: seq<byte>, key: PublicKey, n: nat, e: word, p: seq<byte>)
    requires SignKey.MadeFor(key, n, e) && SignKey.BitLength(n) == 2048 && (e == 3 || e == 65537)
    requires |image| < 0x8000_0000 && |sig| == |p| == 256 && |fuses| == 8 && |key.n| == |key.rr| == 64
    requires Holds(ram, base, SignedFile(image, sig, key))
    requires FusesMatch(Digest(f, WordBytes(Record(key))), fuses)
    requires Digest(f, p) == PAD_DIGEST && forall i :: 224 <= i < 256 ==> p[i] == 0
    requires n > 0 && Opened(key, sig) == p[..224] + Digest(f, image)
    ensures GoodRecord(RecordAt(ram, base)) && KeyTrusted(f, ram, fuses, base)
    ensures ImageSigned(f, ram, base) && ImagePasses(f, ram, base)
  {
    hide Digest, Hashed, Opened, FusesMatch, Record, WordBytes, LoadWords, Bytes, Rsa.Sound, Holds, Load, Accepts, SignedFile, ImagePasses,
      Masked, Computed, KeyOf, Power, BytesValue, BigEndian;
    LayoutRoundTrip(ram, base, image, sig, key);
    RecordRoundTrip(key);
    CopyIsBytes(ram, base + 768, 131);
    HashedIsDigest(f, image);
    AcceptsMeansPadded(f, key, sig, Digest(f, image), p);
    PassesIsSigned(f, ram, base);
  }

  class Verifier {
    const ram: Ram
    const fuses: seq<word>
    const hasher: Hasher
    const signature: array<word>      // RSASIGNATURE
    const pubkey: array<word>         // RSAPUBKEYSTRU
    const imageSha: array<byte>       // ORIGIN_IMAGE_SHA
    var imageLen: word                // ORIGIN_IMAGE_LEN
    var imageBase: nat                // ORIGIN_IMAGE_BASEADDR

    ghost predicate Valid()
      reads this
    {
      && |fuses| == 8 && hasher.buf.Length == 64
      && signature.Length == 64 && pubkey.Length == 131 && imageSha.Length == 32
      && signature != pubkey && imageSha != hasher.buf
    }

    constructor (ram: Ram, fuses: seq<word>, hasher: Hasher)
      requires |fuses| == 8 && hasher.buf.Length == 64
      ensures Valid() && this.ram == ram && this.fuses == fuses && this.hasher == hasher
      ensures fresh(signature) && fresh(pubkey) && fresh(imageSha)
    {
      this.ram, this.fuses, this.hasher := ram, fuses, hasher;
      signature := new word[64];
      pubkey := new word[131];
      imageSha := new byte[32];
      imageLen, imageBase := 0, 0;
    }

    /** getverifyimage, for a header at `base`. */
    method GetVerifyImage(base: nat)
      requires Valid()
      modifies this, signature, pubkey
      ensures Valid() && imageLen == LengthAt(ram, base) && imageBase == base + HEAD
      ensures signature[..] == SignatureAt(ram, base) && pubkey[..] == RecordAt(ram, base)
    {
      hide Load;
      imageLen := Load(ram, base);
      var i := 0;
      while i < 64
        invariant 0 <= i <= 64 && imageLen == Load(ram, base)
        invariant forall j :: 0 <= j < i ==> signature[j] == Load(ram, base + 512 + 4 * j)
      {
        signature[i] := Load(ram, base + 4 * (i + 128));
        i := i + 1;
      }
      i := 0;
      while i < 131
        invariant 0 <= i <= 131 && imageLen == Load(ram, base)
        invariant forall j :: 0 <= j < 64 ==> signature[j] == Load(ram, base + 512 + 4 * j)
        invariant forall j :: 0 <= j < i ==> pubkey[j] == Load(ram, base + 768 + 4 * j)
      {
        pubkey[i] := Load(ram, base + 4 * (i + 192));
        i := i + 1;
      }
      imageBase := base + HEAD;
    }

    /** rsaPubKey_sha256_verify; true stands for the return value 0. */
    method PubKeyVerify() returns (ok: bool)
      requires Valid() && hasher.updateNum == 0
      modifies hasher, hasher.buf
      ensures ok <==> FusesMatch(Digest(hasher.compress, WordBytes(pubkey[..])), fuses)
    {
      hide Digest, Join, WordBytes;
      var digest := hasher.Hash(WordBytes(pubkey[..]));
      var i := 0;
      while i < 8
        invariant 0 <= i <= 8
        invariant forall j :: 0 <= j < i ==>
          fuses[j] == Join(digest[4 * j + 3], digest[4 * j + 2], digest[4 * j + 1], digest[4 * j])
      {
        if fuses[i] != Join(digest[4 * i + 3], digest[4 * i + 2], digest[4 * i + 1], digest[4 * i]) {
          return false;
        }
        i := i + 1;
      }
      return true;
    }

    /** RSA_verify; true stands for the return value 1. */
    method RsaVerify(len: word, key: PublicKey, sig: seq<byte>, hash: seq<byte>) returns (ok: bool)
      requires Valid() && hasher.updateNum == 0 && |key.n| == |key.rr| == 64
      modifies hasher, hasher.buf
      ensures ok <==> Passes(hasher.compress, len, key, sig, hash)
      ensures ok ==> len == 64 && |sig| == 256 && |hash| == 32 && (key.exponent == 3 || key.exponent == 65537)
      ensures len == 64 && |sig| == 256 && |hash| == 32 && Rsa.Supported(key.exponent)
              && Rsa.Sound(key) && 0 < key.R() <= 2 * key.Modulus()
              ==> (ok <==> Accepts(hasher.compress, key, sig, hash))
    {
      if len != 64 || |sig| != 256 || |hash| != 32 {
        return false;
      }
      if key.exponent != 3 && key.exponent != 65537 {
        return false;
      }
      var buf := new byte[256];
      var masked := OpenAndMask(key, sig, hash, buf);
      hide Digest, Masked, Opened, Computed, Rsa.Sound, PublicKey.Modulus, PublicKey.R;
      if Rsa.Sound(key) && 0 < key.R() <= 2 * key.Modulus() {
        ComputedIsOpened(key, sig);
      }
      var digest := hasher.Hash(masked);
      ok := digest == PAD_DIGEST;
    }

    /** The copy, the exponentiation and the xor of the hash (rsa.c:186-195). */
    method OpenAndMask(key: PublicKey, sig: seq<byte>, hash: seq<byte>, buf: array<byte>) returns (masked: seq<byte>)
      requires |key.n| == |key.rr| == 64 && |sig| == 256 == buf.Length && |hash| == 32
      requires Rsa.Supported(key.exponent)
      modifies buf
      ensures masked == Masked(Computed(key, sig), hash)
    {
      hide Rsa.Sound, Rsa.ModPowOf, Xor, BigEndian, BytesValue, Power, Congruent, PublicKey.Modulus, PublicKey.R;
      var i := 0;
      while i < 256
        invariant 0 <= i <= 256 && buf[..i] == sig[..i]
      {
        buf[i] := sig[i];
        i := i + 1;
      }
      assert buf[..] == sig;
      Rsa.ModPow(key, buf);
      ghost var em := buf[..];
      BigEndianValue(em);
      i := 224;
      while i < 256
        invariant 224 <= i <= 256
        invariant forall j :: 0 <= j < 256 ==>
          buf[j] == if 224 <= j < i then Xor(em[j], hash[j - 224]) else em[j]
      {
        buf[i] := Xor(buf[i], hash[i - 224]);
        i := i + 1;
      }
      masked := buf[..];
      assert masked == Masked(em, hash);
    }

    /** image_rsa_verify; true stands for the return value 0. updateNum is reset before
        each of the three hashes. */
    method ImageVerify() returns (ok: bool)
      requires Valid()
      modifies hasher, hasher.buf, imageSha
      ensures var f := hasher.compress;
              var image := Bytes(ram, imageBase, imageLen);
              ok <==> FusesMatch(Digest(f, WordBytes(pubkey[..])), fuses)
                      && Passes(f, pubkey[0], KeyOf(pubkey[..]), WordBytes(signature[..]), Hashed(f, image))
    {
      hide Digest, Hashed, WordBytes, FusesMatch, Passes, Accepts, Rsa.Sound, Bytes;
      hasher.updateNum := 0;
      var trusted := PubKeyVerify();
      if !trusted {
        return false;
      }
      hasher.updateNum := 0;
      var digest := hasher.Hash(Bytes(ram, imageBase, imageLen));
      var i := 0;
      while i < 32
        invariant 0 <= i <= 32 && imageSha[..i] == digest[..i]
      {
        imageSha[i] := digest[i];
        i := i + 1;
      }
      assert imageSha[..] == digest;
      hasher.updateNum := 0;
      var sigBytes := WordBytes(signature[..]);
      ok := RsaVerify(pubkey[0], KeyOf(pubkey[..]), sigBytes, imageSha[..]);
    }

    /** secure_verify: the kernel, then the ramdisk; true stands for the return value 0. */
    method Run(kernel: nat, ramdisk: nat) returns (ok: bool)
      requires Valid()
      modifies this, signature, pubkey, hasher, hasher.buf, imageSha
      ensures ok <==>
        && KeyTrusted(hasher.compress, ram, fuses, kernel) && ImagePasses(hasher.compress, ram, kernel)
        && KeyTrusted(hasher.compress, ram, fuses, ramdisk) && ImagePasses(hasher.compress, ram, ramdisk)
      ensures ok ==> Genuine(hasher.compress, ram, fuses, kernel) && Genuine(hasher.compress, ram, fuses, ramdisk)
    {
      hide KeyTrusted, ImagePasses, Genuine;
      ok := RunOne(kernel);
      if ok {
        TrustedIsGenuine(hasher.compress, ram, fuses, kernel);
        ok := RunOne(ramdisk);
        if ok {
          TrustedIsGenuine(hasher.compress, ram, fuses, ramdisk);
        }
      }
    }

    method RunOne(base: nat) returns (ok: bool)
      requires Valid()
      modifies this, signature, pubkey, hasher, hasher.buf, imageSha
      ensures Valid()
      ensures ok <==> KeyTrusted(hasher.compress, ram, fuses, base) && ImagePasses(hasher.compress, ram, base)
    {
      hide Digest, Hashed, WordBytes, FusesMatch, Passes, Bytes, LoadWords, Load;
      GetVerifyImage(base);
      CopyIsBytes(ram, base + 768, 131);
      ok := ImageVerify();
    }
  }
}
