/**
include/part_efi.h: the on-disk form of a GPT header (92 bytes) and of a partition
entry (128 bytes), little-endian and packed (sections 5.3.2 and 5.3.3 of the UEFI
Specification), and their CRC.
 */
module GptFormat {
  import opened BigNum
  import opened Uuid
  import Crc32

  type u16 = x: int | 0 <= x < 0x1_0000
  type u32 = x: int | 0 <= x < 0x1_0000_0000
  type u64 = x: int | 0 <= x < 0x1_0000_0000_0000_0000

  const BLOCK: nat := 512
  const ENTRY: nat := 128

  type Block = b: seq<byte> | |b| == BLOCK witness seq(BLOCK, i => 0)

  // ------------------------------------------------------------ little-endian numbers

  function Put(x: nat, n: nat): (b: seq<byte>)
    ensures |b| == n
  {
    if n == 0 then [] else [x % 256] + Put(x / 256, n - 1)
  }

  function Get(b: seq<byte>): (x: nat)
    ensures x < Power(256, |b|)
  {
    if b == [] then 0 else b[0] + 256 * Get(b[1..])
  }

  function Backwards(b: seq<byte>): (r: seq<byte>)
    ensures |r| == |b|
  {
    if b == [] then [] else Backwards(b[1..]) + [b[0]]
  }

  /** The least significant byte comes first. */
  lemma {:induction false} LeastFirst(b: seq<byte>)
    ensures Get(b) == BytesValue(Backwards(b))
  {
    if b != [] {
      LeastFirst(b[1..]);
      assert Backwards(b)[..|b| - 1] == Backwards(b[1..]);
    }
  }

  lemma {:induction false} GetPut(x: nat, n: nat)
    requires x < Power(256, n)
    ensures Get(Put(x, n)) == x
  {
    if n != 0 {
      GetPut(x / 256, n - 1);
      assert Put(x, n)[1..] == Put(x / 256, n - 1);
    }
  }

  lemma {:induction false} PutGet(b: seq<byte>)
    ensures Put(Get(b), |b|) == b
  {
    if b != [] {
      PutGet(b[1..]);
      assert b == [b[0]] + b[1..];
    }
  }

  lemma Powers256()
    ensures Power(256, 4) == 0x1_0000_0000 && Power(256, 8) == 0x1_0000_0000_0000_0000
  {
    assert Power(256, 2) == 0x1_0000;
    assert Power(256, 6) == 0x1_0000_0000_0000;
  }

  function Put32(x: u32): (b: seq<byte>) ensures |b| == 4 { Put(x, 4) }
  function Put64(x: u64): (b: seq<byte>) ensures |b| == 8 { Put(x, 8) }

  function Get32(b: seq<byte>): u32 requires |b| == 4 { Powers256(); Get(b) }
  function Get64(b: seq<byte>): u64 requires |b| == 8 { Powers256(); Get(b) }

  lemma RoundTrip32(x: u32)
    ensures Get32(Put32(x)) == x
  {
    Powers256();
    GetPut(x, 4);
  }

  lemma RoundTrip64(x: u64)
    ensures Get64(Put64(x)) == x
  {
    Powers256();
    GetPut(x, 8);
  }

  lemma Bytes32(b: seq<byte>)
    requires |b| == 4
    ensures Put32(Get32(b)) == b
  {
    PutGet(b);
  }

  lemma Bytes64(b: seq<byte>)
    requires |b| == 8
    ensures Put64(Get64(b)) == b
  {
    PutGet(b);
  }

  // ------------------------------------------------------------ the header

  datatype Header = Header(signature: u64, revision: u32, headerSize: u32, headerCrc: u32, reserved: u32,
                           myLba: u64, alternateLba: u64, firstUsable: u64, lastUsable: u64,
                           diskGuid: Guid, entryLba: u64, entries: u32, entrySize: u32, entriesCrc: u32)

  function Kind(h: Header): (b: seq<byte>)
    ensures |b| == 24
  {
    Put64(h.signature) + Put32(h.revision) + Put32(h.headerSize) + Put32(h.headerCrc) + Put32(h.reserved)
  }

  function Places(h: Header): (b: seq<byte>)
    ensures |b| == 32
  {
    Put64(h.myLba) + Put64(h.alternateLba) + Put64(h.firstUsable) + Put64(h.lastUsable)
  }

  function TableFields(h: Header): (b: seq<byte>)
    ensures |b| == 20
  {
    Put64(h.entryLba) + Put32(h.entries) + Put32(h.entrySize) + Put32(h.entriesCrc)
  }

  function HeaderBytes(h: Header): (b: seq<byte>)
    ensures |b| == 92
  {
    Kind(h) + Places(h) + h.diskGuid + TableFields(h)
  }

  function HeaderOf(b: seq<byte>): Header
    requires |b| >= 92
  {
    Header(Get64(b[0..8]), Get32(b[8..12]), Get32(b[12..16]), Get32(b[16..20]), Get32(b[20..24]),
           Get64(b[24..32]), Get64(b[32..40]), Get64(b[40..48]), Get64(b[48..56]),
           b[56..72], Get64(b[72..80]), Get32(b[80..84]), Get32(b[84..88]), Get32(b[88..92]))
  }

  /** A field of a part that stands at position p of b. */
  lemma Inner(b: seq<byte>, p: nat, part: seq<byte>, i: nat, j: nat)
    requires p + |part| <= |b| && b[p..p + |part|] == part && i <= j <= |part|
    ensures b[p + i..p + j] == part[i..j]
  {
    forall k | i <= k < j
      ensures b[p + k] == part[k]
    {
      assert b[p..p + |part|][k] == b[p + k];
    }
  }

  lemma KindFields(h: Header)
    ensures var b := Kind(h);
            && b[0..8] == Put64(h.signature) && b[8..12] == Put32(h.revision) && b[12..16] == Put32(h.headerSize)
            && b[16..20] == Put32(h.headerCrc) && b[20..24] == Put32(h.reserved)
  {
    hide Put64, Put32;
  }

  lemma PlacesFields(h: Header)
    ensures var b := Places(h);
            && b[0..8] == Put64(h.myLba) && b[8..16] == Put64(h.alternateLba)
            && b[16..24] == Put64(h.firstUsable) && b[24..32] == Put64(h.lastUsable)
  {
    hide Put64, Put32;
  }

  lemma TableFieldsFields(h: Header)
    ensures var b := TableFields(h);
            && b[0..8] == Put64(h.entryLba) && b[8..12] == Put32(h.entries)
            && b[12..16] == Put32(h.entrySize) && b[16..20] == Put32(h.entriesCrc)
  {
    hide Put64, Put32;
  }

  lemma HeaderParts(h: Header, rest: seq<byte>)
    ensures var b := HeaderBytes(h) + rest;
            b[0..24] == Kind(h) && b[24..56] == Places(h) && b[56..72] == h.diskGuid && b[72..92] == TableFields(h)
  {
    hide Kind, Places, TableFields;
  }

  /** The fields of a header are found where its bytes were put, whatever follows. */
  lemma HeaderRoundTrip(h: Header, rest: seq<byte>)
    ensures HeaderOf(HeaderBytes(h) + rest) == h
  {
    hide Kind, Places, TableFields, HeaderBytes, Put32, Put64, Get32, Get64;
    var b := HeaderBytes(h) + rest;
    HeaderParts(h, rest);
    KindRead(h, b);
    PlacesRead(h, b);
    TableRead(h, b);
  }

  lemma KindRead(h: Header, b: seq<byte>)
    requires |b| >= 92 && b[0..24] == Kind(h)
    ensures Get64(b[0..8]) == h.signature && Get32(b[8..12]) == h.revision && Get32(b[12..16]) == h.headerSize
            && Get32(b[16..20]) == h.headerCrc && Get32(b[20..24]) == h.reserved
  {
    hide Kind, Put32, Put64, Get32, Get64;
    KindFields(h);
    Inner(b, 0, Kind(h), 0, 8);
    Inner(b, 0, Kind(h), 8, 12);
    Inner(b, 0, Kind(h), 12, 16);
    Inner(b, 0, Kind(h), 16, 20);
    Inner(b, 0, Kind(h), 20, 24);
    RoundTrip64(h.signature);
    RoundTrip32(h.revision);
    RoundTrip32(h.headerSize);
    RoundTrip32(h.headerCrc);
    RoundTrip32(h.reserved);
  }

  lemma PlacesRead(h: Header, b: seq<byte>)
    requires |b| >= 92 && b[24..56] == Places(h)
    ensures Get64(b[24..32]) == h.myLba && Get64(b[32..40]) == h.alternateLba
            && Get64(b[40..48]) == h.firstUsable && Get64(b[48..56]) == h.lastUsable
  {
    hide Places, Put64, Get64;
    PlacesFields(h);
    Inner(b, 24, Places(h), 0, 8);
    Inner(b, 24, Places(h), 8, 16);
    Inner(b, 24, Places(h), 16, 24);
    Inner(b, 24, Places(h), 24, 32);
    RoundTrip64(h.myLba);
    RoundTrip64(h.alternateLba);
    RoundTrip64(h.firstUsable);
    RoundTrip64(h.lastUsable);
  }

  lemma TableRead(h: Header, b: seq<byte>)
    requires |b| >= 92 && b[72..92] == TableFields(h)
    ensures Get64(b[72..80]) == h.entryLba && Get32(b[80..84]) == h.entries
            && Get32(b[84..88]) == h.entrySize && Get32(b[88..92]) == h.entriesCrc
  {
    hide TableFields, Put32, Put64, Get32, Get64;
    TableFieldsFields(h);
    Inner(b, 72, TableFields(h), 0, 8);
    Inner(b, 72, TableFields(h), 8, 12);
    Inner(b, 72, TableFields(h), 12, 16);
    Inner(b, 72, TableFields(h), 16, 20);
    RoundTrip64(h.entryLba);
    RoundTrip32(h.entries);
    RoundTrip32(h.entrySize);
    RoundTrip32(h.entriesCrc);
  }

  lemma KindBack(b: seq<byte>)
    requires |b| >= 92
    ensures Kind(HeaderOf(b)) == b[0..24]
  {
    hide Put32, Put64, Get32, Get64;
    Bytes64(b[0..8]);
    Bytes32(b[8..12]);
    Bytes32(b[12..16]);
    Bytes32(b[16..20]);
    Bytes32(b[20..24]);
  }

  lemma PlacesBack(b: seq<byte>)
    requires |b| >= 92
    ensures Places(HeaderOf(b)) == b[24..56]
  {
    hide Put32, Put64, Get32, Get64;
    Bytes64(b[24..32]);
    Bytes64(b[32..40]);
    Bytes64(b[40..48]);
    Bytes64(b[48..56]);
  }

  lemma TableBack(b: seq<byte>)
    requires |b| >= 92
    ensures TableFields(HeaderOf(b)) == b[72..92]
  {
    hide Put32, Put64, Get32, Get64;
    Bytes64(b[72..80]);
    Bytes32(b[80..84]);
    Bytes32(b[84..88]);
    Bytes32(b[88..92]);
  }

  /** No byte of the 92 is lost in reading. */
  lemma HeaderBytesBack(b: seq<byte>)
    requires |b| >= 92
    ensures HeaderBytes(HeaderOf(b)) == b[..92]
  {
    KindBack(b);
    PlacesBack(b);
    TableBack(b);
    assert HeaderOf(b).diskGuid == b[56..72];
    hide Kind, Places, TableFields, HeaderOf;
    assert b[..92] == b[0..24] + b[24..56] + b[56..72] + b[72..92];
  }

  /** The number at bytes p to q - 1 of b. */
  function NumberAt(b: seq<byte>, p: nat, q: nat): nat
    requires p <= q <= |b|
  {
    BytesValue(Backwards(b[p..q]))
  }

  lemma NumberIs(b: seq<byte>, p: nat, q: nat)
    requires p <= q <= |b|
    ensures NumberAt(b, p, q) == Get(b[p..q])
  {
    LeastFirst(b[p..q]);
  }

  /** The places of the fields (section 5.3.2 of the UEFI Specification). */
  lemma HeaderFieldsAt(b: seq<byte>)
    requires |b| >= 92
    ensures var h := HeaderOf(b);
            && h.signature == NumberAt(b, 0, 8) && h.revision == NumberAt(b, 8, 12) && h.headerSize == NumberAt(b, 12, 16)
            && h.headerCrc == NumberAt(b, 16, 20) && h.reserved == NumberAt(b, 20, 24) && h.myLba == NumberAt(b, 24, 32)
            && h.alternateLba == NumberAt(b, 32, 40) && h.firstUsable == NumberAt(b, 40, 48)
            && h.lastUsable == NumberAt(b, 48, 56) && h.diskGuid == b[56..72] && h.entryLba == NumberAt(b, 72, 80)
            && h.entries == NumberAt(b, 80, 84) && h.entrySize == NumberAt(b, 84, 88) && h.entriesCrc == NumberAt(b, 88, 92)
  {
    forall p, q | 0 <= p <= q <= |b|
      ensures NumberAt(b, p, q) == Get(b[p..q])
    {
      NumberIs(b, p, q);
    }
    hide NumberAt, Get;
  }

  // ------------------------------------------------------------ the entry

  type Name = n: seq<u16> | |n| == 36 witness seq(36, i => 0)

  datatype Entry = Entry(kind: Guid, id: Guid, start: u64, end: u64, attributes: u64, name: Name)

  /** A UTF-16 unit and its two bytes. */
  function Unit(lo: int, hi: int): u16
    requires 0 <= lo < 256 && 0 <= hi < 256
  {
    lo + 256 * hi
  }

  function UnitByte(x: u16, i: nat): byte { if i == 0 then x % 256 else x / 256 }

  function NameBytes(n: Name): (b: seq<byte>)
    ensures |b| == 72
  {
    seq(72, j requires 0 <= j < 72 => UnitByte(n[j / 2], j % 2))
  }

  function NameOf(b: seq<byte>): Name
    requires |b| == 72
  {
    seq(36, k requires 0 <= k < 36 => Unit(b[2 * k], b[2 * k + 1]))
  }

  lemma UnitRoundTrip(x: u16)
    ensures Unit(UnitByte(x, 0), UnitByte(x, 1)) == x
  {
  }

  lemma NameByte(n: Name, k: nat)
    requires k < 36
    ensures NameBytes(n)[2 * k] == UnitByte(n[k], 0) && NameBytes(n)[2 * k + 1] == UnitByte(n[k], 1)
  {
    hide UnitByte;
    assert (2 * k) / 2 == k && (2 * k) % 2 == 0;
    assert (2 * k + 1) / 2 == k && (2 * k + 1) % 2 == 1;
  }

  lemma NameRoundTrip(n: Name)
    ensures NameOf(NameBytes(n)) == n
  {
    hide Unit, UnitByte, NameBytes;
    forall k | 0 <= k < 36
      ensures NameOf(NameBytes(n))[k] == n[k]
    {
      UnitRoundTrip(n[k]);
      NameByte(n, k);
    }
  }

  function EntryBytes(e: Entry): (b: seq<byte>)
    ensures |b| == ENTRY
  {
    e.kind + e.id + Put64(e.start) + Put64(e.end) + Put64(e.attributes) + NameBytes(e.name)
  }

  function EntryOf(b: seq<byte>): Entry
    requires |b| == ENTRY
  {
    Entry(b[0..16], b[16..32], Get64(b[32..40]), Get64(b[40..48]), Get64(b[48..56]), NameOf(b[56..128]))
  }

  lemma EntryParts(e: Entry)
    ensures var b := EntryBytes(e);
            && b[0..16] == e.kind && b[16..32] == e.id && b[32..40] == Put64(e.start) && b[40..48] == Put64(e.end)
            && b[48..56] == Put64(e.attributes) && b[56..128] == NameBytes(e.name)
  {
    hide Put64, NameBytes;
  }

  lemma EntryRoundTrip(e: Entry)
    ensures EntryOf(EntryBytes(e)) == e
  {
    hide EntryBytes, Put64, Get64, NameBytes, NameOf;
    EntryParts(e);
    RoundTrip64(e.start);
    RoundTrip64(e.end);
    RoundTrip64(e.attributes);
    NameRoundTrip(e.name);
  }

  /** The places of its fields (section 5.3.3 of the UEFI Specification). */
  lemma EntryFieldsAt(b: seq<byte>)
    requires |b| == ENTRY
    ensures var e := EntryOf(b);
            && e.kind == b[0..16] && e.id == b[16..32] && e.start == NumberAt(b, 32, 40) && e.end == NumberAt(b, 40, 48)
            && e.attributes == NumberAt(b, 48, 56) && e.name == NameOf(b[56..128])
  {
    NumberIs(b, 32, 40);
    NumberIs(b, 40, 48);
    NumberIs(b, 48, 56);
    hide Get, NameOf;
  }

  /** The name is in UTF-16, low byte first. */
  lemma NameFieldsAt(b: seq<byte>, k: nat)
    requires |b| == 72 && k < 36
    ensures NameOf(b)[k] == NumberAt(b, 2 * k, 2 * k + 2)
  {
    NumberIs(b, 2 * k, 2 * k + 2);
    UnitIsNumber(b[2 * k..2 * k + 2]);
    hide Get;
  }

  lemma UnitIsNumber(b: seq<byte>)
    requires |b| == 2
    ensures Get(b) == Unit(b[0], b[1])
  {
    assert b[1..][1..] == [];
  }

  // ------------------------------------------------------------ arrays of entries, runs of blocks

  function TableBytes(es: seq<Entry>): (b: seq<byte>)
    ensures |b| == ENTRY * |es|
  {
    seq(ENTRY * |es|, j requires 0 <= j < ENTRY * |es| => EntryBytes(es[j / ENTRY])[j % ENTRY])
  }

  function EntryAt(table: seq<byte>, i: nat): Entry
    requires ENTRY * (i + 1) <= |table|
  {
    EntryOf(table[ENTRY * i..ENTRY * (i + 1)])
  }

  lemma EntryAtRoundTrip(es: seq<Entry>, i: nat)
    requires i < |es|
    ensures EntryAt(TableBytes(es), i) == es[i]
  {
    hide EntryBytes, EntryOf;
    var part := TableBytes(es)[ENTRY * i..ENTRY * (i + 1)];
    forall j | 0 <= j < ENTRY
      ensures part[j] == EntryBytes(es[i])[j]
    {
      assert (ENTRY * i + j) / ENTRY == i && (ENTRY * i + j) % ENTRY == j;
    }
    assert part == EntryBytes(es[i]);
    EntryRoundTrip(es[i]);
  }

  function Chop(b: seq<byte>): (bs: seq<Block>)
    requires |b| % BLOCK == 0
    ensures |bs| == |b| / BLOCK
  {
    seq(|b| / BLOCK, i requires 0 <= i < |b| / BLOCK => b[BLOCK * i..BLOCK * (i + 1)])
  }

  function Glue(bs: seq<Block>): (b: seq<byte>)
    ensures |b| == BLOCK * |bs|
  {
    seq(BLOCK * |bs|, j requires 0 <= j < BLOCK * |bs| => bs[j / BLOCK][j % BLOCK])
  }

  lemma GlueChop(b: seq<byte>)
    requires |b| % BLOCK == 0
    ensures Glue(Chop(b)) == b
  {
    forall j | 0 <= j < |b|
      ensures Glue(Chop(b))[j] == b[j]
    {
      assert j == BLOCK * (j / BLOCK) + j % BLOCK;
    }
  }

  // ------------------------------------------------------------ efi_crc32

  function ToBits(b: seq<byte>): (s: seq<bv8>)
    ensures |s| == |b|
  {
    seq(|b|, i requires 0 <= i < |b| => b[i] as bv8)
  }

  function EfiCrc32(b: seq<byte>): u32
  {
    Crc32.Crc(0, ToBits(b)) as int
  }

  /** A change confined to four consecutive bytes changes the CRC. */
  lemma CrcTellsApart(x: seq<byte>, y: seq<byte>, p: nat)
    requires |x| == |y| && x != y
    requires forall i :: 0 <= i < |x| && !(p <= i < p + 4) ==> x[i] == y[i]
    ensures EfiCrc32(x) != EfiCrc32(y)
  {
    hide Crc32.Crc;
    var i :| 0 <= i < |x| && x[i] != y[i];
    Crc32.ByteBack(x[i]);
    Crc32.ByteBack(y[i]);
    assert ToBits(x)[i] != ToBits(y)[i];
    Crc32.CrcDetectsFourBytes(0, ToBits(x), ToBits(y), p);
    if EfiCrc32(x) == EfiCrc32(y) {
      Crc32.WordBack(Crc32.Crc(0, ToBits(x)), Crc32.Crc(0, ToBits(y)));
    }
  }
}
