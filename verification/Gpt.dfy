/**
disk/part_efi.c: writing a GPT to a block device, validating the header at a given LBA with
its entry array, and looking partitions up by number and by name.
 */
module Gpt {
  import opened BigNum
  import opened Uuid
  import opened NumberText
  import opened GptFormat
  import opened GptLayout

  const SYSTEM: Guid := [0x28, 0x73, 0x2A, 0xC1, 0x1F, 0xF8, 0xD2, 0x11, 0xBA, 0x4B, 0x00, 0xA0, 0xC9, 0x3E, 0xC9, 0x3B]

  const TABLE_BLOCKS: nat := 32

  // ------------------------------------------------------------ what is written

  /** The protective MBR: one record of type 0xEE from sector 1, and the signature 0xAA55. */
  function MbrBlock(lba: u32): Block
  {
    Zeros(446) + ([0, 0, 0, 0, 0xEE, 0, 0, 0] + Put32(1) + Put32(lba)) + Zeros(48) + [0x55, 0xAA]
  }

  function HeaderBlock(h: Header): Block { HeaderBytes(h) + Zeros(420) }

  /** The CRC over header_size bytes, from the block that the header lies in. */
  function Seal(h: Header): (s: Header)
    requires h.headerSize <= BLOCK
    ensures s == h.(headerCrc := s.headerCrc)
  {
    h.(headerCrc := EfiCrc32(HeaderBlock(h)[..h.headerSize]))
  }

  function CountOf(h: Header): nat { Wrap(h.entries * h.entrySize) }

  function BlocksFor(count: nat): nat
    requires count > 0
  {
    (count - 1) / BLOCK + 1
  }

  /** How many blocks of the entry array are written. */
  function TableCount(h: Header): nat
    requires h.entries >= 1
  {
    BlocksFor(ENTRY * h.entries)
  }

  /** The header and the entry array lie in buffers of whole blocks. */
  predicate Buffered(h: Header, table: seq<byte>)
  {
    && h.headerSize <= BLOCK && 1 <= h.entries && ENTRY * h.entries <= |table| < 0x1_0000_0000
    && |table| % BLOCK == 0 && CountOf(h) <= |table|
  }

  lemma BufferHolds(h: Header, table: seq<byte>)
    requires Buffered(h, table)
    ensures TableCount(h) <= |Chop(table)|
  {
  }

  /** The blocks of the entry array that are written. */
  function Entries(h: Header, table: seq<byte>): (bs: seq<Block>)
    requires Buffered(h, table)
    ensures |bs| == TableCount(h)
  {
    BufferHolds(h, table);
    Chop(table)[..TableCount(h)]
  }

  function Primary(h: Header, table: seq<byte>): (p: Header)
    requires Buffered(h, table)
    ensures p == h.(entriesCrc := EfiCrc32(table[..CountOf(h)]), headerCrc := p.headerCrc)
  {
    Seal(h.(entriesCrc := EfiCrc32(table[..CountOf(h)])))
  }

  /** The two addresses change places; the entry array's address stays. */
  function Backup(p: Header): Header
    requires p.headerSize <= BLOCK
  {
    Seal(p.(myLba := p.alternateLba, alternateLba := p.myLba, headerCrc := 0))
  }

  function Spliced(disk: seq<Block>, at: nat, data: seq<Block>): (d: seq<Block>)
    requires at + |data| <= |disk|
    ensures |d| == |disk|
    ensures forall i :: 0 <= i < |disk| ==> d[i] == if at <= i < at + |data| then data[i - at] else disk[i]
  {
    disk[..at] + data + disk[at + |data|..]
  }

  /** As gpt_fill_header leaves it. */
  predicate Standard(h: Header)
  {
    h.headerSize == 92 && h.headerCrc == 0 && h.entries == SLOTS && h.entrySize == ENTRY
  }

  /** Where the copy of the entry array and the second header go. */
  function CopyLba(h: Header): nat { Wrap(h.lastUsable + 1) }
  function LastLba(h: Header): nat { Wrap(h.alternateLba) }

  predicate Reaches(size: nat, h: Header)
    requires h.entries >= 1
  {
    2 + TableCount(h) <= size && CopyLba(h) + TableCount(h) <= size && LastLba(h) < size
  }

  type Table = t: seq<byte> | |t| == ENTRY * SLOTS witness Zeros(ENTRY * SLOTS)

  /** The device after the five writes. */
  function Tabled(disk: seq<Block>, h: Header, table: seq<byte>): (d: seq<Block>)
    requires |disk| < 0x1_0000_0000 && Buffered(h, table) && Reaches(|disk|, h)
    ensures |d| == |disk|
  {
    var p := Primary(h, table);
    var d1 := Spliced(disk, 0, [MbrBlock(|disk|)]);
    var d2 := Spliced(d1, 1, [HeaderBlock(p)]);
    var d3 := Spliced(d2, 2, Entries(h, table));
    var d4 := Spliced(d3, CopyLba(h), Entries(h, table));
    Spliced(d4, LastLba(h), [HeaderBlock(Backup(p))])
  }

  /** The blocks that the five writes may touch. */
  predicate Touched(h: Header, i: nat)
    requires h.entries >= 1
  {
    i < 2 + TableCount(h) || CopyLba(h) <= i < CopyLba(h) + TableCount(h) || i == LastLba(h)
  }

  // ------------------------------------------------------------ what is read

  datatype Check = Valid(head: Header, table: seq<byte>) | Invalid | Overrun

  predicate CanRead(disk: seq<Block>, bad: set<nat>, at: nat, n: nat)
  {
    at + n <= |disk| && forall i :: at <= i < at + n ==> i !in bad
  }

  /** The header as checked: its own CRC field is taken as zero. */
  function CheckedBytes(block: Block): (b: seq<byte>)
    ensures |b| == BLOCK
  {
    block[..16] + [0, 0, 0, 0] + block[20..]
  }

  function HeaderSound(block: Block, lba: nat, size: nat): bool
    requires HeaderOf(block).headerSize <= BLOCK
  {
    var h := HeaderOf(block);
    && h.signature == SIGNATURE
    && EfiCrc32(CheckedBytes(block)[..h.headerSize]) == h.headerCrc
    && h.myLba == lba
    && h.firstUsable <= size && h.lastUsable <= size
  }

  /** The entry array that a header points to, in whole blocks. */
  function ReadTable(disk: seq<Block>, bad: set<nat>, h: Header): (t: Option<seq<byte>>)
    ensures t.Some? ==> CountOf(h) <= |t.value|
  {
    var count := CountOf(h);
    if count == 0 then None
    else
      var at, n := Wrap(h.entryLba), BlocksFor(count);
      if CanRead(disk, bad, at, n) then Some(Glue(disk[at..at + n])) else None
  }

  function CheckGpt(disk: seq<Block>, bad: set<nat>, lba: nat): Check
  {
    if !CanRead(disk, bad, lba, 1) then Invalid
    else
      var h := HeaderOf(disk[lba]);
      if h.signature != SIGNATURE then Invalid
      else if h.headerSize > BLOCK then Overrun
      else if !HeaderSound(disk[lba], lba, |disk|) then Invalid
      else
        match ReadTable(disk, bad, h)
        case None => Invalid
        case Some(table) => if EfiCrc32(table[..CountOf(h)]) == h.entriesCrc then Valid(h, table) else Invalid
  }

  // ------------------------------------------------------------ lookup

  predicate IsPrint(c: byte) { 32 <= c <= 126 || 160 <= c }

  function Show(c: byte): byte { if c != 0 && !IsPrint(c) then 46 else c }

  function Shown(n: Name): seq<byte> { seq(36, k requires 0 <= k < 36 => Show(n[k] % 256)) }

  /** A C string: up to the first zero byte. */
  function CString(b: seq<byte>): seq<byte>
  {
    if b == [] || b[0] == 0 then [] else [b[0]] + CString(b[1..])
  }

  function NameText(e: Entry): seq<byte> { CString(Shown(e.name)) }

  function Bootable(e: Entry): bool { (e.attributes / 4) % 2 == 1 || e.kind == SYSTEM }

  datatype Info = Found(start: u32, size: u32, name: seq<byte>, bootable: bool, uuid: string) | NotFound | Beyond

  function InfoOf(e: Entry): Info
  {
    Found(Wrap(e.start), Wrap(e.end + 1 - e.start), NameText(e), Bootable(e), TextOf(e.id))
  }

  function InfoAt(c: Check, part: int): Info
  {
    if part < 1 then NotFound
    else
      match c
      case Invalid => NotFound
      case Overrun => Beyond
      case Valid(h, table) =>
        if part > h.entries then NotFound
        else if ENTRY * part > |table| then Beyond
        else if EntryAt(table, part - 1).kind == UNUSED then NotFound
        else InfoOf(EntryAt(table, part - 1))
  }

  /** The results 1, 0 and -1 of the lookup by name, and reading past the entry array. */
  datatype Span = At(start: u32, length: u32) | Missing | NoTable | PastEnd

  /** The first entry from i on that shows the name. */
  function SpanFrom(h: Header, table: seq<byte>, name: seq<byte>, i: nat): Span
    decreases h.entries - i
  {
    if i >= h.entries then Missing
    else if ENTRY * (i + 1) > |table| then PastEnd
    else
      var e := EntryAt(table, i);
      if NameText(e) == name then At(Wrap(e.start), Wrap(e.end + 1 - e.start)) else SpanFrom(h, table, name, i + 1)
  }

  function SpanOf(c: Check, name: seq<byte>): Span
  {
    match c
    case Invalid => NoTable
    case Overrun => PastEnd
    case Valid(h, table) => SpanFrom(h, table, name, 0)
  }

  /** The MBR test: the signature, and some record of type 0xEE that starts at sector 1. */
  predicate PmbrPart(b: Block, i: nat)
    requires i < 4
  {
    b[450 + 16 * i] == 0xEE && Get32(b[454 + 16 * i..458 + 16 * i]) == 1
  }

  predicate PmbrValid(b: Block)
  {
    b[510] == 0x55 && b[511] == 0xAA && exists i :: 0 <= i < 4 && PmbrPart(b, i)
  }

  // ------------------------------------------------------------ the device

  class Device {
    var blocks: seq<Block>
    /** Blocks on which a read, or a write, fails. */
    const unreadable: set<nat>
    const unwritable: set<nat>

    constructor (initial: seq<Block>, unreadable: set<nat>, unwritable: set<nat>)
      ensures blocks == initial && this.unreadable == unreadable && this.unwritable == unwritable
    {
      this.blocks := initial;
      this.unreadable := unreadable;
      this.unwritable := unwritable;
    }

    predicate CanWrite(at: nat, n: nat)
      reads this
    {
      at + n <= |blocks| && forall i :: at <= i < at + n ==> i !in unwritable
    }

    /** block_write_gpt: a failing write may leave a part of its data behind. */
    method WriteBlocks(at: nat, data: seq<Block>) returns (ok: bool)
      modifies this`blocks
      ensures |blocks| == |old(blocks)|
      ensures ok == old(CanWrite(at, |data|))
      ensures ok ==> blocks == Spliced(old(blocks), at, data)
      ensures forall i :: 0 <= i < |blocks| && !(at <= i < at + |data|) ==> blocks[i] == old(blocks[i])
    {
      ok := CanWrite(at, |data|);
      var done: nat := |data|;
      if !ok {
        done := 0;
        while at + done < |blocks| && done < |data| && at + done !in unwritable
          invariant done <= |data| && (done > 0 ==> at + done <= |blocks|)
        {
          done := done + 1;
        }
      }
      if done > 0 {
        blocks := Spliced(blocks, at, data[..done]);
        assert ok ==> data[..done] == data;
      } else {
        assert ok ==> Spliced(blocks, at, data) == blocks;
      }
    }

    /** block_read_gpt. */
    method ReadBlocks(at: nat, n: nat) returns (r: Option<seq<Block>>)
      ensures r == if CanRead(blocks, unreadable, at, n) then Some(blocks[at..at + n]) else None
    {
      if CanRead(blocks, unreadable, at, n) {
        return Some(blocks[at..at + n]);
      }
      return None;
    }

    /** Every block of the five writes can be written. */
    predicate CanHold(h: Header)
      requires h.entries >= 1
      reads this
    {
      Reaches(|blocks|, h) && forall i :: 0 <= i < |blocks| && Touched(h, i) ==> i !in unwritable
    }

    /** write_gpt_table. */
    method WriteGptTable(h: Header, es: seq<Entry>) returns (ok: bool)
      requires |blocks| < 0x1_0000_0000 && Buffered(h, TableBytes(es))
      modifies this`blocks
      ensures |blocks| == |old(blocks)|
      ensures ok == old(CanHold(h))
      ensures ok ==> blocks == Tabled(old(blocks), h, TableBytes(es))
      ensures forall i :: 0 <= i < |blocks| && !Touched(h, i) ==> blocks[i] == old(blocks[i])
    {
      hide Spliced, MbrBlock, TableBytes, Entries, HeaderBlock, Primary, Backup, Wrap, TableCount;
      var table := TableBytes(es);
      assert h.headerSize <= BLOCK;
      ok := WriteBlocks(0, [MbrBlock(|blocks|)]);
      if !ok {
        return;
      }
      var p := Primary(h, table);
      ok := WriteBlocks(1, [HeaderBlock(p)]);
      if !ok {
        return;
      }
      ok := WriteBlocks(2, Entries(h, table));
      if !ok {
        return;
      }
      var b := Backup(p);
      ok := WriteBlocks(CopyLba(h), Entries(h, table));
      if !ok {
        return;
      }
      ok := WriteBlocks(LastLba(h), [HeaderBlock(b)]);
    }

    /** gpt_restore. */
    method GptRestore(guid: string, ps: seq<Partition>) returns (ok: bool)
      requires |blocks| < 0x1_0000_0000 && |ps| <= SLOTS
      modifies this`blocks
      ensures |blocks| == |old(blocks)|
      ensures ok <==> IsUuid(guid) && (var h := NewHeader(|blocks|, guid); Fits(h, ps) && old(CanHold(h)))
      ensures ok ==> blocks == Restored(old(blocks), guid, ps)
      ensures !IsUuid(guid) || !Fits(NewHeader(|blocks|, guid), ps) ==> blocks == old(blocks)
      ensures forall i :: 34 <= i < |blocks| - 33 ==> blocks[i] == old(blocks[i])
    {
      hide IsUuid, BytesOf, Fits, Filled, TableBytes, Tabled;
      var lba: u32 := |blocks|;
      var h := FillHeader(lba, guid);
      if h.None? {
        return false;
      }
      var es := FillPte(h.value, ps);
      if es.None? {
        return false;
      }
      ok := WriteGptTable(h.value, es.value);
    }

    /** alloc_read_gpt_entries. */
    method ReadEntries(h: Header) returns (r: Option<seq<byte>>)
      ensures r == ReadTable(blocks, unreadable, h)
    {
      hide Glue, Wrap;
      var count := CountOf(h);
      if count == 0 {
        return None;
      }
      var bs := ReadBlocks(Wrap(h.entryLba), BlocksFor(count));
      match bs
      case None => return None;
      case Some(b) => return Some(Glue(b));
    }

    /** is_gpt_valid. */
    method IsGptValid(lba: nat) returns (r: Check)
      ensures r == CheckGpt(blocks, unreadable, lba)
    {
      hide EfiCrc32, HeaderOf, CheckedBytes, ReadTable;
      var head := ReadBlocks(lba, 1);
      if head.None? {
        return Invalid;
      }
      var block: Block := head.value[0];
      var h := HeaderOf(block);
      if h.signature != SIGNATURE {
        return Invalid;
      }
      if h.headerSize > BLOCK {
        return Overrun;
      }
      if EfiCrc32(CheckedBytes(block)[..h.headerSize]) != h.headerCrc {
        return Invalid;
      }
      if h.myLba != lba || h.firstUsable > |blocks| || h.lastUsable > |blocks| {
        return Invalid;
      }
      var table := ReadEntries(h);
      if table.None? || EfiCrc32(table.value[..CountOf(h)]) != h.entriesCrc {
        return Invalid;
      }
      return Valid(h, table.value);
    }

    /** get_partition_info_efi. */
    method GetPartitionInfo(part: int) returns (r: Info)
      ensures r == InfoAt(CheckGpt(blocks, unreadable, 1), part)
    {
      hide CheckGpt, InfoOf, EntryAt;
      if part < 1 {
        return NotFound;
      }
      var c := IsGptValid(1);
      match c
      case Invalid => return NotFound;
      case Overrun => return Beyond;
      case Valid(h, table) =>
        if part > h.entries {
          return NotFound;
        }
        if ENTRY * part > |table| {
          return Beyond;
        }
        var e := EntryAt(table, part - 1);
        if e.kind == UNUSED {
          return NotFound;
        }
        return InfoOf(e);
    }

    /** gpt_find_part_by_name. */
    method FindPartByName(name: seq<byte>) returns (r: Span)
      ensures r == SpanOf(CheckGpt(blocks, unreadable, 1), name)
    {
      hide CheckGpt, EntryAt, NameText;
      var c := IsGptValid(1);
      match c
      case Invalid => return NoTable;
      case Overrun => return PastEnd;
      case Valid(h, table) =>
        var i := 0;
        while i < h.entries
          invariant 0 <= i <= h.entries
          invariant SpanFrom(h, table, name, 0) == SpanFrom(h, table, name, i)
        {
          if ENTRY * (i + 1) > |table| {
            return PastEnd;
          }
          var e := EntryAt(table, i);
          if NameText(e) == name {
            return At(Wrap(e.start), Wrap(e.end + 1 - e.start));
          }
          i := i + 1;
        }
        return Missing;
    }

    /** test_part_efi. */
    method TestPart() returns (ok: bool)
      ensures ok == (CanRead(blocks, unreadable, 0, 1) && PmbrValid(blocks[0]))
    {
      var mbr := ReadBlocks(0, 1);
      if mbr.None? {
        return false;
      }
      ok := IsPmbrValid(mbr.value[0]);
    }
  }

  method IsPmbrValid(b: Block) returns (ok: bool)
    ensures ok == PmbrValid(b)
  {
    hide PmbrPart;
    if b[510] != 0x55 || b[511] != 0xAA {
      return false;
    }
    var i := 0;
    while i < 4
      invariant 0 <= i <= 4 && forall j :: 0 <= j < i ==> !PmbrPart(b, j)
    {
      if PmbrPart(b, i) {
        return true;
      }
      i := i + 1;
    }
    return false;
  }

  // ------------------------------------------------------------ write, then validate

  /** The device after a successful gpt_restore. */
  function Restored(disk: seq<Block>, guid: string, ps: seq<Partition>): (d: seq<Block>)
    requires |disk| < 0x1_0000_0000 && |ps| <= SLOTS && IsUuid(guid)
    requires var h := NewHeader(|disk|, guid); Fits(h, ps) && Reaches(|disk|, h)
    ensures |d| == |disk|
  {
    var h := NewHeader(|disk|, guid);
    Tabled(disk, h, TableBytes(Filled(h, ps)))
  }

  /** The five ranges are pairwise disjoint exactly on a device of at least 67 blocks. */
  lemma RangesDisjoint(size: nat, guid: string)
    requires IsUuid(guid) && 34 <= size < 0x1_0000_0000
    ensures var h := NewHeader(size, guid);
            && CopyLba(h) == size - 33 && LastLba(h) == size - 1
            && (size >= 67 <==> 2 + TABLE_BLOCKS <= CopyLba(h))
            && CopyLba(h) + TABLE_BLOCKS == LastLba(h)
  {
    hide IsUuid, BytesOf;
  }

  /** One requested partition is enough to refuse every device that is too small. */
  lemma AcceptedIsLarge(size: nat, guid: string, ps: seq<Partition>)
    requires IsUuid(guid) && size < 0x1_0000_0000
    requires var h := NewHeader(size, guid); Fits(h, ps) && Reaches(size, h)
    requires |ps| >= 1 && NoWrap(34, ps)
    ensures size >= 69
  {
    hide IsUuid, BytesOf;
    var h := NewHeader(size, guid);
    assert FitsAt(h, ps, 0);
    OffsetIsIdeal(34, ps, 1);
  }

  /** With 128 entries of 128 bytes the whole array of 32 blocks is written and checked. */
  lemma WholeTable(h: Header, table: Table)
    requires Standard(h)
    ensures Buffered(h, table) && TableCount(h) == TABLE_BLOCKS && CountOf(h) == |table|
    ensures Entries(h, table) == Chop(table) && table[..CountOf(h)] == table
  {
    hide Chop;
  }

  /** What the five writes leave, block by block. */
  lemma TabledBlocks(disk: seq<Block>, h: Header, table: Table)
    requires 67 <= |disk| < 0x1_0000_0000 && CopyLba(h) == |disk| - 33 && LastLba(h) == |disk| - 1 && Standard(h)
    ensures Buffered(h, table) && Reaches(|disk|, h)
    ensures var d, p, n := Tabled(disk, h, table), Primary(h, table), |disk|;
            && d[0] == MbrBlock(n) && d[1] == HeaderBlock(p) && d[n - 1] == HeaderBlock(Backup(p))
            && d[2..34] == Chop(table) && d[n - 33..n - 1] == Chop(table)
            && d[34..n - 33] == disk[34..n - 33]
  {
    WholeTable(h, table);
    hide MbrBlock, HeaderBlock, Primary, Backup, Chop, CopyLba, LastLba, Entries, TableCount, Spliced;
    var p := Primary(h, table);
    FiveSplices(disk, MbrBlock(|disk|), HeaderBlock(p), Chop(table), HeaderBlock(Backup(p)));
  }

  lemma FiveSplices(disk: seq<Block>, m: Block, p: Block, es: seq<Block>, b: Block)
    requires 67 <= |disk| && |es| == TABLE_BLOCKS
    ensures var n := |disk|;
            var d := Spliced(Spliced(Spliced(Spliced(Spliced(disk, 0, [m]), 1, [p]), 2, es), n - 33, es), n - 1, [b]);
            && d[0] == m && d[1] == p && d[n - 1] == b && d[2..34] == es && d[n - 33..n - 1] == es
            && d[34..n - 33] == disk[34..n - 33]
  {
    hide Spliced;
  }

  lemma HeaderBlockReads(h: Header)
    ensures HeaderOf(HeaderBlock(h)) == h
    ensures CheckedBytes(HeaderBlock(h))[..92] == HeaderBytes(h.(headerCrc := 0))
  {
    HeaderRoundTrip(h, Zeros(420));
    hide HeaderOf;
    ClearedCrc(h);
    hide HeaderBytes;
    var b := HeaderBlock(h);
    assert b[..16] == HeaderBytes(h)[..16] && b[20..92] == HeaderBytes(h)[20..92];
    assert CheckedBytes(b)[..92] == b[..16] + [0, 0, 0, 0] + b[20..92];
  }

  lemma HeaderBlockStart(h: Header)
    ensures HeaderBlock(h)[..92] == HeaderBytes(h)
  {
    hide HeaderBytes;
  }

  lemma PutZero()
    ensures Put32(0) == [0, 0, 0, 0]
  {
    assert Put(0, 1) == [0];
    assert Put(0, 2) == [0, 0];
    assert Put(0, 3) == [0, 0, 0];
  }

  /** Clearing the four bytes of the CRC is clearing the field. */
  lemma ClearedCrc(h: Header)
    ensures var b := HeaderBytes(h); b[..16] + [0, 0, 0, 0] + b[20..92] == HeaderBytes(h.(headerCrc := 0))
  {
    PutZero();
    hide Put32, Put64;
    var k, z := Kind(h), Kind(h.(headerCrc := 0));
    assert k[..16] == z[..16] && k[20..] == z[20..] && z[16..20] == Put32(0);
    hide Kind, Places, TableFields;
    var b, c := HeaderBytes(h), HeaderBytes(h.(headerCrc := 0));
    assert b[..16] == k[..16] && b[20..24] == k[20..] && c[..16] == z[..16] && c[16..20] == z[16..20] && c[20..24] == z[20..];
    assert b[24..] == c[24..];
    assert b[20..92] == b[20..24] + b[24..];
    assert c == c[..16] + c[16..20] + c[20..24] + c[24..];
  }

  /** A sealed header with its entry array at the address it names is accepted if and only if it carries the
      signature, its own address, a usable area within the device, and the checksum of that array. */
  lemma SealedExactly(disk: seq<Block>, bad: set<nat>, lba: nat, g: Header, table: Table)
    requires Standard(g) && g.entryLba < 0x1_0000_0000
    requires CanRead(disk, bad, lba, 1) && disk[lba] == HeaderBlock(Seal(g))
    requires CanRead(disk, bad, g.entryLba, 32) && disk[g.entryLba..g.entryLba + 32] == Chop(table)
    ensures var right := Put64(g.signature) == [69, 70, 73, 32, 80, 65, 82, 84] && g.myLba == lba
                         && g.firstUsable <= |disk| && g.lastUsable <= |disk| && g.entriesCrc == EfiCrc32(table);
            CheckGpt(disk, bad, lba) == if right then Valid(Seal(g), table) else Invalid
  {
    hide EfiCrc32, HeaderOf, HeaderBytes, HeaderBlock, CheckedBytes, Chop, Glue, Put64;
    HeaderBlockReads(Seal(g));
    HeaderBlockStart(g);
    assert Seal(g).(headerCrc := 0) == g;
    assert CountOf(g) == 16384 && BlocksFor(16384) == 32;
    GlueChop(table);
    assert table[..16384] == table;
    SignatureText();
    RoundTrip64(g.signature);
    RoundTrip64(SIGNATURE);
  }

  lemma SealedIsValid(disk: seq<Block>, bad: set<nat>, lba: nat, g: Header, table: Table)
    requires Standard(g) && g.signature == SIGNATURE && g.myLba == lba && g.entryLba == 2
    requires g.firstUsable <= |disk| && g.lastUsable <= |disk| && g.entriesCrc == EfiCrc32(table)
    requires CanRead(disk, bad, lba, 1) && disk[lba] == HeaderBlock(Seal(g))
    requires CanRead(disk, bad, 2, 32) && disk[2..34] == Chop(table)
    ensures CheckGpt(disk, bad, lba) == Valid(Seal(g), table)
  {
    hide EfiCrc32, HeaderBlock, Chop, Put64, CheckGpt;
    SignatureText();
    SealedExactly(disk, bad, lba, g, table);
  }

  /**
  A device restored with room for both copies is accepted at LBA 1 and at the last LBA, with the
  same entry array.
   */
  lemma RestoredIsValid(disk: seq<Block>, bad: set<nat>, guid: string, ps: seq<Partition>)
    requires 67 <= |disk| < 0x1_0000_0000 && |ps| <= SLOTS && IsUuid(guid)
    requires Fits(NewHeader(|disk|, guid), ps) && Reaches(|disk|, NewHeader(|disk|, guid))
    requires CanRead(disk, bad, 1, 33)
    ensures var h := NewHeader(|disk|, guid);
            var table := TableBytes(Filled(h, ps));
            var d, p := Restored(disk, guid, ps), Primary(h, table);
            && CheckGpt(d, bad, 1) == Valid(p, table)
            && (|disk| - 1 !in bad ==> CheckGpt(d, bad, |disk| - 1) == Valid(Backup(p), table))
  {
    hide IsUuid, BytesOf, Fits, Filled, TableBytes, EfiCrc32, HeaderBytes, HeaderBlock, MbrBlock, CheckGpt, Chop;
    var h := NewHeader(|disk|, guid);
    var table: Table := TableBytes(Filled(h, ps));
    var d, p := Restored(disk, guid, ps), Primary(h, table);
    RangesDisjoint(|disk|, guid);
    TabledBlocks(disk, h, table);
    WholeTable(h, table);
    hide Tabled;
    SealedIsValid(d, bad, 1, h.(entriesCrc := EfiCrc32(table)), table);
    if |disk| - 1 !in bad {
      var g := p.(myLba := p.alternateLba, alternateLba := p.myLba, headerCrc := 0);
      SealedIsValid(d, bad, |disk| - 1, g, table);
    }
  }

  /** What both headers of a device of n blocks say. */
  predicate Shared(x: Header, n: nat, guid: string)
  {
    && x.signature == SIGNATURE && x.revision == 0x1_0000 && x.headerSize == 92 && x.reserved == 0
    && x.firstUsable == 34 && x.lastUsable == n - 34 && TextOf(x.diskGuid) == LowerText(guid)
    && x.entryLba == 2 && x.entries == 128 && x.entrySize == 128
  }

  /** The two headers of a restored device: each names its own block and the other's, both name the usable
      area between the copies, and both name the first entry array. */
  lemma RestoredHeaders(disk: seq<Block>, guid: string, ps: seq<Partition>)
    requires 67 <= |disk| < 0x1_0000_0000 && |ps| <= SLOTS && IsUuid(guid)
    requires Fits(NewHeader(|disk|, guid), ps) && Reaches(|disk|, NewHeader(|disk|, guid))
    ensures var d := Restored(disk, guid, ps);
            var g, h := HeaderOf(d[1]), HeaderOf(d[|disk| - 1]);
            && g.myLba == 1 && g.alternateLba == |disk| - 1 && h.myLba == |disk| - 1 && h.alternateLba == 1
            && Shared(g, |disk|, guid) && Shared(h, |disk|, guid)
  {
    HeadersAre(disk, guid, ps);
    NewHeaderSays(|disk|, guid);
    hide *;
    var h := NewHeader(|disk|, guid);
    PairSays(h, TableBytes(Filled(h, ps)), |disk|, guid);
  }

  lemma NewHeaderSays(lba: u32, guid: string)
    requires 67 <= lba && IsUuid(guid)
    ensures var h := NewHeader(lba, guid);
            h.myLba == 1 && h.alternateLba == lba - 1 && Shared(h, lba, guid) && Standard(h)
  {
    ParseThenPrint(guid);
    hide IsUuid, BytesOf, TextOf, LowerText;
  }

  lemma PairSays(h: Header, table: seq<byte>, n: nat, guid: string)
    requires Buffered(h, table) && Shared(h, n, guid)
    ensures var p := Primary(h, table);
            && p.myLba == h.myLba && p.alternateLba == h.alternateLba && Shared(p, n, guid)
            && Backup(p).myLba == h.alternateLba && Backup(p).alternateLba == h.myLba && Shared(Backup(p), n, guid)
  {
    hide EfiCrc32, TextOf, LowerText, HeaderBlock;
  }

  lemma HeadersAre(disk: seq<Block>, guid: string, ps: seq<Partition>)
    requires 67 <= |disk| < 0x1_0000_0000 && |ps| <= SLOTS && IsUuid(guid)
    requires Fits(NewHeader(|disk|, guid), ps) && Reaches(|disk|, NewHeader(|disk|, guid))
    ensures var h, d := NewHeader(|disk|, guid), Restored(disk, guid, ps);
            var p := Primary(h, TableBytes(Filled(h, ps)));
            HeaderOf(d[1]) == p && HeaderOf(d[|disk| - 1]) == Backup(p)
  {
    hide IsUuid, BytesOf, Fits, Filled, TableBytes, EfiCrc32, HeaderBytes, HeaderBlock, MbrBlock, HeaderOf, Chop;
    var h := NewHeader(|disk|, guid);
    var table := TableBytes(Filled(h, ps));
    RangesDisjoint(|disk|, guid);
    TabledBlocks(disk, h, table);
    hide Tabled, Primary, Backup;
    HeaderBlockReads(Primary(h, table));
    HeaderBlockReads(Backup(Primary(h, table)));
  }

  lemma RestoredMbr(disk: seq<Block>, guid: string, ps: seq<Partition>)
    requires 67 <= |disk| < 0x1_0000_0000 && |ps| <= SLOTS && IsUuid(guid)
    requires Fits(NewHeader(|disk|, guid), ps) && Reaches(|disk|, NewHeader(|disk|, guid))
    ensures PmbrValid(Restored(disk, guid, ps)[0])
  {
    hide IsUuid, BytesOf, Fits, Filled, TableBytes, EfiCrc32, HeaderBytes, HeaderBlock, MbrBlock, PmbrValid;
    var h := NewHeader(|disk|, guid);
    RangesDisjoint(|disk|, guid);
    TabledBlocks(disk, h, TableBytes(Filled(h, ps)));
    hide Tabled;
    MbrIsValid(|disk|);
  }

  /** The protective MBR: one record of type 0xee that covers the device from block 1 on as far as 32 bits
      tell, the boot signature, and nothing else (section 5.2.3 of the UEFI Specification). */
  lemma MbrSays(lba: u32)
    ensures var b := MbrBlock(lba);
            && b[450] == 0xee && NumberAt(b, 454, 458) == 1 && NumberAt(b, 458, 462) == lba
            && NumberAt(b, 510, 512) == 0xaa55
            && forall i :: 0 <= i < 450 || 451 <= i < 454 || 462 <= i < 510 ==> b[i] == 0
  {
    hide Put32, Get, BytesValue, Backwards;
    var b := MbrBlock(lba);
    assert b[454..458] == Put32(1) && b[458..462] == Put32(lba);
    RoundTrip32(1);
    RoundTrip32(lba);
    assert b[510..512] == [0x55, 0xAA];
    NumberIs(b, 454, 458);
    NumberIs(b, 458, 462);
    NumberIs(b, 510, 512);
    UnitIsNumber([0x55, 0xAA]);
  }

  /** At p stands a record of type 0xee that starts at block 1. */
  predicate Protective(b: Block, p: nat)
  {
    (p == 446 || p == 462 || p == 478 || p == 494) && b[p + 4] == 0xee && NumberAt(b, p + 8, p + 12) == 1
  }

  /** Which first blocks pass: those with the boot signature and a protective one among the four records. */
  lemma PassesMbr(b: Block)
    ensures PmbrValid(b) <==> NumberAt(b, 510, 512) == 0xaa55 && exists p :: Protective(b, p)
  {
    hide Get, BytesValue, Backwards;
    NumberIs(b, 510, 512);
    UnitIsNumber(b[510..512]);
    forall i | 0 <= i < 4
      ensures PmbrPart(b, i) <==> b[446 + 16 * i + 4] == 0xee && NumberAt(b, 446 + 16 * i + 8, 446 + 16 * i + 12) == 1
    {
      NumberIs(b, 446 + 16 * i + 8, 446 + 16 * i + 12);
    }
    hide NumberAt, PmbrPart;
    if PmbrValid(b) {
      var i :| 0 <= i < 4 && PmbrPart(b, i);
      var p := 446 + 16 * i;
      assert Protective(b, p);
    }
    forall p | Protective(b, p)
      ensures exists i :: 0 <= i < 4 && PmbrPart(b, i)
    {
      var i := (p - 446) / 16;
      assert p == 446 + 16 * i;
      assert PmbrPart(b, i);
    }
  }

  lemma MbrIsValid(lba: u32)
    ensures PmbrValid(MbrBlock(lba))
  {
    hide Put32, Get32;
    var b := MbrBlock(lba);
    assert b[454..458] == Put32(1);
    RoundTrip32(1);
    assert PmbrPart(b, 0);
  }

  // ------------------------------------------------------------ what the lookups return

  /** The name that a request shows: its C string with unprintable bytes as dots. */
  function Label(p: Partition): seq<byte> { CString(Shown(Units(p))) }

  /** The size that a request gets. */
  function SizeFor(h: Header, ps: seq<Partition>, i: nat): u32
    requires i < |ps|
  {
    if i == |ps| - 1 && ps[i].size == 0 then Wrap(h.lastUsable + 1 - StartOf(h.firstUsable, ps, i)) else ps[i].size
  }

  lemma WrapSum(start: u32, size: u32)
    ensures Wrap(Wrap(Wrap(start + size) - 1) + 1 - start) == size
  {
  }

  lemma EntrySpan(h: Header, ps: seq<Partition>, i: nat)
    requires i < |ps| && FitsAt(h, ps, i)
    ensures var e := EntryFor(h, ps, i);
            && Wrap(e.start) == StartOf(h.firstUsable, ps, i)
            && Wrap(e.end + 1 - e.start) == SizeFor(h, ps, i)
  {
    hide IsUuid, BytesOf, Units, Wrap;
    WrapSmall(StartOf(h.firstUsable, ps, i));
    WrapSum(StartOf(h.firstUsable, ps, i), ps[i].size);
  }

  /** Partition number i + 1 of a restored device is the i-th request; other numbers are refused. */
  lemma RestoredInfo(disk: seq<Block>, bad: set<nat>, guid: string, ps: seq<Partition>, part: int)
    requires 67 <= |disk| < 0x1_0000_0000 && |ps| <= SLOTS && IsUuid(guid)
    requires Fits(NewHeader(|disk|, guid), ps) && Reaches(|disk|, NewHeader(|disk|, guid))
    requires CanRead(disk, bad, 1, 33)
    ensures var h := NewHeader(|disk|, guid);
            var info := InfoAt(CheckGpt(Restored(disk, guid, ps), bad, 1), part);
            if 1 <= part <= |ps| then
              info == Found(StartOf(34, ps, part - 1), SizeFor(h, ps, part - 1), Label(ps[part - 1]), false,
                            LowerText(ps[part - 1].uuid))
            else
              info == NotFound
  {
    hide IsUuid, BytesOf, Fits, TableBytes, EfiCrc32, HeaderBytes, CheckGpt, Restored, EntryAt, LowerText, TextOf,
      Units, Shown, CString, EndOf, StartOf, Wrap, SizeFor;
    RestoredIsValid(disk, bad, guid, ps);
    var h := NewHeader(|disk|, guid);
    var es := Filled(h, ps);
    if 1 <= part <= SLOTS {
      EntryAtRoundTrip(es, part - 1);
      if part <= |ps| {
        InfoOfSlot(h, ps, part - 1);
      }
    }
  }

  lemma InfoOfSlot(h: Header, ps: seq<Partition>, i: nat)
    requires i < |ps| <= SLOTS && Fits(h, ps)
    ensures var e := Filled(h, ps)[i];
            && e.kind != UNUSED
            && InfoOf(e) == Found(StartOf(h.firstUsable, ps, i), SizeFor(h, ps, i), Label(ps[i]), false,
                                  LowerText(ps[i].uuid))
  {
    hide IsUuid, BytesOf, LowerText, TextOf, Units, Shown, CString, EndOf, StartOf, Wrap, SizeFor;
    assert FitsAt(h, ps, i);
    EntrySpan(h, ps, i);
    ParseThenPrint(ps[i].uuid);
    assert BASIC_DATA[0] != UNUSED[0] && BASIC_DATA[0] != SYSTEM[0];
  }

  lemma {:induction false} SpanSkips(h: Header, table: seq<byte>, name: seq<byte>, i: nat, k: nat)
    requires i <= k <= h.entries && ENTRY * k <= |table|
    requires forall j :: i <= j < k ==> NameText(EntryAt(table, j)) != name
    ensures SpanFrom(h, table, name, i) == SpanFrom(h, table, name, k)
    decreases k - i
  {
    hide EntryAt, NameText;
    if i < k {
      SpanSkips(h, table, name, i + 1, k);
    }
  }

  lemma NoEntryHasNoName()
    ensures NameText(NoEntry()) == []
  {
  }

  lemma SlotName(h: Header, ps: seq<Partition>, i: nat)
    requires i < SLOTS && |ps| <= SLOTS && Fits(h, ps)
    ensures NameText(EntryAt(TableBytes(Filled(h, ps)), i)) == if i < |ps| then Label(ps[i]) else []
  {
    hide IsUuid, BytesOf, TableBytes, EntryAt, Units, Shown, CString, EndOf, StartOf;
    EntryAtRoundTrip(Filled(h, ps), i);
    assert i < |ps| ==> FitsAt(h, ps, i);
    NoEntryHasNoName();
  }

  /** Looking a name up finds the first request that shows it, and nothing when none does. */
  lemma RestoredSpan(disk: seq<Block>, bad: set<nat>, guid: string, ps: seq<Partition>, name: seq<byte>, k: nat)
    requires 67 <= |disk| < 0x1_0000_0000 && |ps| <= SLOTS && IsUuid(guid)
    requires Fits(NewHeader(|disk|, guid), ps) && Reaches(|disk|, NewHeader(|disk|, guid))
    requires CanRead(disk, bad, 1, 33)
    requires k <= |ps| && forall j :: 0 <= j < k ==> Label(ps[j]) != name
    ensures var h := NewHeader(|disk|, guid);
            var span := SpanOf(CheckGpt(Restored(disk, guid, ps), bad, 1), name);
            && (k < |ps| && Label(ps[k]) == name ==> span == At(StartOf(34, ps, k), SizeFor(h, ps, k)))
            && (k == |ps| && name != [] ==> span == Missing)
  {
    hide IsUuid, BytesOf, Fits, Filled, TableBytes, EfiCrc32, HeaderBytes, CheckGpt, Restored, EntryAt, NameText,
      Label, Wrap, SizeFor, StartOf;
    RestoredIsValid(disk, bad, guid, ps);
    var h := NewHeader(|disk|, guid);
    var table := TableBytes(Filled(h, ps));
    WholeTable(h, table);
    var p := Primary(h, table);
    forall j | 0 <= j < SLOTS
      ensures NameText(EntryAt(table, j)) == if j < |ps| then Label(ps[j]) else []
    {
      SlotName(h, ps, j);
    }
    if k < |ps| {
      SpanSkips(p, table, name, 0, k);
      if Label(ps[k]) == name {
        SpanOfSlot(h, ps, k);
      }
    } else if name != [] {
      SpanSkips(p, table, name, 0, SLOTS);
    }
  }

  lemma SpanOfSlot(h: Header, ps: seq<Partition>, i: nat)
    requires i < |ps| <= SLOTS && Fits(h, ps)
    ensures var e := EntryAt(TableBytes(Filled(h, ps)), i);
            Wrap(e.start) == StartOf(h.firstUsable, ps, i) && Wrap(e.end + 1 - e.start) == SizeFor(h, ps, i)
  {
    hide IsUuid, BytesOf, TableBytes, EntryAt, Units, EndOf, StartOf, Wrap, SizeFor;
    EntryAtRoundTrip(Filled(h, ps), i);
    assert FitsAt(h, ps, i);
    EntrySpan(h, ps, i);
  }

  lemma {:induction false} CStringTo(b: seq<byte>, k: nat)
    requires k < |b| && b[k] == 0 && forall j :: 0 <= j < k ==> b[j] != 0
    ensures CString(b) == b[..k]
  {
    if k != 0 {
      CStringTo(b[1..], k - 1);
      assert b[..k] == [b[0]] + b[1..][..k - 1];
    }
  }

  /** The name shown: the bytes of the request's name, which run on into its type when they do not end
      inside the field, up to the first zero byte; what is not printable is shown as a dot. */
  lemma NameShown(p: Partition, k: nat)
    requires k <= 36 && (k < 36 ==> (p.name + p.kind)[k] == 0) && forall j :: 0 <= j < k ==> (p.name + p.kind)[j] != 0
    ensures |Label(p)| == k
    ensures forall j :: 0 <= j < k ==>
      var c := (p.name + p.kind)[j]; Label(p)[j] == if 32 <= c <= 126 || 160 <= c then c else 46
  {
    hide UnitAt;
    var b, q := Shown(Units(p)), p.name + p.kind;
    forall j | 0 <= j < 36
      ensures b[j] == Show(q[j])
    {
      UnitIs(p, j);
    }
    if k < 36 {
      CStringTo(b, k);
    } else {
      CStringAll(b);
    }
  }

  lemma UnitIs(p: Partition, j: nat)
    requires j < 36
    ensures UnitAt(p, j) == (p.name + p.kind)[j] && UnitAt(p, j) % 256 == (p.name + p.kind)[j]
  {
  }

  lemma {:induction false} CStringAll(b: seq<byte>)
    requires forall j :: 0 <= j < |b| ==> b[j] != 0
    ensures CString(b) == b
  {
    if b != [] {
      CStringAll(b[1..]);
    }
  }

  /** A printable name that ends inside its field is shown as it is. */
  lemma LabelIsName(p: Partition, k: nat)
    requires k < 32 && p.name[k] == 0 && forall j :: 0 <= j < k ==> IsPrint(p.name[j])
    ensures Label(p) == p.name[..k]
  {
    hide Label;
    assert forall j :: 0 <= j <= k ==> (p.name + p.kind)[j] == p.name[j];
    NameShown(p, k);
  }

  /** A partition is bootable if bit 2 of its attributes is set or it is an EFI system partition. */
  lemma BootableWhen(e: Entry, high: nat, bit: nat, low: nat)
    requires e.attributes == 8 * high + 4 * bit + low && bit <= 1 && low <= 3
    ensures InfoOf(e).bootable <==> bit == 1 || e.kind == EfiGuid(0xC12A7328, 0xF81F, 0x11D2, 0xBA4B, 0x00A0C93EC93B)
  {
    SystemIs();
    hide EfiGuid, TextOf, NameText;
    assert e.attributes / 4 == 2 * high + bit;
  }

  lemma SystemIs()
    ensures EfiGuid(0xC12A7328, 0xF81F, 0x11D2, 0xBA4B, 0x00A0C93EC93B) == SYSTEM
  {
  }

  /** A header or an entry array that cannot be read is refused. */
  lemma UnreadableRefused(disk: seq<Block>, bad: set<nat>, lba: nat, i: nat)
    requires lba < |disk| && i in bad
    requires var h := HeaderOf(disk[lba]);
             i == lba || Wrap(h.entryLba) * BLOCK <= i * BLOCK < Wrap(h.entryLba) * BLOCK + Wrap(h.entries * h.entrySize)
    ensures !CheckGpt(disk, bad, lba).Valid?
  {
    hide HeaderOf, HeaderSound, Glue, EfiCrc32;
    var h := HeaderOf(disk[lba]);
    if i != lba {
      var at, n := Wrap(h.entryLba), BlocksFor(CountOf(h));
      assert at <= i < at + n;
      assert !CanRead(disk, bad, at, n);
    }
  }

  /** From 34 blocks on a device has room for the five writes; they go to the first 34 and the last 33 blocks. */
  lemma RoomExactly(size: nat, guid: string, i: nat)
    requires size < 0x1_0000_0000 && IsUuid(guid)
    ensures var h := NewHeader(size, guid);
            && (Reaches(size, h) <==> 34 <= size)
            && (34 <= size && i < size ==> (Touched(h, i) <==> i < 34 || size - 33 <= i))
  {
    hide IsUuid, BytesOf;
    assert BlocksFor(ENTRY * SLOTS) == 32;
  }

  /** An entry array whose size is a multiple of 2^32 bytes, 0 included, is refused. */
  lemma NoArrayRefused(disk: seq<Block>, bad: set<nat>, lba: nat)
    requires lba < |disk| && (HeaderOf(disk[lba]).entries * HeaderOf(disk[lba]).entrySize) % 0x1_0000_0000 == 0
    ensures !CheckGpt(disk, bad, lba).Valid?
  {
  }

  // ------------------------------------------------------------ damage is detected

  /**
  A change within four bytes of an accepted header is rejected, if it leaves the header size alone
  and does not change both the CRC field and other bytes.
   */
  lemma HeaderDamageRejected(disk: seq<Block>, damaged: seq<Block>, bad: set<nat>, lba: nat, p: nat)
    requires |damaged| == |disk| && CheckGpt(disk, bad, lba).Valid?
    requires damaged[lba] != disk[lba] && Within(disk[lba], damaged[lba], p, HeaderOf(disk[lba]).headerSize)
    requires HeaderOf(damaged[lba]).headerSize == HeaderOf(disk[lba]).headerSize
    requires damaged[lba][16..20] == disk[lba][16..20] || OnlyCrc(disk[lba], damaged[lba])
    ensures CheckGpt(damaged, bad, lba) == Invalid
  {
    var b, c: Block := disk[lba], damaged[lba];
    hide EfiCrc32, ReadTable, CheckedBytes;
    var n := HeaderOf(b).headerSize;
    if HeaderOf(c).signature == SIGNATURE {
      hide HeaderOf;
      if c[16..20] == b[16..20] {
        SameCrcField(b, c);
        CheckedDiffer(b, c, n, p);
        CrcTellsApart(CheckedBytes(b)[..n], CheckedBytes(c)[..n], p);
      } else {
        CheckedSame(b, c);
        OtherCrcField(b, c);
      }
    }
  }

  /** The blocks differ at most within four bytes from p on, and before position n. */
  predicate Within(b: Block, c: Block, p: nat, n: nat)
  {
    forall i :: 0 <= i < BLOCK && !(p <= i < p + 4 && i < n) ==> c[i] == b[i]
  }

  predicate OnlyCrc(b: Block, c: Block)
  {
    forall i :: 0 <= i < BLOCK && !(16 <= i < 20) ==> c[i] == b[i]
  }

  lemma SameCrcField(b: Block, c: Block)
    requires b[16..20] == c[16..20]
    ensures HeaderOf(b).headerCrc == HeaderOf(c).headerCrc
  {
    hide Get32, Get64;
  }

  lemma OtherCrcField(b: Block, c: Block)
    requires b[16..20] != c[16..20]
    ensures HeaderOf(b).headerCrc != HeaderOf(c).headerCrc
  {
    Bytes32(b[16..20]);
    Bytes32(c[16..20]);
    hide Get32, Get64, Put32;
  }

  lemma CheckedSame(b: Block, c: Block)
    requires OnlyCrc(b, c)
    ensures CheckedBytes(b) == CheckedBytes(c)
  {
  }

  lemma CheckedAt(b: Block)
    ensures forall i :: 0 <= i < BLOCK ==> CheckedBytes(b)[i] == if 16 <= i < 20 then 0 else b[i]
  {
  }

  lemma CheckedDiffer(b: Block, c: Block, n: nat, p: nat)
    requires n <= BLOCK && b != c && Within(b, c, p, n) && b[16..20] == c[16..20]
    ensures var x, y := CheckedBytes(b)[..n], CheckedBytes(c)[..n];
            x != y && forall i :: 0 <= i < n && !(p <= i < p + 4) ==> x[i] == y[i]
  {
    CheckedAt(b);
    CheckedAt(c);
    hide CheckedBytes;
    forall j | 16 <= j < 20
      ensures b[j] == c[j]
    {
      assert b[16..20][j - 16] == c[16..20][j - 16];
    }
    var i :| 0 <= i < BLOCK && b[i] != c[i];
    assert CheckedBytes(b)[..n][i] == b[i] && CheckedBytes(c)[..n][i] == c[i];
  }

  /** A change within four bytes of the entry array of an accepted header is rejected. */
  lemma TableDamageRejected(disk: seq<Block>, damaged: seq<Block>, bad: set<nat>, lba: nat, p: nat)
    requires |damaged| == |disk| && CheckGpt(disk, bad, lba).Valid?
    requires damaged[lba] == disk[lba]
    requires var h := HeaderOf(disk[lba]);
             var old', new' := ReadTable(disk, bad, h), ReadTable(damaged, bad, h);
             && old'.Some? && new'.Some? && |old'.value| == |new'.value|
             && old'.value[..CountOf(h)] != new'.value[..CountOf(h)]
             && forall i :: 0 <= i < CountOf(h) && !(p <= i < p + 4) ==> old'.value[i] == new'.value[i]
    ensures CheckGpt(damaged, bad, lba) == Invalid
  {
    hide HeaderOf, EfiCrc32, ReadTable, CountOf, CheckedBytes;
    var h := HeaderOf(disk[lba]);
    CrcTellsApart(ReadTable(disk, bad, h).value[..CountOf(h)], ReadTable(damaged, bad, h).value[..CountOf(h)], p);
  }

  // ------------------------------------------------------------ damage that is not

  /** The header bytes that the CRC is taken over. */
  function Summed(b: Block, n: nat): (s: seq<bv8>)
    requires n <= BLOCK
    ensures |s| == n
  {
    ToBits(CheckedBytes(b)[..n])
  }

  /** The CRC of b, changed as the bytes have changed. */
  function ChangedCrc(b: Block, c: Block, n: nat): bv32
    requires n <= BLOCK
  {
    Crc32.Mix(Crc32.Crc(0, Summed(b, n)), Crc32.Bytes(0, Crc32.Change(Summed(b, n), Summed(c, n))))
  }

  lemma ChangedCrcIs(b: Block, c: Block, n: nat)
    requires n <= BLOCK
    ensures EfiCrc32(CheckedBytes(c)[..n]) == ChangedCrc(b, c, n) as int
  {
    hide CheckedBytes, Crc32.Crc, Crc32.Bytes, Crc32.Mix, Crc32.Change;
    Crc32.CrcChange(Summed(b, n), Summed(c, n));
    Crc32.MixSelf(Crc32.Crc(0, Summed(b, n)), Crc32.Crc(0, Summed(c, n)));
  }

  /** The blocks differ at most in the CRC field and the four bytes behind it. */
  predicate AroundCrc(b: Block, c: Block)
  {
    b[..16] == c[..16] && b[24..] == c[24..]
  }

  lemma SameOtherFields(b: Block, c: Block)
    requires AroundCrc(b, c)
    ensures HeaderOf(c) == HeaderOf(b).(headerCrc := HeaderOf(c).headerCrc, reserved := HeaderOf(c).reserved)
  {
    hide Get32, Get64;
    assert b[0..8] == b[..16][0..8] == c[0..8] && b[8..12] == b[..16][8..12] == c[8..12];
    assert b[12..16] == b[..16][12..16] == c[12..16];
    var x, y := b[24..], c[24..];
    Shifted(b, 24);
    Shifted(c, 24);
  }

  lemma Shifted(b: Block, k: nat)
    requires k <= BLOCK
    ensures forall i, j :: k <= i <= j <= BLOCK ==> b[i..j] == b[k..][i - k..j - k]
  {
  }

  /** Damage to the CRC field and the four bytes behind it passes exactly if the field has become the CRC
      changed as those bytes have. */
  lemma HeaderDamageExact(disk: seq<Block>, damaged: seq<Block>, bad: set<nat>, lba: nat)
    requires |damaged| == |disk| && CheckGpt(disk, bad, lba).Valid? && AroundCrc(disk[lba], damaged[lba])
    requires var h := HeaderOf(disk[lba]); ReadTable(damaged, bad, h) == ReadTable(disk, bad, h)
    ensures var b, c := disk[lba], damaged[lba];
            CheckGpt(damaged, bad, lba).Valid?
            <==> HeaderOf(c).headerCrc == ChangedCrc(b, c, HeaderOf(b).headerSize) as int
  {
    var b, c := disk[lba], damaged[lba];
    ValidIs(disk, bad, lba);
    ValidIs(damaged, bad, lba);
    hide CheckGpt;
    SameOtherFields(b, c);
    SameTable(damaged, bad, HeaderOf(b), HeaderOf(c));
    hide HeaderOf, EfiCrc32, CheckedBytes, ChangedCrc, ReadTable, CountOf, AroundCrc, CanRead;
    ChangedCrcIs(b, c, HeaderOf(b).headerSize);
  }

  predicate TableSound(disk: seq<Block>, bad: set<nat>, h: Header)
  {
    var t := ReadTable(disk, bad, h);
    t.Some? && EfiCrc32(t.value[..CountOf(h)]) == h.entriesCrc
  }

  lemma ValidIs(disk: seq<Block>, bad: set<nat>, lba: nat)
    ensures CheckGpt(disk, bad, lba).Valid?
       <==> && CanRead(disk, bad, lba, 1) && HeaderOf(disk[lba]).headerSize <= BLOCK
            && HeaderSound(disk[lba], lba, |disk|) && TableSound(disk, bad, HeaderOf(disk[lba]))
  {
    hide HeaderOf, EfiCrc32, CheckedBytes, ReadTable, CountOf;
  }

  lemma SameTable(disk: seq<Block>, bad: set<nat>, h: Header, g: Header)
    requires g == h.(headerCrc := g.headerCrc, reserved := g.reserved)
    ensures ReadTable(disk, bad, g) == ReadTable(disk, bad, h) && CountOf(g) == CountOf(h)
  {
    hide Glue;
  }

  /** It is the CRC of b, mixed with the change of the word behind the field, stepped on to the end. */
  lemma ChangedCrcByWord(b: Block, c: Block, n: nat)
    requires 24 <= n <= BLOCK && AroundCrc(b, c)
    ensures ChangedCrc(b, c, n)
         == Crc32.Mix(Crc32.Crc(0, Summed(b, n)),
                      Crc32.Step8N(Crc32.Mix(Crc32.Load(ToBits(b[20..24])), Crc32.Load(ToBits(c[20..24]))), n - 20))
  {
    var x, y := Summed(b, n), Summed(c, n);
    SummedWord(b, n);
    SummedWord(c, n);
    SummedAround(b, c, n);
    hide CheckedBytes, Summed, Crc32.Crc, Crc32.Bytes, Crc32.Mix, Crc32.Change, Crc32.Step8N, Crc32.Load;
    Crc32.CrcChange(x, y);
    Crc32.WordDelta(x, y, 20);
  }

  lemma SummedWord(b: Block, n: nat)
    requires 24 <= n <= BLOCK
    ensures Summed(b, n)[20..24] == ToBits(b[20..24])
  {
  }

  lemma SummedAround(b: Block, c: Block, n: nat)
    requires 24 <= n <= BLOCK && AroundCrc(b, c)
    ensures Summed(b, n)[..20] == Summed(c, n)[..20] && Summed(b, n)[24..] == Summed(c, n)[24..]
  {
    var x, y := Summed(b, n), Summed(c, n);
    forall i | 0 <= i < n && !(20 <= i < 24)
      ensures x[i] == y[i]
    {
      assert i < 16 ==> b[i] == b[..16][i] && c[i] == c[..16][i];
      assert i >= 24 ==> b[i] == b[24..][i - 24] && c[i] == c[24..][i - 24];
      CheckedAt(b);
      CheckedAt(c);
    }
    assert forall i :: 24 <= i < n ==> x[24..][i - 24] == x[i] && y[24..][i - 24] == y[i];
    hide Summed;
    assert x[24..] == y[24..];
  }

  /**
  Any change within four bytes of an accepted header that leaves the header size alone: it passes exactly
  if it changes the CRC field, and into the CRC changed as the bytes have.
   */
  lemma HeaderDamageWindow(disk: seq<Block>, damaged: seq<Block>, bad: set<nat>, lba: nat, p: nat)
    requires |damaged| == |disk| && CheckGpt(disk, bad, lba).Valid? && damaged[lba] != disk[lba]
    requires Within(disk[lba], damaged[lba], p, HeaderOf(disk[lba]).headerSize)
    requires HeaderOf(damaged[lba]).headerSize == HeaderOf(disk[lba]).headerSize
    requires var h := HeaderOf(disk[lba]); ReadTable(damaged, bad, h) == ReadTable(disk, bad, h)
    ensures var b, c := disk[lba], damaged[lba];
            CheckGpt(damaged, bad, lba).Valid?
            <==> b[16..20] != c[16..20] && HeaderOf(c).headerCrc == ChangedCrc(b, c, HeaderOf(b).headerSize) as int
  {
    var b, c := disk[lba], damaged[lba];
    hide CheckGpt, ReadTable, ChangedCrc;
    if b[16..20] == c[16..20] {
      HeaderDamageRejected(disk, damaged, bad, lba, p);
    } else {
      SameSizeField(b, c);
      WindowAround(b, c, p, HeaderOf(b).headerSize);
      HeaderDamageExact(disk, damaged, bad, lba);
    }
  }

  lemma SameSizeField(b: Block, c: Block)
    requires HeaderOf(b).headerSize == HeaderOf(c).headerSize
    ensures b[12..16] == c[12..16]
  {
    Bytes32(b[12..16]);
    Bytes32(c[12..16]);
    hide Get32, Get64, Put32;
  }

  lemma WindowAround(b: Block, c: Block, p: nat, n: nat)
    requires Within(b, c, p, n) && b[12..16] == c[12..16] && b[16..20] != c[16..20]
    ensures AroundCrc(b, c)
  {
    assert 12 < p < 20;
    forall i | 12 <= i < 16
      ensures b[i] == c[i]
    {
      assert b[12..16][i - 12] == c[12..16][i - 12];
    }
  }

  /** A header with an unused field changed, and its CRC with it. */
  function Altered(g: Header): Header { g.(reserved := 104) }

  lemma PutAltered()
    ensures Put32(104) == [104, 0, 0, 0]
  {
    assert Put(0, 1) == [0];
    assert Put(0, 2) == [0, 0];
    assert Put(0, 3) == [0, 0, 0];
  }

  lemma AlteredBytes(g: Header)
    requires g.reserved == 0
    ensures HeaderBytes(Altered(g)) == HeaderBytes(g)[20 := 104] && HeaderBytes(g)[20] == 0
  {
    PutZero();
    PutAltered();
    hide Put32, Put64;
    var k, l := Kind(g), Kind(Altered(g));
    assert k[20..] == Put32(0) && l[20..] == Put32(104) && k[..20] == l[..20];
    assert k[20] == 0 && k[21] == 0 && k[22] == 0 && k[23] == 0;
    assert l[20] == 104 && l[21] == 0 && l[22] == 0 && l[23] == 0;
    assert l == k[20 := 104];
    hide Kind, Places, TableFields;
  }

  /** The CRCs of the two differ in their upper three bytes alone. */
  lemma AlteredCrc(g: Header)
    requires g.reserved == 0
    ensures EfiCrc32(HeaderBytes(Altered(g))) % 256 == EfiCrc32(HeaderBytes(g)) % 256
  {
    AlteredBytes(g);
    hide HeaderBytes, Crc32.Crc;
    var x, y := ToBits(HeaderBytes(g)), ToBits(HeaderBytes(Altered(g)));
    assert x[20] == 0 && y[20] == 104 && Crc32.Changed(0) == 104;
    assert y == x[20 := Crc32.Changed(x[20])];
    Crc32.DamageSlips(x, y);
    Crc32.SameLowByte(Crc32.Crc(0, x), Crc32.Crc(0, y));
  }

  /** Put32 of two numbers that agree modulo 256. */
  lemma PutLow(x: u32, y: u32)
    requires x % 256 == y % 256
    ensures Put32(x)[0] == Put32(y)[0]
  {
  }

  lemma SealedBytes(g: Header)
    requires g.headerSize == 92 && g.headerCrc == 0
    ensures var b, z := HeaderBlock(Seal(g)), HeaderBytes(g);
            && b[..16] == z[..16] && b[16..20] == Put32(EfiCrc32(z)) && b[20..92] == z[20..92]
            && b[92..] == Zeros(420)
  {
    HeaderBlockStart(g);
    var s := Seal(g);
    assert s == g.(headerCrc := EfiCrc32(HeaderBytes(g)));
    hide EfiCrc32, Seal, Put32, Put64;
    KindFields(s);
    var k, z := Kind(s), Kind(g);
    assert k[..16] == z[..16] && k[20..] == z[20..];
    hide Kind, Places, TableFields;
    var b, h := HeaderBlock(s), HeaderBytes(g);
    assert b[..24] == k && h[..24] == z;
    assert b[..16] == k[..16] && b[16..20] == k[16..20] && b[20..24] == k[20..];
    assert h[..16] == z[..16] && h[20..24] == z[20..];
    assert b[24..92] == h[24..92];
    assert b[20..92] == b[20..24] + b[24..92] && h[20..92] == h[20..24] + h[24..92];
  }

  /**
  For every header as it is written there is a change of bytes 17 to 20 that the check accepts: it
  takes in three bytes of the CRC field and the one behind it.
   */
  lemma HeaderDamageSlips(disk: seq<Block>, bad: set<nat>, lba: nat, g: Header, table: Table)
    requires Standard(g) && g.signature == SIGNATURE && g.myLba == lba && g.entryLba == 2 && g.reserved == 0
    requires g.firstUsable <= |disk| && g.lastUsable <= |disk| && g.entriesCrc == EfiCrc32(table)
    requires CanRead(disk, bad, lba, 1) && disk[lba] == HeaderBlock(Seal(g)) && !(2 <= lba < 34)
    requires CanRead(disk, bad, 2, 32) && disk[2..34] == Chop(table)
    ensures var damaged := disk[lba := HeaderBlock(Seal(Altered(g)))];
            && damaged[lba] != disk[lba] && Within(disk[lba], damaged[lba], 17, 92)
            && CheckGpt(disk, bad, lba).Valid? && CheckGpt(damaged, bad, lba).Valid?
  {
    SlipWindow(g);
    var a := Altered(g);
    assert Standard(a) && a.signature == SIGNATURE && a.myLba == lba && a.entryLba == 2;
    assert a.firstUsable == g.firstUsable && a.lastUsable == g.lastUsable && a.entriesCrc == g.entriesCrc;
    Replaced(disk, bad, lba, HeaderBlock(Seal(a)));
    hide EfiCrc32, Chop, CheckGpt, Seal, HeaderBlock, Within, Altered, Standard, CanRead;
    var damaged := disk[lba := HeaderBlock(Seal(a))];
    SealedIsValid(disk, bad, lba, g, table);
    SealedIsValid(damaged, bad, lba, a, table);
  }

  lemma Replaced(disk: seq<Block>, bad: set<nat>, lba: nat, x: Block)
    requires CanRead(disk, bad, lba, 1) && CanRead(disk, bad, 2, 32) && !(2 <= lba < 34)
    ensures var d := disk[lba := x];
            d[2..34] == disk[2..34] && CanRead(d, bad, lba, 1) && CanRead(d, bad, 2, 32)
  {
  }

  lemma SlipWindow(g: Header)
    requires g.headerSize == 92 && g.headerCrc == 0 && g.reserved == 0
    ensures var b, c := HeaderBlock(Seal(g)), HeaderBlock(Seal(Altered(g)));
            b != c && Within(b, c, 17, 92)
  {
    SealedBytes(g);
    SealedBytes(Altered(g));
    AlteredBytes(g);
    AlteredCrc(g);
    hide EfiCrc32, HeaderBytes, HeaderBlock, Seal;
    var b, c := HeaderBlock(Seal(g)), HeaderBlock(Seal(Altered(g)));
    var z, y := HeaderBytes(g), HeaderBytes(Altered(g));
    PutLow(EfiCrc32(z), EfiCrc32(y));
    hide Put32, Altered;
    forall i | 0 <= i < BLOCK && !(17 <= i < 21)
      ensures c[i] == b[i]
    {
      if i < 16 {
        assert b[..16][i] == c[..16][i];
      } else if i == 16 {
        assert b[16..20][0] == c[16..20][0];
      } else if i < 92 {
        assert b[20..92][i - 20] == z[20..92][i - 20] == y[20..92][i - 20] == c[20..92][i - 20];
      } else {
        assert b[92..][i - 92] == c[92..][i - 92];
      }
    }
    assert b[20..92][0] == 0 && c[20..92][0] == 104;
  }
}
