/**
disk/part_efi.c, gpt_fill_header and gpt_fill_pte: from the requested partitions to the
header and the entries, with the 32-bit running offset of the source.
 */
module GptLayout {
  import opened BigNum
  import opened Uuid
  import opened NumberText
  import opened GptFormat

  const SIGNATURE: u64 := 0x5452415020494645
  const SLOTS: nat := 128

  const BASIC_DATA: Guid := [0xA2, 0xA0, 0xD0, 0xEB, 0xE5, 0xB9, 0x33, 0x44, 0x87, 0xC0, 0x68, 0xB6, 0xB7, 0x26, 0x99, 0xC7]
  const UNUSED: Guid := [0, 0, 0, 0, 0, 0, 0, 0, 0, 0, 0, 0, 0, 0, 0, 0]

  function NoName(): Name { seq(36, i => 0) }
  function NoEntry(): Entry { Entry(UNUSED, UNUSED, 0, 0, 0, NoName()) }

  type Text32 = t: seq<byte> | |t| == 32 witness seq(32, i => 0)

  /** disk_partition_t, as gpt_restore gets it; start 0 means "after the previous one". */
  datatype Partition = Partition(start: u32, size: u32, name: Text32, kind: Text32, uuid: string)

  function Wrap(x: int): u32 { x % 0x1_0000_0000 }

  // ------------------------------------------------------------ the header

  function NewHeader(lba: u32, guid: string): Header
    requires IsUuid(guid)
  {
    Header(SIGNATURE, 0x1_0000, 92, 0, 0, 1, Wrap(lba - 1), 34, Wrap(lba - 34), BytesOf(guid), 2, SLOTS, ENTRY, 0)
  }

  /** gpt_fill_header. */
  method FillHeader(lba: u32, guid: string) returns (r: Option<Header>)
    ensures r == if IsUuid(guid) then Some(NewHeader(lba, guid)) else None
  {
    var g := StringUuid(guid);
    match g
    case None => return None;
    case Some(bytes) =>
      return Some(Header(SIGNATURE, 0x1_0000, 92, 0, 0, 1, Wrap(lba - 1), 34, Wrap(lba - 34), bytes, 2, SLOTS, ENTRY, 0));
  }

  /** The header places everything: the entry array ends where the usable area begins, and behind that
      area its copy and the second header fill the device to the end. */
  lemma NewHeaderPlaces(lba: u32, guid: string)
    requires IsUuid(guid) && lba >= 67
    ensures var h := NewHeader(lba, guid);
            && h.myLba + 1 == h.entryLba
            && h.entryLba * BLOCK + h.entries * h.entrySize == h.firstUsable * BLOCK
            && (h.lastUsable + 1) * BLOCK + h.entries * h.entrySize == h.alternateLba * BLOCK
            && h.alternateLba == lba - 1 && h.lastUsable + 1 - h.firstUsable == lba - 67
            && h.headerSize == |HeaderBytes(h)| && TextOf(h.diskGuid) == LowerText(guid)
  {
    ParseThenPrint(guid);
    hide IsUuid, BytesOf, TextOf, LowerText, HeaderBytes;
  }

  // ------------------------------------------------------------ the entries

  /** The running offset before partition i, as a 32-bit variable holds it. */
  function Offset(first: u64, ps: seq<Partition>, i: nat): u32
    requires i <= |ps|
    decreases i, 0
  {
    if i == 0 then Wrap(first) else Wrap(StartOf(first, ps, i - 1) + ps[i - 1].size)
  }

  function StartOf(first: u64, ps: seq<Partition>, i: nat): u32
    requires i < |ps|
    decreases i, 1
  {
    if ps[i].start != 0 then ps[i].start else Offset(first, ps, i)
  }

  function EndOf(h: Header, ps: seq<Partition>, i: nat): u64
    requires i < |ps|
  {
    if i == |ps| - 1 && ps[i].size == 0 then h.lastUsable else Wrap(Offset(h.firstUsable, ps, i + 1) - 1)
  }

  function UnitAt(p: Partition, k: nat): u16
    requires k < 36
  {
    (p.name + p.kind)[k]
  }

  /** Thirty-six units: the four after the name come from the field behind it. */
  function Units(p: Partition): Name
  {
    seq(36, k requires 0 <= k < 36 => UnitAt(p, k))
  }

  function EntryFor(h: Header, ps: seq<Partition>, i: nat): Entry
    requires i < |ps| && IsUuid(ps[i].uuid)
  {
    Entry(BASIC_DATA, BytesOf(ps[i].uuid), StartOf(h.firstUsable, ps, i), EndOf(h, ps, i), 0, Units(ps[i]))
  }

  predicate FitsAt(h: Header, ps: seq<Partition>, i: nat)
    requires i < |ps|
  {
    && (ps[i].start == 0 || ps[i].start >= Offset(h.firstUsable, ps, i))
    && Offset(h.firstUsable, ps, i + 1) < h.lastUsable
    && IsUuid(ps[i].uuid)
  }

  predicate Fits(h: Header, ps: seq<Partition>)
  {
    forall i :: 0 <= i < |ps| ==> FitsAt(h, ps, i)
  }

  function SlotOf(h: Header, ps: seq<Partition>, i: nat): Entry
    requires Fits(h, ps)
  {
    if i < |ps| then assert FitsAt(h, ps, i); EntryFor(h, ps, i) else NoEntry()
  }

  function Filled(h: Header, ps: seq<Partition>): (es: seq<Entry>)
    requires Fits(h, ps)
    ensures |es| == SLOTS
  {
    seq(SLOTS, i requires 0 <= i < SLOTS => SlotOf(h, ps, i))
  }

  /** gpt_fill_pte on a zeroed entry array. */
  method FillPte(h: Header, ps: seq<Partition>) returns (r: Option<seq<Entry>>)
    requires |ps| <= SLOTS
    ensures r == if Fits(h, ps) then Some(Filled(h, ps)) else None
  {
    hide IsUuid, BytesOf, Wrap;
    var es: seq<Entry> := seq(SLOTS, i => NoEntry());
    var offset: u32 := Wrap(h.firstUsable);
    for i := 0 to |ps|
      invariant |es| == SLOTS && offset == Offset(h.firstUsable, ps, i)
      invariant forall j :: 0 <= j < i ==> FitsAt(h, ps, j) && es[j] == EntryFor(h, ps, j)
      invariant forall j :: i <= j < SLOTS ==> es[j] == NoEntry()
    {
      var e, next := FillOne(h, ps, i, offset);
      if e.None? {
        assert !FitsAt(h, ps, i);
        return None;
      }
      offset := next;
      es := es[i := e.value];
    }
    assert Fits(h, ps);
    assert es == Filled(h, ps);
    return Some(es);
  }

  /** One turn of its loop. */
  method FillOne(h: Header, ps: seq<Partition>, i: nat, offset0: u32) returns (r: Option<Entry>, offset: u32)
    requires i < |ps| && offset0 == Offset(h.firstUsable, ps, i)
    ensures r == if FitsAt(h, ps, i) then Some(EntryFor(h, ps, i)) else None
    ensures r.Some? ==> offset == Offset(h.firstUsable, ps, i + 1)
  {
    hide IsUuid, BytesOf;
    offset := offset0;
    var start := ps[i].start;
    if start != 0 && start < offset {
      return None, offset;
    }
    var starting: u64;
    if start != 0 {
      starting := start;
      offset := Wrap(start + ps[i].size);
    } else {
      starting := offset;
      offset := Wrap(offset + ps[i].size);
    }
    if offset >= h.lastUsable {
      return None, offset;
    }
    var ending: u64 := if i == |ps| - 1 && ps[i].size == 0 then h.lastUsable else Wrap(offset - 1);
    var id := StringUuid(ps[i].uuid);
    if id.None? {
      return None, offset;
    }
    var name := CopyName(ps[i]);
    return Some(Entry(BASIC_DATA, id.value, starting, ending, 0, name)), offset;
  }

  method CopyName(p: Partition) returns (name: Name)
    ensures name == Units(p)
  {
    var buffer := p.name + p.kind;
    var u: seq<u16> := [];
    for k := 0 to 36
      invariant |u| == k && forall j :: 0 <= j < k ==> u[j] == buffer[j]
    {
      u := u + [buffer[k]];
    }
    name := u;
  }

  // ------------------------------------------------------------ what the layout promises

  /** The offset without 32-bit wrap-around. */
  function Ideal(first: nat, ps: seq<Partition>, i: nat): nat
    requires i <= |ps|
  {
    if i == 0 then first
    else (if ps[i - 1].start != 0 then ps[i - 1].start else Ideal(first, ps, i - 1)) + ps[i - 1].size
  }

  predicate NoWrap(first: nat, ps: seq<Partition>)
  {
    forall i :: 0 <= i <= |ps| ==> Ideal(first, ps, i) < 0x1_0000_0000
  }

  /** Entry i is what was asked for and lies in the usable area. */
  predicate AsAsked(h: Header, ps: seq<Partition>, es: seq<Entry>, i: nat)
    requires i < |ps| <= |es|
  {
    && h.firstUsable <= es[i].start && es[i].end <= h.lastUsable
    && es[i].start == (if ps[i].start != 0 then ps[i].start else if i == 0 then h.firstUsable else es[i - 1].end + 1)
    && es[i].end + 1 == (if i == |ps| - 1 && ps[i].size == 0 then h.lastUsable + 1 else es[i].start + ps[i].size)
  }

  /** Every entry is as asked for, and they follow each other without overlap. */
  predicate WellLaid(h: Header, ps: seq<Partition>, es: seq<Entry>)
    requires |ps| <= |es|
  {
    && (forall i :: 0 <= i < |ps| ==> AsAsked(h, ps, es, i))
    && (forall i, j :: 0 <= i < j < |ps| ==> es[i].end < es[j].start)
  }

  lemma {:induction false} OffsetIsIdeal(first: u64, ps: seq<Partition>, i: nat)
    requires i <= |ps| && forall k :: 0 <= k <= i ==> Ideal(first, ps, k) < 0x1_0000_0000
    ensures Offset(first, ps, i) == Ideal(first, ps, i)
  {
    if i != 0 {
      OffsetIsIdeal(first, ps, i - 1);
    }
  }

  /** The running offset is the ideal one in 32 bits. */
  lemma {:induction false} OffsetWraps(first: u64, ps: seq<Partition>, i: nat)
    requires i <= |ps|
    ensures Offset(first, ps, i) == Ideal(first, ps, i) % 0x1_0000_0000
    ensures i < |ps| && ps[i].start == 0 ==> StartOf(first, ps, i) == Ideal(first, ps, i) % 0x1_0000_0000
  {
    if i != 0 {
      OffsetWraps(first, ps, i - 1);
      hide IsUuid;
      WrapAdd(Ideal(first, ps, i - 1), ps[i - 1].size);
    }
  }

  lemma WrapAdd(x: nat, y: nat)
    ensures Wrap(x % 0x1_0000_0000 + y) == (x + y) % 0x1_0000_0000
  {
    var q, r := x / 0x1_0000_0000, x % 0x1_0000_0000;
    assert x + y == r + y + q * 0x1_0000_0000;
  }

  /** Request i has a well-formed GUID, a start of its own lies at or behind the end of the requests before,
      and its end lies before the last usable block, both counted in 32 bits. */
  predicate Asks(h: Header, ps: seq<Partition>, i: nat)
    requires i < |ps|
  {
    && IsUuid(ps[i].uuid)
    && (ps[i].start != 0 ==> Ideal(h.firstUsable, ps, i) % 0x1_0000_0000 <= ps[i].start)
    && Ideal(h.firstUsable, ps, i + 1) % 0x1_0000_0000 < h.lastUsable
  }

  /** Which requests are accepted. */
  lemma AcceptedExactly(h: Header, ps: seq<Partition>)
    ensures Fits(h, ps) <==> forall i :: 0 <= i < |ps| ==> Asks(h, ps, i)
  {
    hide IsUuid, Ideal, Offset;
    forall i | 0 <= i < |ps|
      ensures FitsAt(h, ps, i) <==> Asks(h, ps, i)
    {
      OffsetWraps(h.firstUsable, ps, i);
      OffsetWraps(h.firstUsable, ps, i + 1);
    }
  }

  /** Without wrap-around, in plain numbers: an own start is not below the end of the requests before, and
      every request ends before the last usable block. */
  lemma AcceptedPlainly(h: Header, ps: seq<Partition>)
    requires NoWrap(h.firstUsable, ps)
    ensures Fits(h, ps) <==> forall i :: 0 <= i < |ps| ==> AsksPlainly(h, ps, i)
  {
    hide IsUuid, Ideal, Fits;
    AcceptedExactly(h, ps);
    forall i | 0 <= i < |ps|
      ensures Asks(h, ps, i) <==> AsksPlainly(h, ps, i)
    {
      WrapSmall(Ideal(h.firstUsable, ps, i));
      WrapSmall(Ideal(h.firstUsable, ps, i + 1));
    }
  }

  predicate AsksPlainly(h: Header, ps: seq<Partition>, i: nat)
    requires i < |ps|
  {
    && IsUuid(ps[i].uuid)
    && (ps[i].start != 0 ==> Ideal(h.firstUsable, ps, i) <= ps[i].start)
    && Ideal(h.firstUsable, ps, i + 1) < h.lastUsable
  }

  /** What else the entries say: the requested GUID, the type of basic data partitions, no attributes; the
      slots behind them are all zero. */
  lemma EntriesSay(h: Header, ps: seq<Partition>, i: nat)
    requires i < SLOTS && |ps| <= SLOTS && Fits(h, ps)
    ensures var e := Filled(h, ps)[i];
            if i < |ps|
            then TextOf(e.id) == LowerText(ps[i].uuid) && e.attributes == 0
                 && e.kind == EfiGuid(0xEBD0A0A2, 0xB9E5, 0x4433, 0x87C0, 0x68B6B72699C7)
            else EntryBytes(e) == Zeros(128)
  {
    if i < |ps| {
      assert FitsAt(h, ps, i);
      ParseThenPrint(ps[i].uuid);
      hide BytesOf, IsUuid, LowerText, StartOf, EndOf, Units;
      BasicDataIs();
    } else {
      NoEntryBytes();
    }
  }

  lemma BasicDataIs()
    ensures EfiGuid(0xEBD0A0A2, 0xB9E5, 0x4433, 0x87C0, 0x68B6B72699C7) == BASIC_DATA
  {
  }

  /** The signature spells EFI PART. */
  lemma SignatureText()
    ensures Put64(SIGNATURE) == [69, 70, 73, 32, 80, 65, 82, 84]
  {
    assert Put(0x5452, 2) == [82, 84];
    assert Put(0x545241, 3) == [65, 82, 84];
    assert Put(0x54524150, 4) == [80, 65, 82, 84];
    assert Put(0x5452415020, 5) == [32, 80, 65, 82, 84];
    assert Put(0x545241502049, 6) == [73, 32, 80, 65, 82, 84];
    assert Put(0x54524150204946, 7) == [70, 73, 32, 80, 65, 82, 84];
  }

  lemma NoEntryBytes()
    ensures EntryBytes(NoEntry()) == Zeros(128)
  {
    assert Put64(0) == [0, 0, 0, 0, 0, 0, 0, 0];
    assert NameBytes(NoName()) == Zeros(72);
  }

  lemma {:induction false} IdealGrows(h: Header, ps: seq<Partition>, i: nat, j: nat)
    requires i <= j <= |ps| && Fits(h, ps) && NoWrap(h.firstUsable, ps)
    ensures Ideal(h.firstUsable, ps, i) <= Ideal(h.firstUsable, ps, j)
  {
    hide IsUuid;
    if i < j {
      IdealGrows(h, ps, i, j - 1);
      OffsetIsIdeal(h.firstUsable, ps, j - 1);
      assert FitsAt(h, ps, j - 1);
    }
  }

  lemma NoWrapIsLaid(h: Header, ps: seq<Partition>)
    requires |ps| <= SLOTS && Fits(h, ps) && NoWrap(h.firstUsable, ps)
    requires 1 <= h.firstUsable
    ensures WellLaid(h, ps, Filled(h, ps))
  {
    hide IsUuid, Fits, Filled;
    var es := Filled(h, ps);
    forall i | 0 <= i < |ps|
      ensures AsAsked(h, ps, es, i)
    {
      LaidAt(h, ps, i);
      if i > 0 {
        LaidAt(h, ps, i - 1);
      }
    }
    forall i, j | 0 <= i < j < |ps|
      ensures es[i].end < es[j].start
    {
      LaidAt(h, ps, i);
      LaidAt(h, ps, j);
      IdealGrows(h, ps, i + 1, j);
    }
  }

  lemma LaidAt(h: Header, ps: seq<Partition>, i: nat)
    requires i < |ps| <= SLOTS && Fits(h, ps) && NoWrap(h.firstUsable, ps)
    requires 1 <= h.firstUsable
    ensures var e, o, n := Filled(h, ps)[i], Ideal(h.firstUsable, ps, i), Ideal(h.firstUsable, ps, i + 1);
            && e.start == (if ps[i].start != 0 then ps[i].start else o)
            && h.firstUsable <= o <= e.start && n == e.start + ps[i].size
            && n < h.lastUsable
            && e.end == if i == |ps| - 1 && ps[i].size == 0 then h.lastUsable else n - 1
  {
    SlotFields(h, ps, i);
    hide IsUuid, Filled, Fits, Offset, StartOf, Ideal, Wrap;
    StartIsIdeal(h, ps, i);
    OffsetIsIdeal(h.firstUsable, ps, i + 1);
    WrapSmall(Ideal(h.firstUsable, ps, i + 1) - 1);
  }

  lemma WrapSmall(x: int)
    requires 0 <= x < 0x1_0000_0000
    ensures Wrap(x) == x
  {
  }

  lemma SlotFields(h: Header, ps: seq<Partition>, i: nat)
    requires i < |ps| <= SLOTS && Fits(h, ps)
    ensures Filled(h, ps)[i].start == StartOf(h.firstUsable, ps, i) && Filled(h, ps)[i].end == EndOf(h, ps, i)
    ensures FitsAt(h, ps, i)
  {
    hide StartOf, EndOf, IsUuid, BytesOf, Units;
  }

  lemma StartIsIdeal(h: Header, ps: seq<Partition>, i: nat)
    requires i < |ps| && Fits(h, ps) && NoWrap(h.firstUsable, ps)
    ensures StartOf(h.firstUsable, ps, i) == if ps[i].start != 0 then ps[i].start else Ideal(h.firstUsable, ps, i)
    ensures h.firstUsable <= Ideal(h.firstUsable, ps, i) <= StartOf(h.firstUsable, ps, i)
    ensures Ideal(h.firstUsable, ps, i + 1) == StartOf(h.firstUsable, ps, i) + ps[i].size
  {
    hide IsUuid;
    OffsetIsIdeal(h.firstUsable, ps, i);
    IdealGrows(h, ps, 0, i);
    assert FitsAt(h, ps, i);
  }

  lemma {:induction false} LaidIsBounded(h: Header, ps: seq<Partition>, i: nat)
    requires i <= |ps| <= SLOTS && Fits(h, ps) && WellLaid(h, ps, Filled(h, ps))
    requires h.firstUsable < 0x1_0000_0000 && h.lastUsable < 0xffff_ffff
    ensures Ideal(h.firstUsable, ps, i) < 0x1_0000_0000
    ensures forall k :: 0 <= k <= i ==> Ideal(h.firstUsable, ps, k) < 0x1_0000_0000
  {
    hide IsUuid;
    if i > 0 {
      LaidIsBounded(h, ps, i - 1);
      OffsetIsIdeal(h.firstUsable, ps, i - 1);
      SlotFields(h, ps, i - 1);
      assert AsAsked(h, ps, Filled(h, ps), i - 1);
    }
  }

  /** An accepted request is laid out as asked, in order and without overlap, exactly when no offset wraps. */
  lemma LayoutExact(h: Header, ps: seq<Partition>)
    requires |ps| <= SLOTS && Fits(h, ps)
    requires 1 <= h.firstUsable < 0x1_0000_0000 && h.lastUsable < 0xffff_ffff
    ensures WellLaid(h, ps, Filled(h, ps)) <==> NoWrap(h.firstUsable, ps)
  {
    hide IsUuid, WellLaid, Filled, Fits;
    if NoWrap(h.firstUsable, ps) {
      NoWrapIsLaid(h, ps);
    }
    if WellLaid(h, ps, Filled(h, ps)) {
      LaidIsBounded(h, ps, |ps|);
    }
  }

  /** A size that wraps the offset is accepted, and the entry ends before it starts. */
  lemma WrapAccepted(h: Header, p: Partition)
    requires IsUuid(p.uuid) && p.start == 100 && p.size == 0xffff_ffff
    requires h.firstUsable == 34 && 99 < h.lastUsable
    ensures Fits(h, [p]) && Filled(h, [p])[0].end == 98 < Filled(h, [p])[0].start
  {
    hide IsUuid;
    assert Offset(h.firstUsable, [p], 0) == 34;
    assert Offset(h.firstUsable, [p], 1) == 99;
    assert FitsAt(h, [p], 0);
  }
}
