/**
drivers/nand/comip_nand.c: the block layer above the page device. Programs and
erases may fail in any pattern; a failing block is marked, relocated and the
operation repeated. Physical page block*max_pages + offset is addressed by the
pair (block, offset).
 */
module NandDriver {
  import opened Relocation

  /** The table slots at the end of block 0 (NAND_MAX_BBT_SLOTS). */
  const SLOTS: nat := 24

  /** What one page holds: ordinary bytes, or an image of the relocation table. */
  datatype Page = Raw(bytes: seq<bv8>) | Table(items: seq<Item>)

  /** The state of a physical page. Torn: an operation on it failed, or it was
      programmed without being blank; its content is not known. */
  datatype Cell = Blank | Data(page: Page) | Torn

  predicate HoldsTable(c: Cell) { c.Data? && c.page.Table? }

  function BlockOf(maxPages: nat, p: nat): nat
    requires maxPages > 0
  {
    p / maxPages
  }

  function OffsetOf(maxPages: nat, p: nat): (o: nat)
    requires maxPages > 0
    ensures o < maxPages
  {
    p % maxPages
  }

  lemma PageSplit(maxPages: nat, p: nat)
    requires maxPages > 0
    ensures p == BlockOf(maxPages, p) * maxPages + OffsetOf(maxPages, p)
  {
  }

  lemma PageJoin(maxPages: nat, p: nat, block: nat, o: nat)
    requires o < maxPages && p == block * maxPages + o
    ensures BlockOf(maxPages, p) == block && OffsetOf(maxPages, p) == o
  {
    var q, r := p / maxPages, p % maxPages;
    assert (q - block) * maxPages == o - r;
    assert q - block >= 1 ==> (q - block) * maxPages >= maxPages;
    assert block - q >= 1 ==> (block - q) * maxPages >= maxPages;
  }

  /** The pages [p, p + n) lie in one block when they start at `first` and n fits. */
  lemma PagesInBlock(maxPages: nat, p: nat, n: nat, j: nat)
    requires maxPages > 0 && OffsetOf(maxPages, p) + n <= maxPages && j < n
    ensures BlockOf(maxPages, p + j) == BlockOf(maxPages, p)
    ensures OffsetOf(maxPages, p + j) == OffsetOf(maxPages, p) + j
  {
    PageSplit(maxPages, p);
    PageJoin(maxPages, p + j, BlockOf(maxPages, p), OffsetOf(maxPages, p) + j);
  }

  lemma NextBlock(maxPages: nat, p: nat)
    requires maxPages > 0
    ensures var q := p + maxPages - OffsetOf(maxPages, p);
            BlockOf(maxPages, q) == BlockOf(maxPages, p) + 1 && OffsetOf(maxPages, q) == 0
  {
    PageSplit(maxPages, p);
    var q, block := p + maxPages - OffsetOf(maxPages, p), BlockOf(maxPages, p);
    assert (block + 1) * maxPages == block * maxPages + maxPages;
    PageJoin(maxPages, q, block + 1, 0);
  }

  lemma {:induction false} BlockMonotone(maxPages: nat, p: nat, q: nat)
    requires maxPages > 0 && p <= q
    ensures BlockOf(maxPages, p) <= BlockOf(maxPages, q)
    decreases q - p
  {
    hide BlockOf, OffsetOf;
    if p < q {
      BlockMonotone(maxPages, p, q - 1);
      if OffsetOf(maxPages, q - 1) + 1 < maxPages {
        PagesInBlock(maxPages, q - 1, 2, 1);
      } else {
        NextBlock(maxPages, q - 1);
      }
    }
  }

  /** Blocks [low, Free(items, hi)) are reserved and not yet used by any entry. */
  function Free(items: seq<Item>, hi: nat): nat
  {
    if items == [] then hi else items[|items| - 1].to
  }

  /** Where a logical block lives: an end of a chain, never a block still free. */
  lemma Home(items: seq<Item>, low: nat, hi: nat, b: nat)
    requires TableOk(items, low, hi) && b < low <= hi
    ensures var r := Resolve(items, b);
            && r < hi && !IsFrom(items, r) && (r < low || IsTo(items, r))
            && !(low <= r < Free(items, hi)) && (b > 0 ==> r > 0)
  {
    ResolveLands(items, b);
    ResolveEnds(items, low, hi, b);
    var r := Resolve(items, b);
    if r != b {
      var i :| 0 <= i < |items| && items[i].to == r;
      assert i == |items| - 1 || items[i].to > items[|items| - 1].to;
    }
  }

  /** The data of logical block b. */
  ghost function Logical(items: seq<Item>, cells: seq<seq<Cell>>, b: nat): seq<Cell>
  {
    var r := Resolve(items, b);
    if r < |cells| then cells[r] else []
  }

  function BlankRow(n: nat): (row: seq<Cell>)
    ensures |row| == n && forall i :: 0 <= i < n ==> row[i] == Blank
  {
    seq(n, i => Blank)
  }

  lemma EarlierBlock(maxPages: nat, p: nat, q: nat)
    requires maxPages > 0 && p < q && OffsetOf(maxPages, q) == 0
    ensures BlockOf(maxPages, p) < BlockOf(maxPages, q)
  {
    PageSplit(maxPages, p);
    PageSplit(maxPages, q);
    BlockMonotone(maxPages, p, q);
  }

  /** The cell of logical page p. */
  ghost function CellOf(items: seq<Item>, cells: seq<seq<Cell>>, maxPages: nat, p: nat): Cell
    requires maxPages > 0
  {
    var row, o := Logical(items, cells, BlockOf(maxPages, p)), OffsetOf(maxPages, p);
    if o < |row| then row[o] else Torn
  }

  ghost predicate BlankRun(row: seq<Cell>, first: nat, n: nat)
  {
    first + n <= |row| && forall o :: first <= o < first + n ==> row[o] == Blank
  }

  /** Every logical block other than `block` holds what it held. */
  ghost predicate Kept(items0: seq<Item>, cells0: seq<seq<Cell>>, items1: seq<Item>, cells1: seq<seq<Cell>>,
                       low: nat, block: nat)
  {
    forall b :: 0 <= b < low && b != block ==>
      Resolve(items1, b) == Resolve(items0, b) && Logical(items1, cells1, b) == Logical(items0, cells0, b)
  }

  lemma KeptNothing(items: seq<Item>, cells: seq<seq<Cell>>, low: nat, block: nat)
    ensures Kept(items, cells, items, cells, low, block)
  {
  }

  lemma KeptTransitive(items0: seq<Item>, cells0: seq<seq<Cell>>, items1: seq<Item>, cells1: seq<seq<Cell>>,
                       items2: seq<Item>, cells2: seq<seq<Cell>>, low: nat, block: nat)
    requires Kept(items0, cells0, items1, cells1, low, block) && Kept(items1, cells1, items2, cells2, low, block)
    ensures Kept(items0, cells0, items2, cells2, low, block)
  {
    hide Logical, Resolve;
  }

  /** Changing the home of `block` touches no other logical block. */
  lemma KeptInPlace(items: seq<Item>, low: nat, hi: nat, cells0: seq<seq<Cell>>, cells1: seq<seq<Cell>>, block: nat)
    requires TableOk(items, low, hi) && block < low <= hi && |cells0| == |cells1| == hi
    requires forall b :: 0 <= b < hi && b != Resolve(items, block) ==> cells1[b] == cells0[b]
    ensures Kept(items, cells0, items, cells1, low, block)
  {
    forall b | 0 <= b < low && b != block
      ensures Logical(items, cells1, b) == Logical(items, cells0, b)
    {
      Home(items, low, hi, b);
      if Resolve(items, b) == Resolve(items, block) {
        ResolveInjective(items, low, hi, b, block);
      }
    }
  }

  /** Relocating the home of `block` into the free area touches no other logical block. */
  lemma KeptMoved(items: seq<Item>, low: nat, hi: nat, cells0: seq<seq<Cell>>, cells1: seq<seq<Cell>>,
                  block: nat, dest: nat)
    requires TableOk(items, low, hi) && block < low <= hi && |cells0| == |cells1| == hi
    requires forall b :: 0 <= b < hi && !(low <= b < Free(items, hi)) ==> cells1[b] == cells0[b]
    ensures Kept(items, cells0, items, cells1, low, block)
    ensures Kept(items, cells0, items + [Item(Resolve(items, block), dest)], cells1, low, block)
    ensures Resolve(items + [Item(Resolve(items, block), dest)], block) == dest
  {
    var next := items + [Item(Resolve(items, block), dest)];
    ResolveAppend(items, Resolve(items, block), dest, block);
    forall b | 0 <= b < low && b != block
      ensures Resolve(next, b) == Resolve(items, b)
      ensures Logical(next, cells1, b) == Logical(items, cells0, b) == Logical(items, cells1, b)
    {
      Home(items, low, hi, b);
      ResolveAppend(items, Resolve(items, block), dest, b);
      if Resolve(items, b) == Resolve(items, block) {
        ResolveInjective(items, low, hi, b, block);
      }
    }
  }

  ghost function Failures(works: nat -> bool, n: nat): nat
  {
    if n == 0 then 0 else Failures(works, n - 1) + (if works(n - 1) then 0 else 1)
  }

  class Nand {
    const maxBlocks: nat
    const maxPages: nat
    const pageSize: nat
    const reserved: nat         // gmax_reloc_entry

    var cells: seq<seq<Cell>>
    var items: seq<Item>        // the relocation table
    var changed: bool           // bbt_state == BBT_CHANGED
    var slot: nat               // bbt_slot
    var full: bool              // bbt_full
    var marks: set<nat>         // blocks whose spare area carries a bad-block mark

    /** Whether the n-th operation of the device succeeds; any pattern is possible. */
    const works: nat -> bool
    /** Whether a mark written to a block can be read back. */
    const sticks: nat -> bool
    var ops: nat                // device operations so far

    ghost var slotsDone: set<nat>     // slots programmed since block 0 was last erased
    ghost var zeroLost: bool          // the last erase of block 0 has failed

    ghost function Low(): nat
      requires reserved < maxBlocks
    {
      maxBlocks - reserved
    }

    ghost predicate Geometry()
    {
      reserved < maxBlocks <= 0x1_0000 && SLOTS + 2 <= maxPages
    }

    ghost predicate Shape()
      reads this`cells
    {
      |cells| == maxBlocks && forall b :: 0 <= b < maxBlocks ==> |cells[b]| == maxPages
    }

    /** The next slot and everything below it is unprogrammed, unless the area is
        full or an erase of block 0 has failed. */
    ghost predicate SlotsOk()
      reads this`slot, this`full, this`slotsDone, this`zeroLost
    {
      full || (maxPages - SLOTS <= slot < maxPages && (zeroLost || forall p :: p in slotsDone ==> p > slot))
    }

    ghost predicate Valid()
      reads this`cells, this`items, this`slot, this`full, this`slotsDone, this`zeroLost
    {
      && Geometry() && Shape()
      && TableOk(items, Low(), maxBlocks)
      && maxPages >= SLOTS && SlotsOk()
    }

    /** Device operations that have failed so far. */
    ghost function Faults(): nat
      reads this`ops
    {
      Failures(works, ops)
    }

    /** The operations from `from` up to `to` work. */
    ghost predicate Clear(from: nat, to: nat)
    {
      forall k :: from <= k < to ==> works(k)
    }

    /** The erased page pattern. */
    function Erased(): Page { Raw(seq(pageSize, i => 0xff)) }

    /** Reading cell c gives page d. */
    ghost predicate Shows(c: Cell, d: Page)
    {
      c == Data(d) || (c == Blank && d == Erased())
    }

    /** With the table that __nand_core_create_bbt starts from. */
    constructor (maxBlocks: nat, maxPages: nat, pageSize: nat, reserved: nat, cells: seq<seq<Cell>>, marks0: set<nat>,
                 works: nat -> bool, sticks: nat -> bool)
      requires reserved < maxBlocks <= 0x1_0000 && SLOTS + 2 <= maxPages
      requires |cells| == maxBlocks && forall b :: 0 <= b < maxBlocks ==> |cells[b]| == maxPages
      ensures Valid() && this.cells == cells && items == [] && marks == marks0
      ensures changed && slot == maxPages - 1 && !full && slotsDone == {} && !zeroLost && ops == 0
      ensures this.maxBlocks == maxBlocks && this.maxPages == maxPages && this.reserved == reserved
      ensures this.pageSize == pageSize && this.works == works && this.sticks == sticks
    {
      this.maxBlocks, this.maxPages, this.pageSize, this.reserved := maxBlocks, maxPages, pageSize, reserved;
      this.cells, items, changed, slot, full := cells, [], true, maxPages - 1, false;
      slotsDone, zeroLost, ops, marks := {}, false, 0, marks0;
      this.works, this.sticks := works, sticks;
    }

    // ---------------------------------------------------------- the page device

    /** One operation has been done since ops was ops0, with outcome ok. */
    ghost predicate Counted(ok: bool, ops0: nat)
      reads this`ops
    {
      ops == ops0 + 1 && ok == works(ops0) && Faults() == Failures(works, ops0) + (if ok then 0 else 1)
    }

    /** Program one page. A slot must not be programmed again before block 0 is erased. */
    method ProgramPage(b: nat, o: nat, d: Page) returns (ok: bool)
      requires Shape() && maxPages >= SLOTS && b < maxBlocks && o < maxPages
      requires b == 0 && o >= maxPages - SLOTS && !zeroLost ==> o !in slotsDone
      modifies this`cells, this`slotsDone, this`ops
      ensures Shape() && Counted(ok, old(ops))
      ensures cells == old(cells)[b := old(cells)[b][o := cells[b][o]]]
      ensures ok && old(cells)[b][o].Blank? ==> cells[b][o] == Data(d)
      ensures slotsDone == old(slotsDone) + (if ok && b == 0 && o >= maxPages - SLOTS then {o} else {})
    {
      ok := works(ops);
      ops := ops + 1;
      var c: Cell := *;
      if ok && cells[b][o].Blank? {
        c := Data(d);
      }
      cells := cells[b := cells[b][o := c]];
      if ok && b == 0 && o >= maxPages - SLOTS {
        slotsDone := slotsDone + {o};
      }
    }

    /** Erase one block; when that fails nothing is known about its pages. Its mark may go. */
    method EraseBlock(b: nat) returns (ok: bool)
      requires Shape() && b < maxBlocks
      modifies this`cells, this`slotsDone, this`zeroLost, this`marks, this`ops
      ensures Shape() && Counted(ok, old(ops))
      ensures cells == old(cells)[b := cells[b]] && (marks == old(marks) || marks == old(marks) - {b})
      ensures ok ==> cells[b] == BlankRow(maxPages)
      ensures slotsDone == (if ok && b == 0 then {} else old(slotsDone))
      ensures zeroLost == (if b == 0 then !ok else old(zeroLost))
    {
      ok := works(ops);
      ops := ops + 1;
      var c: Cell := *;
      cells := cells[b := seq(maxPages, i => if ok then Blank else c)];
      var clean: bool := *;
      if clean {
        marks := marks - {b};
      }
      if b == 0 {
        zeroLost := !ok;
        if ok {
          slotsDone := {};
        }
      }
    }

    /** Read one page; a torn page may give anything. */
    method ReadPage(b: nat, o: nat) returns (ok: bool, d: Page)
      requires Shape() && b < maxBlocks && o < maxPages
      modifies this`ops
      ensures Counted(ok, old(ops))
      ensures ok && !cells[b][o].Torn? ==> Shows(cells[b][o], d)
    {
      ok := works(ops);
      ops := ops + 1;
      match cells[b][o] {
        case Blank => d := Erased();
        case Data(page) => d := page;
        case Torn => d := *;
      }
    }

    /** __nand_core_check: good unless the block is marked or its spare areas cannot be read. */
    method CheckBlock(b: nat) returns (good: bool)
      requires b < maxBlocks
      modifies this`ops
      ensures good ==> b !in marks && Faults() == old(Faults())
      ensures !good ==> if b in marks then Faults() == old(Faults()) else Faults() == old(Faults()) + 1
    {
      good := b !in marks;
      if good {
        good := works(ops);
        ops := ops + 1;
      }
    }

    /** __nand_core_mark_bad: writes the spare areas of pages 0 and 1; whether the mark sticks
        is not checked. */
    method MarkBad(b: nat)
      requires Shape() && b < maxBlocks && maxPages >= 2
      modifies this`cells, this`marks
      ensures Shape() && marks == (if sticks(b) then old(marks) + {b} else old(marks))
      ensures cells == old(cells)[b := cells[b]]
      ensures cells[b][2..] == old(cells)[b][2..]
    {
      var c: Cell := *;
      var d: Cell := *;
      cells := cells[b := cells[b][0 := c][1 := d]];
      if sticks(b) {
        marks := marks + {b};
      }
    }

    // ---------------------------------------------------------- relocation

    /** The scan for the next free reserved block starts at the last target that is a
        block of the chip, or at the end of the chip. */
    method LastTarget() returns (r: nat)
      ensures r <= maxBlocks
      ensures items != [] && items[|items| - 1].to <= maxBlocks ==> r == Free(items, maxBlocks)
      ensures r == maxBlocks || IsTo(items, r)
    {
      var n := |items|;
      if n == 0 {
        r := maxBlocks;
      } else {
        r := items[n - 1].to;
        n := n - 1;
        while r > maxBlocks && n > 0
          decreases n
          invariant 0 <= n < |items| && r == items[n].to
          invariant r == Free(items, maxBlocks) || items[|items| - 1].to > maxBlocks
        {
          r := items[n - 1].to;
          n := n - 1;
        }
        if r > maxBlocks && n == 0 {
          r := maxBlocks;
        }
      }
    }

    /** Some reserved block is neither used nor marked. */
    ghost predicate SpareLeft(items0: seq<Item>, marks0: set<nat>)
      requires Geometry()
    {
      exists b :: Low() <= b < Free(items0, maxBlocks) && b !in marks0
    }

    /** Without a new fault, the search passed over marked blocks only. */
    ghost predicate PassedOver(marks0: set<nat>, faults0: nat, low: nat, from: nat)
      reads this`ops
    {
      faults0 <= Faults() && (Faults() == faults0 ==> forall b :: low <= b < from ==> b in marks0)
    }

    /** Outside the blocks [low, from) the marks are those of marks0. */
    ghost predicate SameMarks(marks0: set<nat>, low: nat, from: nat)
      reads this`marks
    {
      forall b: nat :: !(low <= b < from) ==> (b in marks <==> b in marks0)
    }

    /** The next reserved block below `from` that is not marked and can be erased. */
    method NextSpare(from: nat) returns (ok: bool, dest: nat)
      requires Geometry() && Shape() && Low() <= from <= maxBlocks
      modifies this`cells, this`slotsDone, this`zeroLost, this`marks, this`ops
      ensures Shape() && slotsDone == old(slotsDone) && zeroLost == old(zeroLost)
      ensures forall b :: 0 <= b < maxBlocks && !(Low() <= b < from) ==> cells[b] == old(cells)[b]
      ensures SameMarks(old(marks), if ok then dest else Low(), from)
      ensures ok ==> Low() <= dest < from && dest !in old(marks) && cells[dest] == BlankRow(maxPages)
      ensures PassedOver(old(marks), old(Faults()), if ok then dest + 1 else Low(), from)
    {
      dest := from;
      ok := false;
      while !ok
        invariant Low() <= dest <= from && Shape()
        invariant forall b :: 0 <= b < maxBlocks && !(Low() <= b < from) ==> cells[b] == old(cells)[b]
        invariant SameMarks(old(marks), dest, from)
        invariant ok ==> dest < from && dest !in old(marks) && cells[dest] == BlankRow(maxPages)
        invariant PassedOver(old(marks), old(Faults()), if ok then dest + 1 else dest, from)
        invariant slotsDone == old(slotsDone) && zeroLost == old(zeroLost)
        decreases dest, if ok then 0 else 1
      {
        dest := dest - 1;
        if dest < maxBlocks - reserved {
          return false, dest;
        }
        var good := CheckBlock(dest);
        if !good {
          continue;
        }
        ok := EraseBlock(dest);
      }
    }

    /** __nand_core_relocate_block: give `block` the next good reserved block, erased. */
    method RelocateBlock(block: nat) returns (ok: bool, dest: nat)
      requires Valid()
      requires block < maxBlocks ==> !IsFrom(items, block) && (block < Low() || IsTo(items, block))
      modifies this`cells, this`items, this`changed, this`slotsDone, this`zeroLost, this`marks, this`ops
      ensures Valid() && slotsDone == old(slotsDone) && zeroLost == old(zeroLost)
      ensures forall b :: 0 <= b < maxBlocks && !(Low() <= b < Free(old(items), maxBlocks)) ==> cells[b] == old(cells)[b]
      ensures SameMarks(old(marks), if ok then dest else Low(), Free(old(items), maxBlocks))
      ensures ok ==> Low() <= dest < Free(old(items), maxBlocks) && items == old(items) + [Item(block, dest)]
      ensures ok ==> cells[dest] == BlankRow(maxPages) && dest !in old(marks)
      ensures block < maxBlocks ==>
        PassedOver(old(marks), old(Faults()), if ok then dest + 1 else Low(), Free(old(items), maxBlocks))
      ensures block >= maxBlocks ==> !ok && Faults() == old(Faults())
      ensures !ok ==> items == old(items)
      ensures changed == (old(changed) || ok)
    {
      if block >= maxBlocks {
        dest := block;
        return false, dest;
      }
      dest := LastTarget();
      hide PassedOver, SameMarks;
      ok, dest := NextSpare(dest);
      if ok {
        AddItem(block, dest);
      }
    }

    /** A new entry for the end of a chain. */
    method AddItem(block: nat, dest: nat)
      requires Valid() && !IsFrom(items, block) && (block < Low() || IsTo(items, block))
      requires Low() <= dest < Free(items, maxBlocks)
      modifies this`items, this`changed
      ensures Valid() && changed && items == old(items) + [Item(block, dest)]
    {
      hide SlotsOk;
      changed := true;
      TableOkAppend(items, Low(), maxBlocks, block, dest);
      items := items + [Item(block, dest)];
    }

    // ---------------------------------------------------------- writing

    /** Whether a page is programmed: in block 0, slots and blank pages are not. Offsets from maxPages on
        are pages of later blocks. */
    ghost predicate Programs(home: nat, o: nat, d: Page)
    {
      home != 0 || o >= maxPages || (o < maxPages - SLOTS && d != Erased())
    }

    /** How many of the first i pages of a run are programmed. */
    ghost function Issued(home: nat, first: nat, data: seq<Page>, i: nat): (n: nat)
      requires i <= |data|
      ensures n <= i
    {
      if i == 0 then 0
      else Issued(home, first, data, i - 1) + (if Programs(home, first + i - 1, data[i - 1]) then 1 else 0)
    }

    lemma {:induction false} IssuedGrows(home: nat, first: nat, data: seq<Page>, i: nat, k: nat)
      requires i <= k <= |data|
      ensures Issued(home, first, data, i) <= Issued(home, first, data, k)
      ensures Issued(home, first, data, i) == Issued(home, first, data, k)
         <==> forall j :: i <= j < k ==> !Programs(home, first + j, data[j])
      decreases k - i
    {
      hide Programs;
      if i < k {
        IssuedGrows(home, first, data, i, k - 1);
      }
    }

    /** The first pages of a run count as in the run. */
    lemma {:induction false} IssuedPrefix(home: nat, first: nat, data: seq<Page>, n: nat, k: nat)
      requires k <= n <= |data|
      ensures Issued(home, first, data[0..n], k) == Issued(home, first, data, k)
    {
      hide Programs;
      if k != 0 {
        IssuedPrefix(home, first, data, n, k - 1);
      }
    }

    /** In later blocks every page counts. */
    lemma {:induction false} IssuedLater(home: nat, first: nat, home1: nat, data: seq<Page>, i: nat, n: nat, k: nat)
      requires k <= n && i + n <= |data| && first + i >= maxPages && home1 != 0
      ensures Issued(home1, 0, data[i..i + n], k) == k
      ensures Issued(home, first, data, i + k) == Issued(home, first, data, i) + k
    {
      if k != 0 {
        IssuedLater(home, first, home1, data, i, n, k - 1);
      }
    }

    /** n programs in a row, up to the first that fails. */
    ghost predicate Programmed(ok: bool, ops0: nat, n: nat)
      reads this`ops
    {
      if ok then ops == ops0 + n && Clear(ops0, ops0 + n) else !Clear(ops0, ops0 + n)
    }

    /** One pass over the pages of one physical block, stopping at a failure
        (comip_nand.c:1514-1560). In block 0 the slots and blank pages are skipped. */
    method WritePages(home: nat, first: nat, chunk: seq<Page>) returns (ok: bool)
      requires Geometry() && Shape() && home < maxBlocks && first + |chunk| <= maxPages
      requires forall j :: first <= j < first + |chunk| ==> cells[home][j] == Blank
      modifies this`cells, this`slotsDone, this`ops
      ensures Shape() && cells == old(cells)[home := cells[home]] && slotsDone == old(slotsDone)
      ensures Faults() == old(Faults()) + (if ok then 0 else 1)
      ensures Programmed(ok, old(ops), Issued(home, first, chunk, |chunk|))
      ensures home == 0 ==> cells[0][maxPages - SLOTS..] == old(cells)[0][maxPages - SLOTS..]
      ensures cells[home][..first] == old(cells)[home][..first]
      ensures cells[home][first + |chunk|..] == old(cells)[home][first + |chunk|..]
      ensures ok ==> forall j :: 0 <= j < |chunk| && (home != 0 || first + j < maxPages - SLOTS)
                                 ==> Shows(cells[home][first + j], chunk[j])
    {
      hide Shows, Programs;
      ok := true;
      var i := 0;
      while i < |chunk| && ok
        invariant 0 <= i <= |chunk| && Shape() && Faults() == old(Faults()) + (if ok then 0 else 1)
        invariant ops == old(ops) + Issued(home, first, chunk, i)
        invariant if ok then Clear(old(ops), ops) else old(ops) < ops && !works(ops - 1)
        invariant cells == old(cells)[home := cells[home]] && slotsDone == old(slotsDone)
        invariant forall o :: 0 <= o < maxPages && (o < first || o >= first + |chunk| || (home == 0 && o >= maxPages - SLOTS))
                              ==> cells[home][o] == old(cells)[home][o]
        invariant ok ==> forall j :: 0 <= j < i && (home != 0 || first + j < maxPages - SLOTS)
                                     ==> Shows(cells[home][first + j], chunk[j])
        invariant ok ==> forall o :: first + i <= o < first + |chunk| ==> cells[home][o] == Blank
      {
        ok := WriteOne(home, first + i, chunk[i]);
        i := i + 1;
      }
      IssuedGrows(home, first, chunk, i, |chunk|);
    }

    /** One turn of its loop. */
    method WriteOne(home: nat, o: nat, d: Page) returns (ok: bool)
      requires Geometry() && Shape() && home < maxBlocks && o < maxPages && cells[home][o] == Blank
      modifies this`cells, this`slotsDone, this`ops
      ensures Shape() && cells == old(cells)[home := old(cells)[home][o := cells[home][o]]] && slotsDone == old(slotsDone)
      ensures ops == old(ops) + (if Programs(home, o, d) then 1 else 0)
      ensures ok == (Programs(home, o, d) ==> works(old(ops)))
      ensures Faults() == old(Faults()) + (if ok then 0 else 1)
      ensures home == 0 && o >= maxPages - SLOTS ==> cells == old(cells)
      ensures ok && (home != 0 || o < maxPages - SLOTS) ==> Shows(cells[home][o], d)
    {
      ok := true;
      assert cells[home] == cells[home][o := cells[home][o]];
      assert cells == cells[home := cells[home]];
      if home == 0 {
        if o < maxPages - SLOTS {
          if d != Erased() {
            ok := ProgramPage(home, o, d);
          }
        }
      } else {
        ok := ProgramPage(home, o, d);
      }
    }

    /** Pages [first, first + |chunk|) of a row read back as `chunk`; in physical block 0
        only those outside the slots. */
    ghost predicate Stored(home: nat, row: seq<Cell>, first: nat, chunk: seq<Page>)
    {
      && first + |chunk| <= |row|
      && forall j :: 0 <= j < |chunk| && (home != 0 || first + j < maxPages - SLOTS)
                     ==> Shows(row[first + j], chunk[j])
    }

    /** Outside the pages written, the block is as it was, or blank once it has moved: a
        replay writes only the pages of this call. */
    ghost predicate RestKept(moved: bool, before: seq<Cell>, after: seq<Cell>, first: nat, n: nat)
    {
      && |before| == |after|
      && forall o :: 0 <= o < |after| && !(first <= o < first + n)
                     ==> after[o] == if moved then Blank else before[o]
    }

    lemma RestMoved(before: seq<Cell>, after: seq<Cell>, first: nat, n: nat)
      requires |before| == maxPages && RestKept(false, BlankRow(maxPages), after, first, n)
      ensures RestKept(true, before, after, first, n)
    {
    }

    /** Only logical block `block` has changed since (items0, cells0), and no slot has. */
    ghost predicate OnlyChanged(items0: seq<Item>, cells0: seq<seq<Cell>>, block: nat)
      reads this`cells, this`items, this`slot, this`full, this`slotsDone, this`zeroLost
    {
      && Valid() && block < Low() && items0 <= items
      && Kept(items0, cells0, items, cells, Low(), block)
      && |cells0| == maxBlocks && |cells0[0]| == maxPages && |Logical(items0, cells0, block)| == maxPages
      && cells[0][maxPages - SLOTS..] == cells0[0][maxPages - SLOTS..]
    }

    /** Before an attempt: the pages to write are blank in the block's present home. */
    ghost predicate Pending(items0: seq<Item>, cells0: seq<seq<Cell>>, block: nat, home: nat, first: nat, n: nat)
      reads this`cells, this`items, this`slot, this`full, this`slotsDone, this`zeroLost
    {
      && OnlyChanged(items0, cells0, block)
      && home == Resolve(items, block) < maxBlocks && BlankRun(cells[home], first, n)
      && (items == items0 || home == Free(items, maxBlocks) < Free(items0, maxBlocks))
      && cells[home] == if items == items0 then Logical(items0, cells0, block) else BlankRow(maxPages)
    }

    ghost predicate Moved(items0: seq<Item>, items1: seq<Item>, block: nat)
    {
      Resolve(items1, block) != Resolve(items0, block)
    }

    /** After success: the pages are there; the others of the block are kept, or blank if it moved. */
    ghost predicate Written(items0: seq<Item>, cells0: seq<seq<Cell>>, block: nat, first: nat, chunk: seq<Page>)
      reads this`cells, this`items, this`slot, this`full, this`slotsDone, this`zeroLost
    {
      && OnlyChanged(items0, cells0, block)
      && Stored(Resolve(items, block), Logical(items, cells, block), first, chunk)
      && (items == items0 <==> !Moved(items0, items, block))
      && RestKept(Moved(items0, items, block), Logical(items0, cells0, block), Logical(items, cells, block), first, |chunk|)
    }

    /** Without a new fault the operation succeeds and moves and marks nothing. */
    ghost predicate Smooth(ok: bool, items0: seq<Item>, marks0: set<nat>, faults0: nat)
      reads this`items, this`marks, this`ops
    {
      faults0 <= Faults() && (Faults() == faults0 ==> ok && items == items0 && marks == marks0)
    }

    /** A failure with a spare left is one of at least two faults. */
    ghost predicate Recovers(ok: bool, items0: seq<Item>, marks0: set<nat>, faults0: nat)
      requires Geometry()
      reads this`ops
    {
      !ok && SpareLeft(items0, marks0) ==> Faults() >= faults0 + 2
    }

    /** The block has moved exactly if one of its first n programs failed. */
    ghost predicate Followed(items0: seq<Item>, block: nat, ops0: nat, n: nat)
      reads this`items, this`ops
    {
      if Clear(ops0, ops0 + n) then items == items0 && ops == ops0 + n else Moved(items0, items, block)
    }

    /** The blocks given up before are still marked if they were, and those given up since are marked as far
        as their marks stick. */
    ghost predicate GivenUp(items0: seq<Item>, marks0: set<nat>, items1: seq<Item>, marks1: set<nat>)
    {
      && items0 <= items1
      && forall b: nat :: IsFrom(items1, b) && (if IsFrom(items0, b) then b in marks0 else sticks(b)) ==> b in marks1
    }

    lemma GivenUpThen(items0: seq<Item>, marks0: set<nat>, items1: seq<Item>, marks1: set<nat>,
                      items2: seq<Item>, marks2: set<nat>)
      requires GivenUp(items0, marks0, items1, marks1) && GivenUp(items1, marks1, items2, marks2)
      ensures GivenUp(items0, marks0, items2, marks2)
    {
      forall b: nat | IsFrom(items0, b)
        ensures IsFrom(items1, b)
      {
        var i :| 0 <= i < |items0| && items0[i].from == b;
        assert items1[i].from == b;
      }
    }

    /** After a failure the home of a block is marked and, if a spare is left, given up. */
    lemma HomeGivenUp(items0: seq<Item>, marks0: set<nat>, items1: seq<Item>, marks1: set<nat>, marks2: set<nat>,
                      block: nat, home: nat)
      requires Geometry() && TableOk(items0, Low(), maxBlocks) && block < Low() && home == Resolve(items0, block)
      requires (forall b: nat :: b != home ==> (b in marks1 <==> b in marks0)) && (sticks(home) ==> home in marks1)
      requires forall b: nat :: !(Low() <= b < Free(items0, maxBlocks)) ==> (b in marks2 <==> b in marks1)
      requires items1 == items0 || (items0 <= items1 && |items1| == |items0| + 1 && items1[|items0|].from == home)
      ensures GivenUp(items0, marks0, items1, marks2)
    {
      Home(items0, Low(), maxBlocks, block);
      forall b: nat | IsFrom(items1, b) && (if IsFrom(items0, b) then b in marks0 else sticks(b))
        ensures b in marks2
      {
        var i :| 0 <= i < |items1| && items1[i].from == b;
        if i < |items0| {
          assert items0[i].from == b;
          if b >= Low() {
            FromIsUsed(items0, i);
          }
        }
      }
    }

    /** Erasing the home of a block may only take its own mark. */
    lemma ErasedStays(items0: seq<Item>, marks0: set<nat>, marks1: set<nat>, block: nat, home: nat)
      requires Geometry() && TableOk(items0, Low(), maxBlocks) && block < Low() && home == Resolve(items0, block)
      requires forall b: nat :: b != home ==> (b in marks1 <==> b in marks0)
      ensures GivenUp(items0, marks0, items0, marks1)
    {
      Home(items0, Low(), maxBlocks, block);
    }

    lemma FromIsUsed(items0: seq<Item>, i: nat)
      requires Geometry() && TableOk(items0, Low(), maxBlocks) && i < |items0| && items0[i].from >= Low()
      ensures Free(items0, maxBlocks) <= items0[i].from
    {
      var k :| 0 <= k < i && items0[..i][k].to == items0[i].from;
      assert items0[k].to >= items0[|items0| - 1].to;
    }

    /** Between the rounds: an unmoved table means that nothing has been tried yet, or that all
        programs worked. */
    ghost predicate Traced(again: bool, ok: bool, items0: seq<Item>, ops0: nat, n: nat)
      reads this`items, this`ops
    {
      && (items != items0 ==> !Clear(ops0, ops0 + n))
      && (again && items == items0 ==> ops == ops0)
      && (!again && ok && items == items0 ==> Clear(ops0, ops0 + n) && ops == ops0 + n)
    }

    /** One logical block: write, and on failure mark the block bad, relocate it and write
        again (comip_nand.c:1505-1570). */
    method WriteBlock(block: nat, first: nat, chunk: seq<Page>) returns (ok: bool)
      requires Valid() && block < Low()
      requires BlankRun(Logical(items, cells, block), first, |chunk|)
      modifies this`cells, this`items, this`changed, this`slotsDone, this`zeroLost, this`marks, this`ops
      ensures slotsDone == old(slotsDone) && zeroLost == old(zeroLost)
      ensures OnlyChanged(old(items), old(cells), block)
      ensures ok ==> Written(old(items), old(cells), block, first, chunk)
      ensures Smooth(ok, old(items), old(marks), old(Faults()))
      ensures Recovers(ok, old(items), old(marks), old(Faults()))
      ensures GivenUp(old(items), old(marks), items, marks)
      ensures ok ==> Followed(old(items), block, old(ops), Issued(Resolve(old(items), block), first, chunk, |chunk|))
      ensures old(changed) || items != old(items) ==> changed
    {
      assert items[..|items|] == items;
      var home := FindRealBlock(items, block, |items|, Low(), maxBlocks);
      Home(items, Low(), maxBlocks, block);
      KeptNothing(items, cells, Low(), block);
      assert Pending(items, cells, block, home, first, |chunk|);
      ghost var n := Issued(home, first, chunk, |chunk|);
      hide *;
      var again := true;
      ok := false;
      while again
        invariant slotsDone == old(slotsDone) && zeroLost == old(zeroLost)
        invariant Between(again, ok, old(items), old(cells), old(marks), old(Faults()), old(ops), block, home, first, chunk, n)
        invariant old(changed) || items != old(items) ==> changed
        decreases Free(items, maxBlocks), again
      {
        ok, again, home := NextRound(old(items), old(cells), old(marks), old(Faults()), old(ops), block, home, first, chunk, n);
      }
      AtEnd(ok, old(items), old(cells), old(marks), old(Faults()), old(ops), block, home, first, chunk, n);
    }

    /** The state between two rounds, and after the last. */
    ghost predicate Between(again: bool, ok: bool, items0: seq<Item>, cells0: seq<seq<Cell>>, marks0: set<nat>,
                            faults0: nat, ops0: nat, block: nat, home: nat, first: nat, chunk: seq<Page>, n: nat)
      reads this`cells, this`items, this`slot, this`full, this`slotsDone, this`zeroLost, this`marks, this`ops
    {
      && (again ==> Pending(items0, cells0, block, home, first, |chunk|))
      && OnlyChanged(items0, cells0, block)
      && (!again && ok ==> Written(items0, cells0, block, first, chunk))
      && Smooth(again || ok, items0, marks0, faults0) && GivenUp(items0, marks0, items, marks)
      && (!again ==> Recovers(ok, items0, marks0, faults0))
      && Traced(again, ok, items0, ops0, n)
      && (again && items == items0 ==> n == Issued(home, first, chunk, |chunk|))
    }

    lemma AtEnd(ok: bool, items0: seq<Item>, cells0: seq<seq<Cell>>, marks0: set<nat>, faults0: nat, ops0: nat,
                block: nat, home: nat, first: nat, chunk: seq<Page>, n: nat)
      requires Between(false, ok, items0, cells0, marks0, faults0, ops0, block, home, first, chunk, n)
      ensures OnlyChanged(items0, cells0, block) && (ok ==> Written(items0, cells0, block, first, chunk))
      ensures Smooth(ok, items0, marks0, faults0) && Recovers(ok, items0, marks0, faults0)
      ensures GivenUp(items0, marks0, items, marks)
      ensures ok ==> Followed(items0, block, ops0, n)
    {
      hide Resolve, TableOk, Kept, Stored, RestKept, SlotsOk, Logical, Failures, SpareLeft, GivenUp;
    }

    method NextRound(ghost items0: seq<Item>, ghost cells0: seq<seq<Cell>>, ghost marks0: set<nat>, ghost faults0: nat,
                     ghost ops0: nat, block: nat, home: nat, first: nat, chunk: seq<Page>, ghost n: nat)
      returns (ok: bool, again: bool, next: nat)
      requires Between(true, false, items0, cells0, marks0, faults0, ops0, block, home, first, chunk, n)
      modifies this`cells, this`items, this`changed, this`slotsDone, this`zeroLost, this`marks, this`ops
      ensures slotsDone == old(slotsDone) && zeroLost == old(zeroLost)
      ensures Between(again, ok, items0, cells0, marks0, faults0, ops0, block, next, first, chunk, n)
      ensures if again then Free(items, maxBlocks) < Free(old(items), maxBlocks) else items == old(items)
      ensures old(changed) || items != old(items) ==> changed
    {
      hide Resolve, TableOk, Kept, Stored, RestKept, SlotsOk, Logical, Failures, SpareLeft, Issued, Written, BlankRun,
           GivenUp;
      ok, again, next := WriteRound(items0, cells0, block, home, first, chunk);
      GivenUpThen(items0, marks0, old(items), old(marks), items, marks);
    }

    /** One attempt and, when it fails, one relocation. */
    method WriteRound(ghost items0: seq<Item>, ghost cells0: seq<seq<Cell>>,
                      block: nat, home: nat, first: nat, chunk: seq<Page>)
      returns (ok: bool, again: bool, next: nat)
      requires Pending(items0, cells0, block, home, first, |chunk|)
      modifies this`cells, this`items, this`changed, this`slotsDone, this`zeroLost, this`marks, this`ops
      ensures slotsDone == old(slotsDone) && zeroLost == old(zeroLost)
      ensures OnlyChanged(items0, cells0, block)
      ensures ok ==> !again && Written(items0, cells0, block, first, chunk) && items == old(items)
      ensures again ==> Pending(items0, cells0, block, next, first, |chunk|)
                        && Free(items, maxBlocks) < Free(old(items), maxBlocks)
      ensures !again ==> items == old(items)
      ensures Smooth(ok, old(items), old(marks), old(Faults()))
      ensures GivenUp(old(items), old(marks), items, marks)
      ensures !again ==> Recovers(ok, old(items), old(marks), old(Faults()))
      ensures var n := Issued(home, first, chunk, |chunk|);
              Programmed(ok, old(ops), n) || (!ok && !Clear(old(ops), old(ops) + n))
      ensures old(changed) || items != old(items) ==> changed
    {
      hide Resolve, TableOk, Kept, Stored, RestKept, IsFrom, IsTo, SlotsOk, Written, SpareLeft, Moved, Logical;
      ghost var marks0, row := marks, cells[home];
      ok := WriteAttempt(block, home, first, chunk);
      KeptTransitive(items0, cells0, items, old(cells), items, cells, Low(), block);
      again, next := false, home;
      if ok {
        NowWritten(items0, cells0, row, block, home, first, chunk);
        return;
      }
      ghost var c1, marks1 := cells, marks;
      if SpareLeft(items, marks0) {
        SpareStays(marks0, marks1, block);
      }
      again, next := RelocateHome(block, home);
      HomeGivenUp(old(items), marks0, items, marks1, marks, block, home);
      KeptTransitive(items0, cells0, old(items), c1, items, cells, Low(), block);
    }

    /** A successful attempt on the home of the block, whose row was `row` before. */
    lemma NowWritten(items0: seq<Item>, cells0: seq<seq<Cell>>, row: seq<Cell>, block: nat, home: nat, first: nat, chunk: seq<Page>)
      requires OnlyChanged(items0, cells0, block) && home == Resolve(items, block) < maxBlocks
      requires items == items0 || home == Free(items, maxBlocks) < Free(items0, maxBlocks)
      requires row == if items == items0 then Logical(items0, cells0, block) else BlankRow(maxPages)
      requires Stored(home, cells[home], first, chunk) && RestKept(false, row, cells[home], first, |chunk|)
      ensures Written(items0, cells0, block, first, chunk)
    {
      if items != items0 {
        FreshHome(items0, items, block);
        hide Resolve, TableOk, Kept, Stored, SlotsOk;
        RestMoved(Logical(items0, cells0, block), cells[home], first, |chunk|);
      }
    }

    /** Marking the home of a block uses up no spare. */
    lemma SpareStays(marks0: set<nat>, marks1: set<nat>, block: nat)
      requires Geometry() && TableOk(items, Low(), maxBlocks) && block < Low() && SpareLeft(items, marks0)
      requires marks1 == marks0 || marks1 == marks0 + {Resolve(items, block)}
      ensures SpareLeft(items, marks1)
    {
      Home(items, Low(), maxBlocks, block);
    }

    lemma FreshHome(items0: seq<Item>, items1: seq<Item>, block: nat)
      requires Geometry() && TableOk(items1, Low(), maxBlocks) && items0 <= items1 && block < Low()
      requires items0 != items1 && Resolve(items1, block) == Free(items1, maxBlocks) < Free(items0, maxBlocks)
      ensures Moved(items0, items1, block)
    {
      TableOkPrefix(items1, Low(), maxBlocks, |items0|);
      assert items1[..|items0|] == items0;
      Home(items0, Low(), maxBlocks, block);
    }

    /** A pass that fails leaves the block marked bad. */
    method WriteAttempt(block: nat, home: nat, first: nat, chunk: seq<Page>) returns (ok: bool)
      requires Valid() && block < Low() && home == Resolve(items, block) < maxBlocks
      requires BlankRun(cells[home], first, |chunk|)
      modifies this`cells, this`slotsDone, this`marks, this`ops
      ensures Valid() && slotsDone == old(slotsDone)
      ensures Faults() == old(Faults()) + (if ok then 0 else 1) && (ok ==> marks == old(marks))
      ensures marks == if !ok && sticks(home) then old(marks) + {home} else old(marks)
      ensures Programmed(ok, old(ops), Issued(home, first, chunk, |chunk|))
      ensures Kept(items, old(cells), items, cells, Low(), block)
      ensures cells[0][maxPages - SLOTS..] == old(cells)[0][maxPages - SLOTS..]
      ensures ok ==> Stored(home, cells[home], first, chunk)
      ensures ok ==> RestKept(false, old(cells)[home], cells[home], first, |chunk|)
    {
      hide Resolve;
      ok := WritePages(home, first, chunk);
      if !ok {
        MarkBad(home);
      }
      KeptInPlace(items, Low(), maxBlocks, old(cells), cells, block);
    }

    /** Relocation of the home of a logical block. */
    method RelocateHome(block: nat, home: nat) returns (ok: bool, dest: nat)
      requires Valid() && block < Low() && home == Resolve(items, block) < maxBlocks
      modifies this`cells, this`items, this`changed, this`slotsDone, this`zeroLost, this`marks, this`ops
      ensures Valid() && slotsDone == old(slotsDone) && zeroLost == old(zeroLost)
      ensures Kept(old(items), old(cells), items, cells, Low(), block)
      ensures cells[0] == old(cells)[0]
      ensures ok ==> items == old(items) + [Item(home, dest)] && dest == Resolve(items, block) < maxBlocks
      ensures ok ==> Free(items, maxBlocks) < Free(old(items), maxBlocks)
      ensures ok ==> cells[dest] == BlankRow(maxPages)
      ensures !ok ==> items == old(items)
      ensures SameMarks(old(marks), Low(), Free(old(items), maxBlocks))
      ensures old(changed) || items != old(items) ==> changed
      ensures Faults() >= old(Faults()) && (!ok && Faults() == old(Faults()) ==> !SpareLeft(old(items), old(marks)))
      ensures ok ==> dest == Free(items, maxBlocks)
    {
      hide Resolve;
      Home(items, Low(), maxBlocks, block);
      ok, dest := RelocateBlock(home);
      KeptMoved(old(items), Low(), maxBlocks, old(cells), cells, block, dest);
    }

    /** Logical page p reads as d, unless it is a slot and block 0 is still at home. */
    ghost predicate PageShows(items1: seq<Item>, cells1: seq<seq<Cell>>, p: nat, d: Page)
      requires Geometry()
    {
      Resolve(items1, BlockOf(maxPages, p)) != 0 || OffsetOf(maxPages, p) < maxPages - SLOTS
      ==> Shows(CellOf(items1, cells1, maxPages, p), d)
    }

    ghost predicate PageBlank(items1: seq<Item>, cells1: seq<seq<Cell>>, p: nat)
      requires Geometry()
    {
      BlockOf(maxPages, p) < Low() && CellOf(items1, cells1, maxPages, p) == Blank
    }

    /** No page of [page, page + n) lies in block b. */
    ghost predicate Outside(b: nat, page: nat, n: nat)
      requires Geometry()
    {
      forall p :: page <= p < page + n ==> BlockOf(maxPages, p) != b
    }

    /** Outside the pages [page, page + n) no logical block has changed or moved. */
    ghost predicate Untouched(items0: seq<Item>, cells0: seq<seq<Cell>>, items1: seq<Item>, cells1: seq<seq<Cell>>,
                              page: nat, n: nat)
      requires Geometry()
    {
      forall b :: 0 <= b < Low() && Outside(b, page, n) ==>
        Resolve(items1, b) == Resolve(items0, b) && Logical(items1, cells1, b) == Logical(items0, cells0, b)
    }

    /** i pages of the run are written, the others are still blank. */
    ghost predicate Progress(items1: seq<Item>, cells1: seq<seq<Cell>>, page: nat, data: seq<Page>, i: nat)
      requires Geometry()
    {
      && i <= |data|
      && (forall k :: 0 <= k < i ==> PageShows(items1, cells1, page + k, data[k]))
      && (forall p :: page + i <= p < page + |data| ==> PageBlank(items1, cells1, p))
    }

    lemma ChunkBlank(items1: seq<Item>, cells1: seq<seq<Cell>>, page: nat, data: seq<Page>, i: nat, n: nat)
      requires Geometry() && Progress(items1, cells1, page, data, i) && 0 < n <= |data| - i
      requires OffsetOf(maxPages, page + i) + n <= maxPages
      ensures BlockOf(maxPages, page + i) < Low()
      ensures BlankRun(Logical(items1, cells1, BlockOf(maxPages, page + i)), OffsetOf(maxPages, page + i), n)
    {
      hide BlockOf, OffsetOf;
      var block, first := BlockOf(maxPages, page + i), OffsetOf(maxPages, page + i);
      var row := Logical(items1, cells1, block);
      forall o | first <= o < first + n
        ensures o < |row| && row[o] == Blank
      {
        PagesInBlock(maxPages, page + i, n, o - first);
        assert PageBlank(items1, cells1, page + i + (o - first));
      }
      assert PageBlank(items1, cells1, page + i);
      PagesInBlock(maxPages, page + i, n, n - 1);
      assert PageBlank(items1, cells1, page + i + (n - 1));
    }

    /** Writing one block's share of the run advances it and keeps what was done before. */
    lemma Advance(items1: seq<Item>, cells1: seq<seq<Cell>>, items2: seq<Item>, cells2: seq<seq<Cell>>,
                  page: nat, data: seq<Page>, i: nat, n: nat)
      requires Geometry() && Progress(items1, cells1, page, data, i) && 0 < n <= |data| - i
      requires OffsetOf(maxPages, page + i) + n <= maxPages
      requires n < |data| - i ==> OffsetOf(maxPages, page + i) + n == maxPages
      requires i > 0 ==> OffsetOf(maxPages, page + i) == 0
      requires var block, first := BlockOf(maxPages, page + i), OffsetOf(maxPages, page + i);
               && Kept(items1, cells1, items2, cells2, Low(), block)
               && Stored(Resolve(items2, block), Logical(items2, cells2, block), first, data[i..i + n])
      ensures Progress(items2, cells2, page, data, i + n)
    {
      ChunkBlank(items1, cells1, page, data, i, n);
      hide BlockOf, OffsetOf, Resolve, Logical, Kept, Stored, PageShows, PageBlank;
      forall k | 0 <= k < i + n
        ensures PageShows(items2, cells2, page + k, data[k])
      {
        if k < i {
          DoneStays(items1, cells1, items2, cells2, page, data, i, k);
        } else {
          ChunkShows(items2, cells2, page + i, data[i..i + n], k - i);
        }
      }
      forall p | page + i + n <= p < page + |data|
        ensures PageBlank(items2, cells2, p)
      {
        RestStays(items1, cells1, items2, cells2, page + i, n, p);
      }
    }

    lemma RestStays(items1: seq<Item>, cells1: seq<seq<Cell>>, items2: seq<Item>, cells2: seq<seq<Cell>>,
                    q: nat, n: nat, p: nat)
      requires Geometry() && OffsetOf(maxPages, q) + n == maxPages && q + n <= p
      requires PageBlank(items1, cells1, p)
      requires Kept(items1, cells1, items2, cells2, Low(), BlockOf(maxPages, q))
      ensures PageBlank(items2, cells2, p)
    {
      NextBlock(maxPages, q);
      BlockMonotone(maxPages, q + n, p);
      hide Resolve, BlockOf, OffsetOf, Logical;
    }

    lemma DoneStays(items1: seq<Item>, cells1: seq<seq<Cell>>, items2: seq<Item>, cells2: seq<seq<Cell>>,
                    page: nat, data: seq<Page>, i: nat, k: nat)
      requires Geometry() && k < i < |data| && OffsetOf(maxPages, page + i) == 0
      requires BlockOf(maxPages, page + i) < Low() && PageShows(items1, cells1, page + k, data[k])
      requires Kept(items1, cells1, items2, cells2, Low(), BlockOf(maxPages, page + i))
      ensures PageShows(items2, cells2, page + k, data[k])
    {
      EarlierBlock(maxPages, page + k, page + i);
      hide Resolve, BlockOf, OffsetOf, Logical;
    }

    lemma ChunkShows(items2: seq<Item>, cells2: seq<seq<Cell>>, p: nat, chunk: seq<Page>, j: nat)
      requires Geometry() && j < |chunk| && OffsetOf(maxPages, p) + |chunk| <= maxPages
      requires var block := BlockOf(maxPages, p);
               Stored(Resolve(items2, block), Logical(items2, cells2, block), OffsetOf(maxPages, p), chunk)
      ensures PageShows(items2, cells2, p + j, chunk[j])
    {
      PagesInBlock(maxPages, p, |chunk|, j);
      hide Resolve, BlockOf, OffsetOf, Logical;
    }

    lemma UntouchedStep(items0: seq<Item>, cells0: seq<seq<Cell>>, items1: seq<Item>, cells1: seq<seq<Cell>>,
                        items2: seq<Item>, cells2: seq<seq<Cell>>, page: nat, n: nat, p: nat)
      requires Geometry() && page <= p < page + n
      requires Untouched(items0, cells0, items1, cells1, page, n)
      requires Kept(items1, cells1, items2, cells2, Low(), BlockOf(maxPages, p))
      ensures Untouched(items0, cells0, items2, cells2, page, n)
    {
      hide Resolve, BlockOf, Logical;
    }

    /** The block of a page number and the page's offset in it. */
    method Locate(page: nat) returns (block: nat, first: nat)
      requires maxPages > 0
      ensures block == BlockOf(maxPages, page) && first == OffsetOf(maxPages, page)
    {
      PageSplit(maxPages, page);
      block := page / maxPages;
      first := page - block * maxPages;
    }

    lemma ProgressStart(page: nat, data: seq<Page>)
      requires Geometry() && forall p :: page <= p < page + |data| ==> PageBlank(items, cells, p)
      ensures Progress(items, cells, page, data, 0) && Untouched(items, cells, items, cells, page, |data|)
    {
    }

    lemma ProgressEnd(page: nat, data: seq<Page>)
      requires Geometry() && Progress(items, cells, page, data, |data|)
      ensures forall k :: 0 <= k < |data| ==> PageShows(items, cells, page + k, data[k])
    {
    }

    /** Since (items0, cells0) only blocks of the run have changed, and no slot has. */
    ghost predicate Confined(items0: seq<Item>, cells0: seq<seq<Cell>>, page: nat, n: nat)
      reads this`cells, this`items, this`slot, this`full, this`slotsDone, this`zeroLost
    {
      && Valid() && |cells0| == maxBlocks && |cells0[0]| == maxPages && items0 <= items
      && cells[0][maxPages - SLOTS..] == cells0[0][maxPages - SLOTS..]
      && Untouched(items0, cells0, items, cells, page, n)
    }

    // ---------------------------------------------------------- the pages beside the run

    /** Every logical page outside [page, page + n), block `except` apart, holds what it held, or is
        blank because its block has moved. */
    ghost predicate Beside(items0: seq<Item>, cells0: seq<seq<Cell>>, items1: seq<Item>, cells1: seq<seq<Cell>>,
                           page: nat, n: nat, except: nat)
      requires Geometry()
    {
      forall p: nat :: !(page <= p < page + n) && BlockOf(maxPages, p) < Low() && BlockOf(maxPages, p) != except ==>
        CellOf(items1, cells1, maxPages, p)
        == if Moved(items0, items1, BlockOf(maxPages, p)) then Blank else CellOf(items0, cells0, maxPages, p)
    }

    /** No block from `from` on has moved. */
    ghost predicate AheadUnmoved(items0: seq<Item>, items1: seq<Item>, from: nat)
      requires Geometry()
    {
      forall b :: from <= b < Low() ==> !Moved(items0, items1, b)
    }

    /** Operation j from ops0 on is the first to fail. */
    ghost predicate FailsFirst(ops0: nat, j: nat)
    {
      Clear(ops0, ops0 + j) && !works(ops0 + j)
    }

    /** Page j of the run is programmed, and that is the first program to fail. */
    ghost predicate FailsAt(home: nat, first: nat, data: seq<Page>, ops0: nat, j: nat)
      requires j < |data|
    {
      Programs(home, first + j, data[j]) && FailsFirst(ops0, Issued(home, first, data, j))
    }

    /** One of the first i pages of the run is programmed and lies in block b. */
    ghost predicate Reached(home: nat, data: seq<Page>, page: nat, i: nat, b: nat)
      requires maxPages > 0 && i <= |data|
    {
      exists j :: 0 <= j < i && BlockOf(maxPages, page + j) == b && Programs(home, OffsetOf(maxPages, page) + j, data[j])
    }

    /** After i pages of the run: if no program failed, nothing has moved; the first to fail has moved its
        page's block; and only blocks with a programmed page have moved. */
    ghost predicate Trail(items0: seq<Item>, ops0: nat, items1: seq<Item>, ops1: nat, page: nat, data: seq<Page>, i: nat)
      requires maxPages > 0 && i <= |data|
    {
      var home, first := Resolve(items0, BlockOf(maxPages, page)), OffsetOf(maxPages, page);
      var n := Issued(home, first, data, i);
      && (Clear(ops0, ops0 + n) ==> items1 == items0 && ops1 == ops0 + n)
      && (forall j :: 0 <= j < i && FailsAt(home, first, data, ops0, j) ==>
            Moved(items0, items1, BlockOf(maxPages, page + j)))
      && (forall b :: 0 <= b && Moved(items0, items1, b) && b + reserved < maxBlocks ==> Reached(home, data, page, i, b))
    }

    lemma BesideStep(items0: seq<Item>, cells0: seq<seq<Cell>>, items1: seq<Item>, cells1: seq<seq<Cell>>,
                     items2: seq<Item>, cells2: seq<seq<Cell>>, page: nat, n: nat, i: nat, m: nat)
      requires Geometry() && i + m <= n && Beside(items0, cells0, items1, cells1, page, n, Low())
      requires var block := BlockOf(maxPages, page + i);
               && block < Low() && !Moved(items0, items1, block) && Kept(items1, cells1, items2, cells2, Low(), block)
               && |Logical(items1, cells1, block)| == maxPages
               && RestKept(Moved(items1, items2, block), Logical(items1, cells1, block), Logical(items2, cells2, block),
                           OffsetOf(maxPages, page + i), m)
      ensures Beside(items0, cells0, items2, cells2, page, n, Low())
    {
      hide Resolve, Logical, BlockOf, OffsetOf;
      var block := BlockOf(maxPages, page + i);
      forall p: nat | !(page <= p < page + n) && BlockOf(maxPages, p) < Low()
        ensures CellOf(items2, cells2, maxPages, p)
             == if Moved(items0, items2, BlockOf(maxPages, p)) then Blank else CellOf(items0, cells0, maxPages, p)
      {
        PageSplit(maxPages, p);
        PageSplit(maxPages, page + i);
        assert CellOf(items1, cells1, maxPages, p)
            == if Moved(items0, items1, BlockOf(maxPages, p)) then Blank else CellOf(items0, cells0, maxPages, p);
      }
    }

    lemma BesideFailed(items0: seq<Item>, cells0: seq<seq<Cell>>, items1: seq<Item>, cells1: seq<seq<Cell>>,
                       items2: seq<Item>, cells2: seq<seq<Cell>>, page: nat, n: nat, block: nat)
      requires Geometry() && Beside(items0, cells0, items1, cells1, page, n, Low())
      requires Kept(items1, cells1, items2, cells2, Low(), block)
      ensures Beside(items0, cells0, items2, cells2, page, n, block)
    {
      hide Resolve, Logical, BlockOf, OffsetOf;
      forall p: nat | !(page <= p < page + n) && BlockOf(maxPages, p) < Low() && BlockOf(maxPages, p) != block
        ensures CellOf(items2, cells2, maxPages, p)
             == if Moved(items0, items2, BlockOf(maxPages, p)) then Blank else CellOf(items0, cells0, maxPages, p)
      {
        assert CellOf(items1, cells1, maxPages, p)
            == if Moved(items0, items1, BlockOf(maxPages, p)) then Blank else CellOf(items0, cells0, maxPages, p);
      }
    }

    lemma AheadStep(items0: seq<Item>, items1: seq<Item>, cells1: seq<seq<Cell>>, items2: seq<Item>,
                    cells2: seq<seq<Cell>>, block: nat)
      requires Geometry() && AheadUnmoved(items0, items1, block) && Kept(items1, cells1, items2, cells2, Low(), block)
      ensures AheadUnmoved(items0, items2, block + 1)
    {
      hide Resolve, Logical;
      forall b | block + 1 <= b < Low()
        ensures !Moved(items0, items2, b)
      {
        assert !Moved(items0, items1, b);
      }
    }

    lemma TrailStep(items0: seq<Item>, ops0: nat, items1: seq<Item>, cells1: seq<seq<Cell>>, ops1: nat,
                    items2: seq<Item>, cells2: seq<seq<Cell>>, ops2: nat, page: nat, data: seq<Page>, i: nat, m: nat, n: nat)
      requires Geometry() && i + m <= |data| && Trail(items0, ops0, items1, ops1, page, data, i)
      requires i > 0 ==> OffsetOf(maxPages, page + i) == 0
      requires OffsetOf(maxPages, page + i) + m <= maxPages
      requires var home, first := Resolve(items0, BlockOf(maxPages, page)), OffsetOf(maxPages, page);
               Issued(home, first, data, i + m) == Issued(home, first, data, i) + n
      requires var block := BlockOf(maxPages, page + i);
               && block < Low() && Kept(items1, cells1, items2, cells2, Low(), block) && !Moved(items0, items1, block)
               && (if Clear(ops1, ops1 + n) then items2 == items1 && ops2 == ops1 + n else Moved(items1, items2, block))
      ensures Trail(items0, ops0, items2, ops2, page, data, i + m)
    {
      hide Resolve, Logical, BlockOf, OffsetOf, Programs, Issued, FailsAt, Reached, Moved, Kept;
      var home, first := Resolve(items0, BlockOf(maxPages, page)), OffsetOf(maxPages, page);
      var block := BlockOf(maxPages, page + i);
      forall j | 0 <= j < i + m && FailsAt(home, first, data, ops0, j)
        ensures Moved(items0, items2, BlockOf(maxPages, page + j))
      {
        if j < i {
          EarlierBlock(maxPages, page + j, page + i);
          assert Moved(items0, items1, BlockOf(maxPages, page + j));
          MovedStays(items0, items1, cells1, items2, cells2, block, BlockOf(maxPages, page + j));
        } else {
          FailsHere(home, first, data, ops0, i, m, j);
          PagesInBlock(maxPages, page + i, m, j - i);
        }
      }
      forall b | 0 <= b && Moved(items0, items2, b) && b + reserved < maxBlocks
        ensures Reached(home, data, page, i + m, b)
      {
        if b == block {
          ReachedHere(home, data, page, i, m);
        } else {
          MovedStays(items0, items1, cells1, items2, cells2, block, b);
          ReachedStays(home, data, page, i, i + m, b);
        }
      }
    }

    /** Whether another block has moved does not change. */
    lemma MovedStays(items0: seq<Item>, items1: seq<Item>, cells1: seq<seq<Cell>>, items2: seq<Item>,
                     cells2: seq<seq<Cell>>, block: nat, b: nat)
      requires Geometry() && Kept(items1, cells1, items2, cells2, Low(), block) && b < Low() && b != block
      ensures Moved(items0, items2, b) <==> Moved(items0, items1, b)
    {
      hide Resolve, Logical;
    }

    /** A first failure behind page i: the first i pages have all been programmed, the next m have not. */
    lemma FailsHere(home: nat, first: nat, data: seq<Page>, ops0: nat, i: nat, m: nat, j: nat)
      requires i <= j < i + m <= |data| && FailsAt(home, first, data, ops0, j)
      ensures Clear(ops0, ops0 + Issued(home, first, data, i))
      ensures !Clear(ops0 + Issued(home, first, data, i), ops0 + Issued(home, first, data, i + m))
    {
      hide Programs;
      IssuedGrows(home, first, data, i, j);
      IssuedGrows(home, first, data, j, i + m);
    }

    lemma ReachedHere(home: nat, data: seq<Page>, page: nat, i: nat, m: nat)
      requires maxPages > 0 && i + m <= |data| && OffsetOf(maxPages, page + i) + m <= maxPages
      requires Issued(home, OffsetOf(maxPages, page), data, i + m) > Issued(home, OffsetOf(maxPages, page), data, i)
      ensures Reached(home, data, page, i + m, BlockOf(maxPages, page + i))
    {
      hide Programs, BlockOf, OffsetOf, Issued;
      var first := OffsetOf(maxPages, page);
      IssuedGrows(home, first, data, i, i + m);
      var j :| i <= j < i + m && Programs(home, first + j, data[j]);
      PagesInBlock(maxPages, page + i, m, j - i);
    }

    lemma ReachedStays(home: nat, data: seq<Page>, page: nat, i: nat, k: nat, b: nat)
      requires maxPages > 0 && i <= k <= |data| && Reached(home, data, page, i, b)
      ensures Reached(home, data, page, k, b)
    {
      hide Programs, BlockOf, OffsetOf;
    }

    /** No page outside the run in a block with a programmed page holds anything. */
    ghost predicate NothingBeside(items0: seq<Item>, cells0: seq<seq<Cell>>, page: nat, data: seq<Page>)
      requires Geometry()
    {
      var home := Resolve(items0, BlockOf(maxPages, page));
      forall p: nat :: !(page <= p < page + |data|) && BlockOf(maxPages, p) < Low()
                       && Reached(home, data, page, |data|, BlockOf(maxPages, p)) ==>
        CellOf(items0, cells0, maxPages, p) == Blank
    }

    /** Every page outside the run holds what it held. */
    ghost predicate AllBesideKept(items0: seq<Item>, cells0: seq<seq<Cell>>, items1: seq<Item>, cells1: seq<seq<Cell>>,
                                  page: nat, n: nat)
      requires Geometry()
    {
      forall p: nat :: !(page <= p < page + n) && BlockOf(maxPages, p) < Low() ==>
        CellOf(items1, cells1, maxPages, p) == CellOf(items0, cells0, maxPages, p)
    }

    /** If nothing lies beside the run, a successful write keeps all other pages, whatever fails. */
    lemma NothingLost(items0: seq<Item>, cells0: seq<seq<Cell>>, ops0: nat, items1: seq<Item>, cells1: seq<seq<Cell>>,
                      ops1: nat, page: nat, data: seq<Page>)
      requires Geometry() && NothingBeside(items0, cells0, page, data)
      requires Beside(items0, cells0, items1, cells1, page, |data|, Low())
      requires Trail(items0, ops0, items1, ops1, page, data, |data|)
      ensures AllBesideKept(items0, cells0, items1, cells1, page, |data|)
    {
      hide CellOf, BlockOf, Moved, Reached, Issued, FailsAt, Clear;
      forall p: nat | !(page <= p < page + |data|) && BlockOf(maxPages, p) < Low()
        ensures CellOf(items1, cells1, maxPages, p) == CellOf(items0, cells0, maxPages, p)
      {
        if Moved(items0, items1, BlockOf(maxPages, p)) {
          assert Reached(Resolve(items0, BlockOf(maxPages, page)), data, page, |data|, BlockOf(maxPages, p));
        }
      }
    }

    /** Otherwise some page p that holds something lies in the block of a programmed page j of the run, */
    lemma SomethingBeside(items0: seq<Item>, cells0: seq<seq<Cell>>, page: nat, data: seq<Page>) returns (j: nat, p: nat)
      requires Geometry() && !NothingBeside(items0, cells0, page, data)
      ensures j < |data| && !(page <= p < page + |data|) && BlockOf(maxPages, p) == BlockOf(maxPages, page + j) < Low()
      ensures Programs(Resolve(items0, BlockOf(maxPages, page)), OffsetOf(maxPages, page) + j, data[j])
      ensures CellOf(items0, cells0, maxPages, p) != Blank
    {
      hide CellOf, BlockOf, Programs;
      var home := Resolve(items0, BlockOf(maxPages, page));
      p :| !(page <= p < page + |data|) && BlockOf(maxPages, p) < Low()
           && Reached(home, data, page, |data|, BlockOf(maxPages, p)) && CellOf(items0, cells0, maxPages, p) != Blank;
      j :| 0 <= j < |data| && BlockOf(maxPages, page + j) == BlockOf(maxPages, p)
           && Programs(home, OffsetOf(maxPages, page) + j, data[j]);
    }

    /** and is lost when the first program to fail is that of page j. */
    lemma NeighbourLost(items0: seq<Item>, cells0: seq<seq<Cell>>, ops0: nat, items1: seq<Item>, cells1: seq<seq<Cell>>,
                        ops1: nat, page: nat, data: seq<Page>, j: nat, p: nat)
      requires Geometry() && Beside(items0, cells0, items1, cells1, page, |data|, Low()) && j < |data|
      requires Trail(items0, ops0, items1, ops1, page, data, |data|)
      requires FailsAt(Resolve(items0, BlockOf(maxPages, page)), OffsetOf(maxPages, page), data, ops0, j)
      requires !(page <= p < page + |data|) && BlockOf(maxPages, p) == BlockOf(maxPages, page + j) < Low()
      ensures CellOf(items1, cells1, maxPages, p) == Blank
    {
      hide CellOf, BlockOf, OffsetOf, FailsAt, Issued, Reached;
      assert Moved(items0, items1, BlockOf(maxPages, page + j));
    }

    /** A run of whole blocks has nothing beside it. */
    lemma WholeBlocks(items0: seq<Item>, cells0: seq<seq<Cell>>, page: nat, data: seq<Page>)
      requires Geometry() && OffsetOf(maxPages, page) == 0 && OffsetOf(maxPages, page + |data|) == 0
      ensures NothingBeside(items0, cells0, page, data)
    {
      hide CellOf, Programs, BlockOf;
      forall p: nat | !(page <= p < page + |data|)
        ensures !Reached(Resolve(items0, BlockOf(maxPages, page)), data, page, |data|, BlockOf(maxPages, p))
      {
        var home := Resolve(items0, BlockOf(maxPages, page));
        if Reached(home, data, page, |data|, BlockOf(maxPages, p)) {
          var j :| 0 <= j < |data| && BlockOf(maxPages, page + j) == BlockOf(maxPages, p)
                   && Programs(home, OffsetOf(maxPages, page) + j, data[j]);
          Apart(page, |data|, p, j);
        }
      }
    }

    lemma Apart(page: nat, n: nat, p: nat, j: nat)
      requires maxPages > 0 && OffsetOf(maxPages, page) == 0 && OffsetOf(maxPages, page + n) == 0
      requires !(page <= p < page + n) && j < n
      ensures BlockOf(maxPages, page + j) != BlockOf(maxPages, p)
    {
      hide BlockOf, OffsetOf;
      if p < page {
        EarlierBlock(maxPages, p, page);
        BlockMonotone(maxPages, page, page + j);
      } else {
        EarlierBlock(maxPages, page + j, page + n);
        BlockMonotone(maxPages, page + n, p);
      }
    }

    /** __nand_core_write without out-of-band data, to blank logical pages. */
    method Write(page: nat, data: seq<Page>) returns (ok: bool)
      requires Valid()
      requires forall p :: page <= p < page + |data| ==> PageBlank(items, cells, p)
      modifies this`cells, this`items, this`changed, this`slotsDone, this`zeroLost, this`marks, this`ops
      ensures slotsDone == old(slotsDone) && zeroLost == old(zeroLost)
      ensures Confined(old(items), old(cells), page, |data|)
      ensures ok ==> forall k :: 0 <= k < |data| ==> PageShows(items, cells, page + k, data[k])
      ensures ok ==> Beside(old(items), old(cells), items, cells, page, |data|, Low())
      ensures !ok ==> exists b: nat :: b < Low() && Beside(old(items), old(cells), items, cells, page, |data|, b)
      ensures ok ==> Trail(old(items), old(ops), items, ops, page, data, |data|)
      ensures Recovers(ok, old(items), old(marks), old(Faults()))
      ensures Smooth(ok, old(items), old(marks), old(Faults()))
      ensures GivenUp(old(items), old(marks), items, marks)
      ensures old(changed) || items != old(items) ==> changed
      ensures old(TableReady()) ==> TableReady()
    {
      hide TableOk, SlotsOk, Resolve, Running, Beside, Trail, PageShows, PageBlank, BlockOf, OffsetOf, Confined,
        SpareLeft, Failures, ReadyRow, IsFrom;
      ok := true;
      var i := 0;
      var block: nat, first: nat := Locate(page);
      RunStarts(page, data, block, first);
      while i < |data|
        invariant 0 <= i <= |data| && slotsDone == old(slotsDone) && zeroLost == old(zeroLost) && ok && first < maxPages
        invariant Running(old(items), old(cells), old(ops), page, data, i, block, first)
        invariant Smooth(ok, old(items), old(marks), old(Faults()))
        invariant GivenUp(old(items), old(marks), items, marks)
        invariant old(changed) || items != old(items) ==> changed
      {
        var n := maxPages - first;
        if n > |data| - i {
          n := |data| - i;
        }
        ghost var items1, marks1 := items, marks;
        ok := WriteNext(old(items), old(cells), old(ops), page, data, i, block, first, n);
        GivenUpThen(old(items), old(marks), items1, marks1, items, marks);
        if !ok {
          StaysReady(old(items), old(cells), old(changed), page, |data|);
          return;
        }
        i := i + n;
        first := 0;
        block := block + 1;
      }
      RunEnds(old(items), old(cells), old(ops), page, data, block, first);
      StaysReady(old(items), old(cells), old(changed), page, |data|);
    }

    /** i pages of the run are written, and the next is page `first` of `block`. */
    ghost predicate Running(items0: seq<Item>, cells0: seq<seq<Cell>>, ops0: nat, page: nat,
                            data: seq<Page>, i: nat, block: nat, first: nat)
      reads this`cells, this`items, this`slot, this`full, this`slotsDone, this`zeroLost, this`ops
    {
      && i <= |data| && Confined(items0, cells0, page, |data|) && Progress(items, cells, page, data, i)
      && (i < |data| ==> block == BlockOf(maxPages, page + i) && first == OffsetOf(maxPages, page + i))
      && first < maxPages && (i > 0 ==> first == 0)
      && Beside(items0, cells0, items, cells, page, |data|, Low()) && AheadUnmoved(items0, items, block)
      && Trail(items0, ops0, items, ops, page, data, i) && (i == 0 ==> items == items0)
    }

    lemma RunStarts(page: nat, data: seq<Page>, block: nat, first: nat)
      requires Valid() && block == BlockOf(maxPages, page) && first == OffsetOf(maxPages, page)
      requires forall p :: page <= p < page + |data| ==> PageBlank(items, cells, p)
      ensures Running(items, cells, ops, page, data, 0, block, first)
    {
      hide TableOk, SlotsOk, Resolve, BlockOf, OffsetOf;
      ProgressStart(page, data);
      assert Confined(items, cells, page, |data|);
      assert Beside(items, cells, items, cells, page, |data|, Low()) && AheadUnmoved(items, items, block);
      assert Trail(items, ops, items, ops, page, data, 0);
    }

    lemma RunEnds(items0: seq<Item>, cells0: seq<seq<Cell>>, ops0: nat, page: nat, data: seq<Page>,
                  block: nat, first: nat)
      requires Running(items0, cells0, ops0, page, data, |data|, block, first)
      ensures Confined(items0, cells0, page, |data|) && Beside(items0, cells0, items, cells, page, |data|, Low())
      ensures forall k :: 0 <= k < |data| ==> PageShows(items, cells, page + k, data[k])
      ensures Trail(items0, ops0, items, ops, page, data, |data|)
    {
      ProgressEnd(page, data);
    }

    /** One turn of the loop of __nand_core_write. */
    method WriteNext(ghost items0: seq<Item>, ghost cells0: seq<seq<Cell>>, ghost ops0: nat,
                     page: nat, data: seq<Page>, i: nat, block: nat, first: nat, n: nat) returns (ok: bool)
      requires Running(items0, cells0, ops0, page, data, i, block, first)
      requires 0 < n <= |data| - i && n <= maxPages - first && (n < |data| - i ==> n == maxPages - first)
      modifies this`cells, this`items, this`changed, this`slotsDone, this`zeroLost, this`marks, this`ops
      ensures slotsDone == old(slotsDone) && zeroLost == old(zeroLost)
      ensures ok ==> Running(items0, cells0, ops0, page, data, i + n, block + 1, 0)
      ensures !ok ==> Confined(items0, cells0, page, |data|)
      ensures !ok ==> exists b: nat :: b < Low() && Beside(items0, cells0, items, cells, page, |data|, b)
      ensures Recovers(ok, old(items), old(marks), old(Faults()))
      ensures Smooth(ok, old(items), old(marks), old(Faults()))
      ensures GivenUp(old(items), old(marks), items, marks)
      ensures old(changed) || items != old(items) ==> changed
    {
      ghost var items1, cells1, ops1 := items, cells, ops;
      ghost var issued := Issued(Resolve(items, block), first, data[i..i + n], n);
      NextChunk(items0, cells0, ops0, page, data, i, block, first, n);
      hide *;
      ok := WriteBlock(block, first, data[i..i + n]);
      AfterChunk(ok, items0, cells0, ops0, page, data, i, block, first, n, items1, cells1, ops1, issued);
    }

    /** The state (items1, cells1, ops1) before a chunk of n pages, `issued` of which will be programmed. */
    ghost predicate Before(items0: seq<Item>, cells0: seq<seq<Cell>>, ops0: nat, page: nat, data: seq<Page>, i: nat,
                           block: nat, first: nat, n: nat, items1: seq<Item>, cells1: seq<seq<Cell>>, ops1: nat, issued: nat)
    {
      && Geometry() && 0 < n && i + n <= |data| && n <= maxPages - first && (n < |data| - i ==> n == maxPages - first)
      && block == BlockOf(maxPages, page + i) < Low() && first == OffsetOf(maxPages, page + i) && (i > 0 ==> first == 0)
      && Progress(items1, cells1, page, data, i)
      && Beside(items0, cells0, items1, cells1, page, |data|, Low()) && AheadUnmoved(items0, items1, block)
      && Trail(items0, ops0, items1, ops1, page, data, i)
      && |cells0| == |cells1| == maxBlocks && |cells0[0]| == |cells1[0]| == maxPages && items0 <= items1
      && cells1[0][maxPages - SLOTS..] == cells0[0][maxPages - SLOTS..]
      && Untouched(items0, cells0, items1, cells1, page, |data|)
      && Issued(Resolve(items0, BlockOf(maxPages, page)), OffsetOf(maxPages, page), data, i + n)
         == Issued(Resolve(items0, BlockOf(maxPages, page)), OffsetOf(maxPages, page), data, i) + issued
    }

    lemma AfterChunk(ok: bool, items0: seq<Item>, cells0: seq<seq<Cell>>, ops0: nat, page: nat, data: seq<Page>, i: nat,
                     block: nat, first: nat, n: nat, items1: seq<Item>, cells1: seq<seq<Cell>>, ops1: nat, issued: nat)
      requires Before(items0, cells0, ops0, page, data, i, block, first, n, items1, cells1, ops1, issued)
      requires OnlyChanged(items1, cells1, block)
      requires ok ==> Written(items1, cells1, block, first, data[i..i + n]) && Followed(items1, block, ops1, issued)
      ensures ok ==> Running(items0, cells0, ops0, page, data, i + n, block + 1, 0)
      ensures Confined(items0, cells0, page, |data|)
      ensures !ok ==> exists b: nat :: b < Low() && Beside(items0, cells0, items, cells, page, |data|, b)
    {
      hide Resolve, Logical, Kept, PageShows, PageBlank, TableOk, SlotsOk, BlockOf, OffsetOf, Written, BlankRun, Followed,
           Progress, Untouched, Beside, Trail, Moved, Issued, Shape, Running, Confined, AheadUnmoved, OnlyChanged;
      ConfinedStep(items0, cells0, items1, cells1, page, |data|, page + i, block);
      if ok {
        RunAdvances(items0, cells0, ops0, page, data, i, block, first, n, items1, cells1, ops1, issued);
      } else {
        BesideFailed(items0, cells0, items1, cells1, items, cells, page, |data|, block);
      }
    }

    lemma ConfinedStep(items0: seq<Item>, cells0: seq<seq<Cell>>, items1: seq<Item>, cells1: seq<seq<Cell>>,
                       page: nat, n: nat, p: nat, block: nat)
      requires Geometry() && page <= p < page + n && block == BlockOf(maxPages, p) && OnlyChanged(items1, cells1, block)
      requires |cells0| == |cells1| == maxBlocks && |cells0[0]| == maxPages
      requires cells1[0][maxPages - SLOTS..] == cells0[0][maxPages - SLOTS..]
      requires Untouched(items0, cells0, items1, cells1, page, n) && items0 <= items1
      ensures Confined(items0, cells0, page, n) && Kept(items1, cells1, items, cells, Low(), block)
    {
      hide Resolve, Logical, Kept, TableOk, SlotsOk, BlockOf, Untouched, Shape;
      UntouchedStep(items0, cells0, items1, cells1, items, cells, page, n, p);
    }

    /** What the next chunk finds. */
    lemma NextChunk(items0: seq<Item>, cells0: seq<seq<Cell>>, ops0: nat, page: nat, data: seq<Page>, i: nat,
                    block: nat, first: nat, n: nat)
      requires Running(items0, cells0, ops0, page, data, i, block, first)
      requires 0 < n <= |data| - i && n <= maxPages - first && (n < |data| - i ==> n == maxPages - first)
      ensures Valid() && block < Low() && BlankRun(Logical(items, cells, block), first, n) && i + n <= |data|
      ensures Before(items0, cells0, ops0, page, data, i, block, first, n, items, cells, ops,
                     Issued(Resolve(items, block), first, data[i..i + n], n))
    {
      hide Trail, Beside, Untouched, SlotsOk, Issued, Resolve, Logical, BlockOf, OffsetOf, BlankRun, TableOk, PageBlank;
      ChunkBlank(items, cells, page, data, i, n);
      var home := Resolve(items0, BlockOf(maxPages, page));
      if i > 0 {
        EarlierBlock(maxPages, page, page + i);
        LaterPage(page, i);
        Home(items, Low(), maxBlocks, block);
        IssuedLater(home, OffsetOf(maxPages, page), Resolve(items, block), data, i, n, n);
      } else {
        IssuedPrefix(home, first, data, n, n);
      }
    }

    /** Page i of a run, if it begins a block, is past the run's first block. */
    lemma LaterPage(page: nat, i: nat)
      requires maxPages > 0 && i > 0 && OffsetOf(maxPages, page + i) == 0
      ensures OffsetOf(maxPages, page) + i >= maxPages
    {
      if OffsetOf(maxPages, page) + i < maxPages {
        PagesInBlock(maxPages, page, i + 1, i);
      }
    }

    /** After the next chunk. */
    lemma RunAdvances(items0: seq<Item>, cells0: seq<seq<Cell>>, ops0: nat, page: nat, data: seq<Page>, i: nat,
                      block: nat, first: nat, n: nat, items1: seq<Item>, cells1: seq<seq<Cell>>, ops1: nat,
                      issued: nat)
      requires Confined(items0, cells0, page, |data|) && Progress(items1, cells1, page, data, i)
      requires 0 < n <= |data| - i && n <= maxPages - first && (n < |data| - i ==> n == maxPages - first)
      requires block == BlockOf(maxPages, page + i) < Low() && first == OffsetOf(maxPages, page + i) && (i > 0 ==> first == 0)
      requires Beside(items0, cells0, items1, cells1, page, |data|, Low()) && AheadUnmoved(items0, items1, block)
      requires Trail(items0, ops0, items1, ops1, page, data, i) && Followed(items1, block, ops1, issued)
      requires var home := Resolve(items0, BlockOf(maxPages, page));
               Issued(home, OffsetOf(maxPages, page), data, i + n) == Issued(home, OffsetOf(maxPages, page), data, i) + issued
      requires Written(items1, cells1, block, first, data[i..i + n])
      ensures Running(items0, cells0, ops0, page, data, i + n, block + 1, 0)
    {
      hide Resolve, Logical, Kept, Stored, RestKept, PageShows, PageBlank, TableOk, SlotsOk, BlockOf, OffsetOf,
           Progress, Untouched, Beside, Trail, Clear, Moved;
      Advance(items1, cells1, items, cells, page, data, i, n);
      BesideStep(items0, cells0, items1, cells1, items, cells, page, |data|, i, n);
      AheadStep(items0, items1, cells1, items, cells, block);
      NextBlock(maxPages, page + i);
      TrailStep(items0, ops0, items1, cells1, ops1, items, cells, ops, page, data, i, n, issued);
    }

    // ---------------------------------------------------------- reading

    /** __nand_core_read without flags: through the table, stopping at the first error. */
    method Read(page: nat, n: nat) returns (ok: bool, data: seq<Page>)
      requires Valid()
      requires forall p :: page <= p < page + n ==> BlockOf(maxPages, p) < Low()
      modifies this`ops
      ensures ok <==> Faults() == old(Faults())
      ensures ok ==> |data| == n && forall k :: 0 <= k < n ==> ReadsAs(page + k, data[k])
    {
      ok, data := true, [];
      var block, first := Locate(page);
      hide Resolve, Logical, TableOk, SlotsOk, BlockOf, OffsetOf;
      var left := n;
      while left > 0
        invariant 0 <= left <= n && |data| == n - left && ok && Faults() == old(Faults())
        invariant forall k :: 0 <= k < |data| ==> ReadsAs(page + k, data[k])
        invariant left > 0 ==> block == BlockOf(maxPages, page + |data|) && first == OffsetOf(maxPages, page + |data|)
        invariant Valid()
      {
        var count := maxPages - first;
        if count > left {
          count := left;
        }
        var got;
        ok, got := ReadBlock(page + |data|, block, first, count);
        if !ok {
          return;
        }
        NextBlock(maxPages, page + |data|);
        assert forall k :: 0 <= k < count ==> ReadsAs(page + |data| + k, got[k]);
        ReadsAppend(page, data, got);
        data := data + got;
        first := 0;
        left := left - count;
        block := block + 1;
      }
    }

    lemma ReadsAppend(page: nat, a: seq<Page>, b: seq<Page>)
      requires Geometry()
      requires forall k :: 0 <= k < |a| ==> ReadsAs(page + k, a[k])
      requires forall k :: 0 <= k < |b| ==> ReadsAs(page + |a| + k, b[k])
      ensures forall k :: 0 <= k < |a| + |b| ==> ReadsAs(page + k, (a + b)[k])
    {
      hide ReadsAs;
      forall k | 0 <= k < |a| + |b|
        ensures ReadsAs(page + k, (a + b)[k])
      {
        if k >= |a| {
          assert ReadsAs(page + |a| + (k - |a|), b[k - |a|]);
        }
      }
    }

    /** d is what logical page p holds, if that is known. */
    ghost predicate ReadsAs(p: nat, d: Page)
      requires Geometry()
      reads this`cells, this`items, this`slot, this`full, this`slotsDone, this`zeroLost
    {
      var c := CellOf(items, cells, maxPages, p);
      !c.Torn? ==> Shows(c, d)
    }

    method ReadBlock(ghost p: nat, block: nat, first: nat, count: nat) returns (ok: bool, data: seq<Page>)
      requires Valid() && block < Low() && first + count <= maxPages
      requires count > 0 ==> block == BlockOf(maxPages, p) && first == OffsetOf(maxPages, p)
      modifies this`ops
      ensures ok <==> Faults() == old(Faults())
      ensures ok ==> |data| == count && forall k :: 0 <= k < count ==> ReadsAs(p + k, data[k])
    {
      ok, data := true, [];
      assert items[..|items|] == items;
      var home := FindRealBlock(items, block, |items|, Low(), maxBlocks);
      Home(items, Low(), maxBlocks, block);
      hide Resolve, TableOk, SlotsOk, BlockOf, OffsetOf, ReadsAs, Shows;
      var i := 0;
      while i < count
        invariant 0 <= i <= count && |data| == i && ok && Faults() == old(Faults())
        invariant forall k :: 0 <= k < i ==> ReadsAs(p + k, data[k])
      {
        var d;
        ok, d := ReadPage(home, first + i);
        if !ok {
          return;
        }
        PagesInBlock(maxPages, p, count, i);
        ReadAtHome(p + i, home, first + i, d);
        data := data + [d];
        i := i + 1;
      }
    }

    lemma ReadAtHome(p: nat, home: nat, o: nat, d: Page)
      requires Geometry() && Shape() && home == Resolve(items, BlockOf(maxPages, p)) < maxBlocks
      requires o == OffsetOf(maxPages, p) && (!cells[home][o].Torn? ==> Shows(cells[home][o], d))
      ensures ReadsAs(p, d)
    {
      hide Resolve, BlockOf, OffsetOf;
    }

    /** A page that shows d cannot be read as anything else. */
    lemma ReadsWhatWasWritten(p: nat, d: Page, e: Page)
      requires Geometry() && PageShows(items, cells, p, d) && ReadsAs(p, e)
      requires Resolve(items, BlockOf(maxPages, p)) != 0 || OffsetOf(maxPages, p) < maxPages - SLOTS
      ensures d == e
    {
    }

    // ---------------------------------------------------------- erasing

    /** __nand_core_erase: erase the home of a logical block, relocating it on failure. */
    method EraseLogical(block: nat) returns (ok: bool)
      requires Valid() && 1 <= block < Low()
      modifies this`cells, this`items, this`changed, this`slotsDone, this`zeroLost, this`marks, this`ops
      ensures slotsDone == old(slotsDone) && zeroLost == old(zeroLost)
      ensures OnlyChanged(old(items), old(cells), block) && cells[0] == old(cells)[0]
      ensures ok ==> Logical(items, cells, block) == BlankRow(maxPages)
      ensures Faults() >= old(Faults()) && (Faults() == old(Faults()) ==> ok && items == old(items))
      ensures GivenUp(old(items), old(marks), items, marks)
      ensures old(TableReady()) ==> TableReady()
      ensures old(changed) || items != old(items) ==> changed
    {
      assert items[..|items|] == items;
      var home := FindRealBlock(items, block, |items|, Low(), maxBlocks);
      Home(items, Low(), maxBlocks, block);
      KeptNothing(items, cells, Low(), block);
      assert Clearing(true, false, items, cells, changed, Faults(), block, home);
      hide *;
      var again := true;
      ok := false;
      while again
        invariant slotsDone == old(slotsDone) && zeroLost == old(zeroLost)
        invariant Clearing(again, ok, old(items), old(cells), old(changed), old(Faults()), block, home)
        invariant GivenUp(old(items), old(marks), items, marks)
        decreases Free(items, maxBlocks), again
      {
        ghost var items1, marks1 := items, marks;
        ok, again, home := ClearOnce(old(items), old(cells), old(changed), old(Faults()), block, home);
        GivenUpThen(old(items), old(marks), items1, marks1, items, marks);
      }
      Cleared(ok, old(items), old(cells), old(changed), old(Faults()), block, home);
    }

    /** The state between two attempts to erase a block, and after the last. */
    ghost predicate Clearing(again: bool, ok: bool, items0: seq<Item>, cells0: seq<seq<Cell>>, changed0: bool, faults0: nat,
                             block: nat, home: nat)
      reads this`cells, this`items, this`changed, this`slot, this`full, this`slotsDone, this`zeroLost, this`ops
    {
      && OnlyChanged(items0, cells0, block) && cells[0] == cells0[0] && block >= 1
      && home == Resolve(items, block) < maxBlocks
      && (!again && ok ==> cells[home] == BlankRow(maxPages))
      && Faults() >= faults0 && (Faults() == faults0 ==> (again || ok) && items == items0)
      && (changed0 || items != items0 ==> changed)
    }

    method ClearOnce(ghost items0: seq<Item>, ghost cells0: seq<seq<Cell>>, ghost changed0: bool, ghost faults0: nat,
                     block: nat, home: nat) returns (ok: bool, again: bool, next: nat)
      requires Clearing(true, false, items0, cells0, changed0, faults0, block, home)
      modifies this`cells, this`items, this`changed, this`slotsDone, this`zeroLost, this`marks, this`ops
      ensures slotsDone == old(slotsDone) && zeroLost == old(zeroLost)
      ensures Clearing(again, ok, items0, cells0, changed0, faults0, block, next)
      ensures GivenUp(old(items), old(marks), items, marks)
      ensures if again then Free(items, maxBlocks) < Free(old(items), maxBlocks) else items == old(items)
    {
      hide Resolve, TableOk, Kept, IsFrom, IsTo, SlotsOk, Logical, Failures;
      ok, again, next := EraseRound(items0, cells0, block, home);
    }

    lemma Cleared(ok: bool, items0: seq<Item>, cells0: seq<seq<Cell>>, changed0: bool, faults0: nat, block: nat, home: nat)
      requires Clearing(false, ok, items0, cells0, changed0, faults0, block, home)
      ensures OnlyChanged(items0, cells0, block) && cells[0] == cells0[0]
      ensures ok ==> Logical(items, cells, block) == BlankRow(maxPages)
      ensures Faults() >= faults0 && (Faults() == faults0 ==> ok && items == items0)
      ensures changed0 || items != items0 ==> changed
      ensures |cells0| > 0 && ReadyRow(cells0[0], items0, changed0, slot, full) ==> TableReady()
    {
      hide Resolve, TableOk, Kept, SlotsOk, Failures;
    }

    method EraseAttempt(block: nat, home: nat) returns (ok: bool)
      requires Valid() && 1 <= block < Low() && home == Resolve(items, block) < maxBlocks
      modifies this`cells, this`slotsDone, this`zeroLost, this`marks, this`ops
      ensures Valid() && slotsDone == old(slotsDone) && zeroLost == old(zeroLost)
      ensures Faults() == old(Faults()) + (if ok then 0 else 1)
      ensures Kept(items, old(cells), items, cells, Low(), block) && cells[0] == old(cells)[0]
      ensures ok ==> cells[home] == BlankRow(maxPages)
      ensures forall b: nat :: b != home ==> (b in marks <==> b in old(marks))
      ensures !ok && sticks(home) ==> home in marks
    {
      Home(items, Low(), maxBlocks, block);
      hide Resolve, TableOk, IsFrom, IsTo, Logical, Failures, Kept;
      ok := EraseBlock(home);
      if !ok {
        MarkBad(home);
      }
      KeptInPlace(items, Low(), maxBlocks, old(cells), cells, block);
    }

    method EraseRound(ghost items0: seq<Item>, ghost cells0: seq<seq<Cell>>, block: nat, home: nat)
      returns (ok: bool, again: bool, next: nat)
      requires OnlyChanged(items0, cells0, block) && block >= 1 && home == Resolve(items, block) < maxBlocks
      modifies this`cells, this`items, this`changed, this`slotsDone, this`zeroLost, this`marks, this`ops
      ensures slotsDone == old(slotsDone) && zeroLost == old(zeroLost)
      ensures OnlyChanged(items0, cells0, block) && cells[0] == old(cells)[0]
      ensures next == Resolve(items, block) < maxBlocks
      ensures ok ==> !again && cells[next] == BlankRow(maxPages)
      ensures again ==> Free(items, maxBlocks) < Free(old(items), maxBlocks)
      ensures !again ==> items == old(items)
      ensures if ok then Faults() == old(Faults()) else Faults() > old(Faults())
      ensures GivenUp(old(items), old(marks), items, marks)
      ensures old(changed) || items != old(items) ==> changed
    {
      hide Resolve, TableOk, Kept, IsFrom, IsTo, Logical, SlotsOk, GivenUp;
      again, next := false, home;
      ok := EraseAttempt(block, home);
      KeptTransitive(items0, cells0, items, old(cells), items, cells, Low(), block);
      if ok {
        ErasedStays(items, old(marks), marks, block, home);
        return;
      }
      ghost var c1, marks1 := cells, marks;
      var moved, dest := RelocateHome(block, home);
      HomeGivenUp(old(items), old(marks), items, marks1, marks, block, home);
      KeptTransitive(items0, cells0, old(items), c1, items, cells, Low(), block);
      if moved {
        again, next := true, dest;
      }
    }

    // ---------------------------------------------------------- the table slots

    function Shown(c: Cell): Page
    {
      match c
      case Blank => Erased()
      case Data(page) => page
      case Torn => Erased()
    }

    /** Every page of block 0 below the slots shows what it showed before. */
    ghost predicate FrontKept(before: seq<Cell>, after: seq<Cell>)
      requires maxPages >= SLOTS
    {
      && |before| == |after| == maxPages
      && forall o :: 0 <= o < maxPages - SLOTS && !before[o].Torn? ==> Shows(after[o], Shown(before[o]))
    }

    lemma FrontSame(before: seq<Cell>, after: seq<Cell>)
      requires maxPages >= SLOTS && |before| == |after| == maxPages
      requires forall o :: 0 <= o < maxPages - SLOTS ==> after[o] == before[o]
      ensures FrontKept(before, after)
    {
    }

    lemma FrontThrough(before: seq<Cell>, mid: seq<Cell>, after: seq<Cell>)
      requires maxPages >= SLOTS && FrontKept(before, mid) && |after| == maxPages
      requires forall o :: 0 <= o < maxPages - SLOTS ==> after[o] == mid[o]
      ensures FrontKept(before, after)
    {
    }

    /** The copy and erase of block 0 when its slots are used up (comip_nand.c:1357-1377). */
    method Recycle() returns (ok: bool)
      requires Valid() && full
      modifies this`cells, this`slotsDone, this`zeroLost, this`marks, this`ops
      ensures Faults() == old(Faults()) + (if ok then 0 else 1)
      ensures Valid() && cells == old(cells)[0 := cells[0]]
      ensures ok ==> !zeroLost && slotsDone == {}
      ensures ok ==> cells[0][maxPages - SLOTS..] == BlankRow(SLOTS)
      ensures ok ==> FrontKept(old(cells)[0], cells[0])
    {
      var buf: seq<Page>;
      ok, buf := ReadFront();
      if !ok {
        return;
      }
      ok := EraseBlock(0);
      if !ok {
        return;
      }
      ok := RestoreFront(buf);
    }

    method ReadFront() returns (ok: bool, buf: seq<Page>)
      requires Geometry() && Shape()
      modifies this`ops
      ensures Faults() == old(Faults()) + (if ok then 0 else 1)
      ensures ok ==> |buf| == maxPages - SLOTS
      ensures ok ==> forall o :: 0 <= o < |buf| && !cells[0][o].Torn? ==> buf[o] == Shown(cells[0][o])
    {
      buf := [];
      ok := true;
      var i := 0;
      while i < maxPages - SLOTS
        invariant 0 <= i <= maxPages - SLOTS && |buf| == i && ok && Faults() == old(Faults())
        invariant forall o :: 0 <= o < i && !cells[0][o].Torn? ==> buf[o] == Shown(cells[0][o])
      {
        var d;
        ok, d := ReadPage(0, i);
        if !ok {
          return;
        }
        buf := buf + [d];
        i := i + 1;
      }
    }

    method RestoreFront(buf: seq<Page>) returns (ok: bool)
      requires Geometry() && Shape() && |buf| == maxPages - SLOTS && cells[0] == BlankRow(maxPages)
      modifies this`cells, this`slotsDone, this`ops
      ensures Shape() && cells == old(cells)[0 := cells[0]] && slotsDone == old(slotsDone)
      ensures Faults() == old(Faults()) + (if ok then 0 else 1)
      ensures cells[0][maxPages - SLOTS..] == BlankRow(SLOTS)
      ensures ok ==> forall o :: 0 <= o < |buf| ==> cells[0][o] == Data(buf[o])
    {
      ok := true;
      var i := 0;
      while i < maxPages - SLOTS
        invariant 0 <= i <= |buf| && Shape() && slotsDone == old(slotsDone) && ok && Faults() == old(Faults())
        invariant cells == old(cells)[0 := cells[0]]
        invariant forall o :: 0 <= o < i ==> cells[0][o] == Data(buf[o])
        invariant forall o :: i <= o < maxPages ==> cells[0][o] == Blank
      {
        ok := ProgramPage(0, i, buf[i]);
        if !ok {
          return;
        }
        i := i + 1;
      }
    }

    /** The slots still to come are blank, those used hold the tables saved since block 0 was last erased,
        and an unchanged table is in the last one. */
    ghost predicate TableReady()
      reads this`cells, this`items, this`changed, this`slot, this`full
    {
      |cells| > 0 && ReadyRow(cells[0], items, changed, slot, full)
    }

    ghost predicate ReadyRow(row: seq<Cell>, items0: seq<Item>, changed0: bool, slot0: nat, full0: bool)
    {
      && |row| == maxPages
      && (!changed0 ==> maxPages - SLOTS <= slot0 + 1 < maxPages && row[slot0 + 1] == Data(Table(items0)))
      && (!full0 ==> slot0 < maxPages && forall o :: 0 <= o && maxPages - SLOTS <= o <= slot0 ==> row[o] == Blank)
      && (full0 && !changed0 ==> slot0 == maxPages - SLOTS - 1)
      && (!full0 || !changed0 ==>
            forall o :: slot0 < o < maxPages && maxPages - SLOTS <= o ==> HoldsTable(row[o]) && row[o].page.items <= items0)
    }

    /** Writing keeps the slots, and flags a table that it changes. */
    lemma StaysReady(items0: seq<Item>, cells0: seq<seq<Cell>>, changed0: bool, page: nat, n: nat)
      requires Confined(items0, cells0, page, n) && (changed0 || items != items0 ==> changed)
      ensures ReadyRow(cells0[0], items0, changed0, slot, full) ==> TableReady()
    {
      hide TableOk, SlotsOk, Untouched;
      var before, after := cells0[0], cells[0];
      forall o | maxPages - SLOTS <= o < maxPages
        ensures after[o] == before[o]
      {
        assert after[maxPages - SLOTS..][o - (maxPages - SLOTS)] == before[maxPages - SLOTS..][o - (maxPages - SLOTS)];
      }
    }

    /** __nand_core_write_bbt: put the table into the next slot, recycling block 0 first
        when all slots are used. */
    method WriteBbt() returns (ok: bool)
      requires Valid()
      modifies this`cells, this`slotsDone, this`zeroLost, this`changed, this`slot, this`full, this`marks, this`ops
      ensures Faults() == old(Faults()) + (if ok then 0 else 1)
      ensures Valid() && cells == old(cells)[0 := cells[0]]
      ensures !old(changed) ==> ok && cells == old(cells) && slotsDone == old(slotsDone)
      ensures old(changed) && !old(full) ==>
        && zeroLost == old(zeroLost) && (old(zeroLost) || old(slot) !in old(slotsDone))
        && cells[0] == old(cells)[0][old(slot) := cells[0][old(slot)]]
        && slotsDone == old(slotsDone) + (if ok then {old(slot)} else {})
        && (ok && old(cells)[0][old(slot)].Blank? ==> cells[0][old(slot)] == Data(Table(items)))
        && FrontKept(old(cells)[0], cells[0])
      ensures old(changed) && old(full) && ok ==>
        && FrontKept(old(cells)[0], cells[0]) && slotsDone == {maxPages - 1}
        && cells[0][maxPages - 1] == Data(Table(items))
      ensures ok ==> !changed
      ensures !ok ==> changed && full == old(full) && (!old(full) ==> slot == old(slot))
      ensures ok && (old(TableReady()) || (old(changed) && old(full))) ==> TableReady()
      ensures old(changed) && !old(full) ==> Counted(ok, old(ops)) && marks == old(marks)
      ensures old(changed) && ok ==>
        var used := if old(full) then maxPages - 1 else old(slot);
        slot == used - 1 && (full <==> used == maxPages - SLOTS)
    {
      hide TableOk, Shows, FrontKept;
      ok := true;
      if !changed {
        return;
      }
      ghost var row := cells[0];
      if full {
        ok := Recycle();
        if !ok {
          return;
        }
        assert cells[0][maxPages - 1] == cells[0][maxPages - SLOTS..][SLOTS - 1];
        slot := maxPages - 1;
      }
      ghost var was := cells[0];
      ok := SaveTable();
      FrontSame(was, cells[0]);
      if old(full) {
        FrontThrough(row, was, cells[0]);
      }
    }

    /** Program the next slot and move on to the one before it. */
    method SaveTable() returns (ok: bool)
      requires Geometry() && Shape() && TableOk(items, Low(), maxBlocks) && changed
      requires maxPages - SLOTS <= slot < maxPages && (zeroLost || forall p :: p in slotsDone ==> p > slot)
      requires full ==> slot == maxPages - 1 && forall o :: 0 <= o && maxPages - SLOTS <= o <= slot ==> cells[0][o] == Blank
      modifies this`cells, this`slotsDone, this`changed, this`slot, this`full, this`ops
      ensures Valid() && cells == old(cells)[0 := cells[0]] && Counted(ok, old(ops))
      ensures cells[0] == old(cells)[0][old(slot) := cells[0][old(slot)]]
      ensures slotsDone == old(slotsDone) + (if ok then {old(slot)} else {})
      ensures ok && old(cells)[0][old(slot)].Blank? ==> cells[0][old(slot)] == Data(Table(items))
      ensures if ok then !changed && slot == old(slot) - 1 && (full <==> old(slot) == maxPages - SLOTS)
              else changed && full == old(full) && slot == old(slot)
      ensures ok && (old(TableReady()) || old(full)) ==> TableReady()
    {
      hide TableOk, Shows;
      ok := ProgramPage(0, slot, Table(items));
      if !ok {
        return;
      }
      changed := false;
      full := false;
      slot := slot - 1;
      if slot < maxPages - SLOTS {
        full := true;
      }
    }

    /** Read one slot. An ECC error is tolerated; the content is not known then. */
    method ReadSlot(o: nat) returns (ok: bool, d: Page)
      requires Geometry() && Shape() && o < maxPages
      modifies this`ops
      ensures Faults() >= old(Faults()) && ops >= old(ops)
      ensures Faults() == old(Faults()) ==> ok && (!cells[0][o].Torn? ==> Shows(cells[0][o], d))
    {
      ok, d := ReadPage(0, o);
      if !ok {
        ok, d := *, *;
      }
    }

    /** The loop of __nand_core_load_bbt down to the first slot without a table; n is the total of the
        last table seen, `top` that of the table above. */
    method ScanSlots(top: nat) returns (ok: bool, o: nat, n: nat)
      requires Geometry() && Shape()
      modifies this`ops
      ensures Faults() >= old(Faults()) && ops >= old(ops) && maxPages - SLOTS - 1 <= o <= maxPages - 2
      ensures Faults() == old(Faults()) ==> ok
      ensures Faults() == old(Faults()) && SlotsWhole() ==>
                Scanned(o, n, top) && (o >= maxPages - SLOTS ==> !HoldsTable(cells[0][o]))
    {
      ok, o, n := true, maxPages - 2, top;
      while o >= maxPages - SLOTS
        invariant maxPages - SLOTS - 1 <= o <= maxPages - 2 && Faults() >= old(Faults()) && ops >= old(ops) && ok
        invariant Faults() == old(Faults()) && SlotsWhole() ==> Scanned(o, n, top)
      {
        var d;
        ok, d := ReadSlot(o);
        if !ok || !d.Table? {
          return;
        }
        n := |d.items|;
        o := o - 1;
      }
    }

    /** The slots from o + 1 to the last page but one hold tables, and n is the total of the lowest. */
    ghost predicate Scanned(o: nat, n: nat, top: nat)
      requires Geometry() && Shape()
      reads this`cells
    {
      && maxPages - SLOTS - 1 <= o <= maxPages - 2
      && (forall k :: o < k < maxPages - 1 ==> HoldsTable(cells[0][k]))
      && n == if o == maxPages - 2 then top else |cells[0][o + 1].page.items|
    }

    /** __nand_core_load_bbt when the last page of block 0 holds a table; otherwise it goes on to
        CreateBbt. Tables were saved from the last page downwards. */
    method LoadTable() returns (ok: bool, found: bool)
      requires Geometry() && Shape()
      modifies this`items, this`changed, this`slot, this`full, this`ops
      ensures Faults() >= old(Faults()) && ops >= old(ops)
      ensures Faults() == old(Faults()) ==> ok
      ensures Faults() == old(Faults()) && SlotsWhole() ==>
        (found <==> HoldsTable(cells[0][maxPages - 1])) && (found ==> Taken(cells[0]))
      ensures Faults() == old(Faults()) && old(Valid() && TableReady() && !changed) ==>
        found && Resumed(old(items), old(slot), old(full))
    {
      ghost var saved := Valid() && TableReady() && !changed;
      if saved {
        SavedWhole();
      }
      hide TableOk, SlotsOk, Resumed, Faults, ReadyRow, Saved, Taken;
      var d;
      ok, d := ReadSlot(maxPages - 1);
      found := ok && d.Table?;
      if found {
        ok := TakeTables(d.items);
      } else if !ok {
        items := *;
      }
      if Faults() == old(Faults()) && saved {
        TakenUp(old(items), old(slot), old(full));
      }
    }

    /** Take position and total from the slots below the last page, and the entries from `top`. */
    method TakeTables(top: seq<Item>) returns (ok: bool)
      requires Geometry() && Shape()
      modifies this`items, this`changed, this`slot, this`full, this`ops
      ensures Faults() >= old(Faults()) && ops >= old(ops)
      ensures Faults() == old(Faults()) ==> ok
      ensures Faults() == old(Faults()) && SlotsWhole() && cells[0][maxPages - 1] == Data(Table(top)) ==> Taken(cells[0])
    {
      hide Faults, Reloaded, Scanned, Taken;
      var o, n;
      ok, o, n := ScanSlots(|top|);
      items := Reloaded(top, n);
      if !ok {
        return;
      }
      full := o < maxPages - SLOTS;
      slot, changed := if full then maxPages - 1 else o, full;
      if Faults() == old(Faults()) && SlotsWhole() && cells[0][maxPages - 1] == Data(Table(top)) {
        TakenFrom(o, n);
      }
    }

    lemma TakenFrom(o: nat, n: nat)
      requires Geometry() && Shape() && HoldsTable(cells[0][maxPages - 1])
      requires var first := cells[0][maxPages - 1].page.items; Scanned(o, n, |first|) && items == Reloaded(first, n)
      requires o >= maxPages - SLOTS ==> !HoldsTable(cells[0][o])
      requires (full <==> o < maxPages - SLOTS) && changed == full && slot == if full then maxPages - 1 else o
      ensures Taken(cells[0])
    {
    }

    lemma SavedWhole()
      requires Valid() && TableReady() && !changed
      ensures SlotsWhole() && HoldsTable(cells[0][maxPages - 1]) && Saved(items, slot, full)
    {
      hide TableOk;
    }

    /** The table is in the slots, and the next one is free. */
    ghost predicate Saved(items0: seq<Item>, slot0: nat, full0: bool)
      requires Geometry() && Shape()
      reads this`cells, this`slotsDone, this`zeroLost
    {
      && TableOk(items0, Low(), maxBlocks) && ReadyRow(cells[0], items0, false, slot0, full0)
      && (full0 || (maxPages - SLOTS <= slot0 && (zeroLost || forall p :: p in slotsDone ==> p > slot0)))
    }

    lemma TakenUp(items0: seq<Item>, slot0: nat, full0: bool)
      requires Geometry() && Shape() && Saved(items0, slot0, full0) && Taken(cells[0])
      ensures Resumed(items0, slot0, full0)
    {
      var first := cells[0][maxPages - 1].page.items;
      ReloadExact(first, items0, Low(), maxBlocks);
      hide TableOk, Resolve;
      assert first == items0 ==> items == items0;
    }

    ghost predicate SlotsWhole()
      requires Geometry() && Shape()
      reads this`cells
    {
      forall o :: maxPages - SLOTS <= o < maxPages ==> !cells[0][o].Torn?
    }

    /** The state has been taken from the slots: the next one is the first from the top without a table. */
    ghost predicate Taken(row: seq<Cell>)
      requires Geometry() && |row| == maxPages
      reads this`items, this`changed, this`slot, this`full
    {
      var o := if full then maxPages - SLOTS - 1 else slot;
      && maxPages - SLOTS - 1 <= o < maxPages - 1
      && (if full then changed && slot == maxPages - 1 else !changed && slot >= maxPages - SLOTS && !HoldsTable(row[slot]))
      && (forall k :: o < k < maxPages ==> HoldsTable(row[k]))
      && items == Reloaded(row[maxPages - 1].page.items, |row[o + 1].page.items|)
    }

    /** What loading makes of a saved table: the position is found again, and the table, or the lookup of
        every block, exactly if it is still the first one saved. */
    ghost predicate Resumed(items0: seq<Item>, slot0: nat, full0: bool)
      requires Geometry() && Shape()
      reads this
    {
      var top := cells[0][maxPages - 1];
      && full == full0 && (if full then changed else !changed && slot == slot0)
      && HoldsTable(top) && top.page.items <= items0 && items == Reloaded(top.page.items, |items0|)
      && (top.page.items == items0 <==> forall b: nat :: b < Low() ==> Resolve(items, b) == Resolve(items0, b))
      && (top.page.items == items0 ==> items == items0 && Valid() && TableReady())
    }

    /** nand_erase on the blocks [start, end), clamped to the logical blocks. Block 0 is
        erased in place, not through the table; then the table is written. */
    method NandErase(start: nat, end: nat) returns (ok: bool)
      requires Valid()
      modifies this
      ensures Valid() && Faults() >= old(Faults())
      ensures start < end && start < Low() && Faults() == old(Faults()) ==> ok
      ensures ok ==> start < end && start < Low() && !changed
      ensures ok && start == 0 ==>
        && (forall o :: 0 <= o < maxPages - SLOTS ==> Shows(cells[0][o], Erased()))
        && cells[0][maxPages - 1] == Data(Table(items)) && slotsDone == {maxPages - 1}
      ensures ok ==> BlankFrom(start, end)
      ensures OthersKept(old(items), old(cells), start, end)
      ensures start > 0 && (ok || !old(full)) ==> FrontKept(old(cells)[0], cells[0])
      ensures ok && start == 0 ==>
        (ZeroBlank(items, cells) <==> !IsFrom(old(items), 0) || ZeroBlank(old(items), old(cells)))
      ensures ok && (start == 0 || old(TableReady())) ==> TableReady()
      ensures start == 0 < end && !works(old(ops)) ==>
        !ok && changed && slot == maxPages - 1 && items == old(items) && ops == old(ops) + 1
        && slotsDone == old(slotsDone) && full == old(full) && zeroLost
    {
      var last := end;
      if last > maxBlocks - reserved {
        last := maxBlocks - reserved;
      }
      if start >= maxBlocks - reserved || start >= last {
        return false;
      }
      ghost var ready := TableReady();
      assert Erasing(items, cells, start, last, start, ready, full);
      hide TableOk, SlotsOk, Logical, Erasing, TableReady;
      var i := start;
      while i < last
        invariant start <= i <= last && Faults() >= old(Faults())
        invariant Erasing(old(items), old(cells), start, last, i, ready, old(full))
        invariant i == start ==> ops == old(ops) && items == old(items) && slotsDone == old(slotsDone) && full == old(full)
        invariant start == 0 < i ==> works(old(ops))
      {
        ok := EraseNext(old(items), old(cells), start, last, i, ready, old(full));
        if !ok {
          return;
        }
        i := i + 1;
      }
      ok := FinishErase(old(items), old(cells), start, last, ready, old(full));
    }

    /** nand_finalize, after the loop. */
    method FinishErase(ghost items0: seq<Item>, ghost cells0: seq<seq<Cell>>, ghost start: nat, ghost end: nat,
                       ghost ready: bool, ghost full0: bool) returns (ok: bool)
      requires Erasing(items0, cells0, start, end, end, ready, full0) && start < end
      requires TableOk(items0, Low(), maxBlocks) && |cells0| == maxBlocks
      modifies this
      ensures Valid() && Faults() == old(Faults()) + (if ok then 0 else 1)
      ensures OthersKept(items0, cells0, start, end)
      ensures start > 0 && (ok || !full0) ==> FrontKept(cells0[0], cells[0])
      ensures ok ==> BlankFrom(start, end) && !changed && (start == 0 || ready ==> TableReady())
      ensures ok && start == 0 ==>
        && (forall o :: 0 <= o < maxPages - SLOTS ==> Shows(cells[0][o], Erased()))
        && cells[0][maxPages - 1] == Data(Table(items)) && slotsDone == {maxPages - 1}
        && (ZeroBlank(items, cells) <==> !IsFrom(items0, 0) || ZeroBlank(items0, cells0))
    {
      hide TableOk, SlotsOk, Logical;
      ghost var cells2 := cells;
      assert start == 0 ==> TableReady();
      ok := WriteBbt();
      AwayFromZero(items, cells2, cells);
      if ok && start == 0 {
        ZeroErased(items0, cells0, end);
      }
    }

    /** The blocks [start, i) are erased. */
    ghost predicate Erasing(items0: seq<Item>, cells0: seq<seq<Cell>>, start: nat, end: nat, i: nat, ready: bool, full0: bool)
      reads this`cells, this`items, this`changed, this`slot, this`full, this`slotsDone, this`zeroLost
    {
      && Valid() && start <= i <= end <= Low() && |cells0| > 0
      && BlankFrom(start, i) && OthersKept(items0, cells0, start, end)
      && (start == 0 < i ==> ZeroFresh())
      && (start > 0 ==> cells[0] == cells0[0] && full == full0 && (ready ==> TableReady()))
    }

    /** Logical block 0 reads as erased outside the slots. */
    ghost predicate ZeroBlank(items1: seq<Item>, cells1: seq<seq<Cell>>)
      requires Geometry()
    {
      var row := Logical(items1, cells1, 0);
      |row| == maxPages && forall o :: 0 <= o < maxPages - SLOTS ==> Shows(row[o], Erased())
    }

    /** Block 0 is at home exactly if no entry has moved it. */
    lemma ZeroHome(items1: seq<Item>)
      requires Geometry() && TableOk(items1, Low(), maxBlocks)
      ensures Resolve(items1, 0) == 0 <==> !IsFrom(items1, 0)
    {
      if !IsFrom(items1, 0) {
        Unmoved(items1, 0);
      }
      ResolveEnds(items1, Low(), maxBlocks, 0);
    }

    lemma ZeroErased(items0: seq<Item>, cells0: seq<seq<Cell>>, end: nat)
      requires Valid() && TableOk(items0, Low(), maxBlocks) && OthersKept(items0, cells0, 0, end)
      requires forall o :: 0 <= o < maxPages - SLOTS ==> Shows(cells[0][o], Erased())
      ensures ZeroBlank(items, cells) <==> !IsFrom(items0, 0) || ZeroBlank(items0, cells0)
    {
      ZeroHome(items0);
      hide TableOk, SlotsOk, IsFrom, Resolve;
    }

    ghost predicate BlankFrom(start: nat, i: nat)
      requires Geometry()
      reads this`cells, this`items
    {
      forall b :: 1 <= b < Low() && start <= b < i ==> Logical(items, cells, b) == BlankRow(maxPages)
    }

    /** No logical block outside [start, end) has changed, nor block 0 if it had moved. */
    ghost predicate OthersKept(items0: seq<Item>, cells0: seq<seq<Cell>>, start: nat, end: nat)
      requires Geometry()
      reads this`cells, this`items
    {
      && (forall b :: 1 <= b < Low() && !(start <= b < end) ==> Logical(items, cells, b) == Logical(items0, cells0, b))
      && Resolve(items, 0) == Resolve(items0, 0)
      && (Resolve(items0, 0) != 0 ==> Logical(items, cells, 0) == Logical(items0, cells0, 0))
    }

    /** Block 0 has been erased and its next slot is the last page. */
    ghost predicate ZeroFresh()
      reads this`cells, this`changed, this`slot, this`slotsDone
    {
      changed && slot == maxPages - 1 && |cells| > 0 && cells[0] == BlankRow(maxPages) && slotsDone == {}
    }

    /** One turn of the loop of nand_erase. */
    method EraseNext(ghost items0: seq<Item>, ghost cells0: seq<seq<Cell>>, ghost start: nat, ghost end: nat, i: nat,
                     ghost ready: bool, ghost full0: bool) returns (ok: bool)
      requires Erasing(items0, cells0, start, end, i, ready, full0) && i < end
      modifies this
      ensures Valid() && Faults() >= old(Faults()) && (Faults() == old(Faults()) ==> ok)
      ensures OthersKept(items0, cells0, start, end)
      ensures start > 0 ==> cells[0] == cells0[0]
      ensures ok ==> Erasing(items0, cells0, start, end, i + 1, ready, full0)
      ensures i == 0 ==> ok == works(old(ops))
      ensures i == 0 && !ok ==> changed && slot == maxPages - 1 && items == old(items) && ops == old(ops) + 1
                                && slotsDone == old(slotsDone) && full == old(full) && zeroLost
    {
      ghost var items1, cells1 := items, cells;
      if i == 0 {
        changed := true;
        slot := maxPages - 1;
        ok := EraseBlock(0);
        AwayFromZero(items1, cells1, cells);
      } else {
        hide TableOk, SlotsOk, Logical;
        ok := EraseLogical(i);
      }
    }

    /** A change to physical block 0 is a change to no logical block but the one at home there. */
    lemma AwayFromZero(items1: seq<Item>, cells1: seq<seq<Cell>>, cells2: seq<seq<Cell>>)
      requires Geometry() && TableOk(items1, Low(), maxBlocks) && |cells1| == |cells2| == maxBlocks
      requires forall b :: 1 <= b < maxBlocks ==> cells1[b] == cells2[b]
      ensures forall b :: 0 <= b < Low() && (b >= 1 || Resolve(items1, 0) != 0) ==>
                Logical(items1, cells1, b) == Logical(items1, cells2, b)
    {
      forall b | 0 <= b < Low() && (b >= 1 || Resolve(items1, 0) != 0)
        ensures Logical(items1, cells1, b) == Logical(items1, cells2, b)
      {
        Home(items1, Low(), maxBlocks, b);
      }
    }

    /** __nand_core_create_bbt: a new table, relocating every logical block marked bad. Its
        callers come with block 0 erased, or with no table in the slots. */
    method CreateBbt() returns (ok: bool)
      requires Geometry() && Shape() && (zeroLost || slotsDone == {})
      modifies this
      ensures Valid() && changed && Admitted(old(marks), old(Faults()), if ok then Low() else 1)
      ensures slot == maxPages - 1 && !full && slotsDone == old(slotsDone)
      ensures forall i :: 0 <= i < |items| ==> 1 <= items[i].from < Low()
      ensures forall b :: 0 <= b < Low() ==> cells[b] == old(cells)[b]
      ensures !ok && Faults() == old(Faults()) ==> forall b :: Low() <= b < Free(items, maxBlocks) ==> b in old(marks)
    {
      items := [];
      changed := true;
      slot := maxPages - 1;
      full := false;
      ok := true;
      assert Valid() && Admitted(marks, Faults(), 1) && SpareMarks(marks);
      hide TableOk, SlotsOk, IsTo, IsFrom, Admitted, SpareMarks;
      var i := 1;
      while i < maxBlocks - reserved
        invariant 1 <= i <= Low() && Valid() && changed && ok && Admitted(old(marks), old(Faults()), i) && SpareMarks(old(marks))
        invariant slot == maxPages - 1 && !full && slotsDone == old(slotsDone)
        invariant forall j :: 0 <= j < |items| ==> 1 <= items[j].from < i
        invariant forall b :: 0 <= b < Low() ==> cells[b] == old(cells)[b]
      {
        ok := Admit(old(marks), old(Faults()), i);
        if !ok {
          break;
        }
        i := i + 1;
      }
    }

    /** The marked blocks below i, and without a fault only they, have been relocated; the marks of
        logical blocks are as they were. */
    ghost predicate Admitted(marks0: set<nat>, faults0: nat, i: nat)
      requires Geometry()
      reads this`items, this`marks, this`ops
    {
      && faults0 <= Faults()
      && (forall b :: 1 <= b < i && b in marks0 ==> IsFrom(items, b))
      && (Faults() == faults0 ==> forall b :: 1 <= b < i && IsFrom(items, b) ==> b in marks0)
      && (forall b: nat :: b < Low() ==> (b in marks <==> b in marks0))
    }

    /** So are the marks of the reserved blocks still free. */
    ghost predicate SpareMarks(marks0: set<nat>)
      reads this`items, this`marks
    {
      forall b: nat :: b < Free(items, maxBlocks) ==> (b in marks <==> b in marks0)
    }

    /** One turn of the loop of __nand_core_create_bbt. */
    method Admit(ghost marks0: set<nat>, ghost faults0: nat, i: nat) returns (ok: bool)
      requires Valid() && 1 <= i < Low() && changed && Admitted(marks0, faults0, i) && SpareMarks(marks0)
      requires forall j :: 0 <= j < |items| ==> 1 <= items[j].from < i
      modifies this`cells, this`items, this`changed, this`slotsDone, this`zeroLost, this`marks, this`ops
      ensures Valid() && changed && Admitted(marks0, faults0, if ok then i + 1 else 1) && (ok ==> SpareMarks(marks0))
      ensures slotsDone == old(slotsDone) && zeroLost == old(zeroLost)
      ensures forall j :: 0 <= j < |items| ==> 1 <= items[j].from < i + 1
      ensures forall b :: 0 <= b < Low() ==> cells[b] == old(cells)[b]
      ensures !ok && Faults() == faults0 ==> forall b :: Low() <= b < Free(items, maxBlocks) ==> b in marks0
    {
      hide TableOk, SlotsOk, IsTo;
      ok := CheckBlock(i);
      if !ok {
        var dest;
        ok, dest := RelocateBlock(i);
        if ok {
          AppendedFrom(old(items), Item(i, dest));
        }
      }
    }

    lemma AppendedFrom(items0: seq<Item>, x: Item)
      ensures forall b :: IsFrom(items0 + [x], b) <==> IsFrom(items0, b) || b == x.from
    {
      forall b: nat
        ensures IsFrom(items0 + [x], b) <==> IsFrom(items0, b) || b == x.from
      {
        if IsFrom(items0, b) {
          var k :| 0 <= k < |items0| && items0[k].from == b;
          assert (items0 + [x])[k].from == b;
        }
        assert (items0 + [x])[|items0|] == x;
      }
    }
  }
}
