/**
drivers/nand/comip_nand.c: runs of the block layer in which an operation reports success and data is
lost or kept against expectation, on a chip of 1024 blocks of 64 pages with the driver's reserve of 20.
 */
module NandRuns {
  import opened Relocation
  import opened NandDriver

  /** Only operation k fails. */
  function OnlyFails(k: nat): nat -> bool { n => n != k }

  lemma {:induction false} OneFailure(k: nat, n: nat)
    ensures Failures(OnlyFails(k), n) == if n > k then 1 else 0
  {
    if n != 0 {
      OneFailure(k, n - 1);
    }
  }

  function RowWith(b: nat, e: Page): (row: seq<Cell>)
    ensures |row| == 64
  {
    if b == 1 then BlankRow(64)[6 := Data(e)] else BlankRow(64)
  }

  /** Every block blank but for block 1, page 6. */
  function WithNeighbour(e: Page): (cells: seq<seq<Cell>>)
    ensures |cells| == 1024 && forall b :: 0 <= b < 1024 ==> |cells[b]| == 64
  {
    seq(1024, b requires 0 <= b => RowWith(b, e))
  }

  lemma FirstShows(nand: Nand, page: nat, data: seq<Page>)
    requires nand.Geometry() && data != []
    requires forall k :: 0 <= k < |data| ==> nand.PageShows(nand.items, nand.cells, page + k, data[k])
    ensures nand.PageShows(nand.items, nand.cells, page, data[0])
  {
    assert nand.PageShows(nand.items, nand.cells, page + 0, data[0]);
  }

  /** A page of block 1 is written, its first program fails, the write succeeds in a spare block, and
      the neighbouring page is gone. */
  method LosesNeighbour(d: Page, e: Page) returns (nand: Nand, ok: bool, ghost before: Cell)
    ensures ok && before == Data(e)
    ensures nand.Valid() && nand.PageShows(nand.items, nand.cells, 69, d)
    ensures nand.maxPages == 64 && CellOf(nand.items, nand.cells, 64, 70) == Blank
  {
    nand := new Nand(1024, 64, 2048, 20, WithNeighbour(e), {}, OnlyFails(0), _ => true);
    before := CellOf(nand.items, nand.cells, 64, 70);
    assert BlockOf(64, 69) == 1 && OffsetOf(64, 69) == 5 && BlockOf(64, 70) == 1;
    assert Resolve([], 1) == 1;
    assert nand.PageBlank(nand.items, nand.cells, 69);
    assert nand.SpareLeft([], {}) by {
      assert 1023 !in nand.marks;
    }
    var data := [d];
    ok := nand.Write(69, data);
    OneFailure(0, nand.ops);
    FirstShows(nand, 69, data);
    assert nand.FailsFirst(0, 0);
    nand.NeighbourLost([], WithNeighbour(e), 0, nand.items, nand.cells, nand.ops, 69, data, 0, 70);
  }

  /** Page 0 is written, its first program fails and block 0 moves; erasing block 0 then succeeds and
      leaves the page. */
  method EraseMissesZero(d: Page) returns (nand: Nand, ok: bool)
    requires d != Raw(seq(2048, i => 0xff))
    ensures nand.Valid() && ok && nand.PageShows(nand.items, nand.cells, 0, d) && Resolve(nand.items, 0) != 0
    ensures !nand.ZeroBlank(nand.items, nand.cells)
  {
    nand := new Nand(1024, 64, 2048, 20, seq(1024, b => BlankRow(64)), {}, OnlyFails(0), _ => true);
    assert BlockOf(64, 0) == 0 && OffsetOf(64, 0) == 0 && Resolve([], 0) == 0;
    assert nand.PageBlank(nand.items, nand.cells, 0);
    assert nand.SpareLeft([], {}) by {
      assert 1023 !in nand.marks;
    }
    var data := [d];
    ok := nand.Write(0, data);
    OneFailure(0, nand.ops);
    FirstShows(nand, 0, data);
    assert nand.Programs(0, 0, d);
    assert nand.FailsAt(0, 0, data, 0, 0);
    assert nand.Moved([], nand.items, 0);
    ghost var items, cells := nand.items, nand.cells;
    nand.ZeroHome(items);
    ok := nand.NandErase(0, 1);
    OneFailure(0, nand.ops);
  }

  lemma {:induction false} NoFailure(n: nat)
    ensures Failures(_ => true, n) == 0
  {
    if n != 0 {
      NoFailure(n - 1);
    }
  }

  /** The last 24 of the 64 pages of block 0 are the slots: of a run over pages 38 to 41 the first two are
      programmed, and the write succeeds. */
  method SkipsSlots(d: Page) returns (nand: Nand, ok: bool)
    requires d != Raw(seq(2048, i => 0xff))
    ensures ok && nand.Geometry() && nand.Shape() && nand.maxPages == 64 && nand.cells != [] && nand.ops == 2
    ensures nand.cells[0][38] == nand.cells[0][39] == Data(d) && nand.cells[0][40] == nand.cells[0][41] == Blank
  {
    nand := new Nand(1024, 64, 2048, 20, seq(1024, b => BlankRow(64)), {}, _ => true, _ => true);
    ghost var cells0 := nand.cells;
    var data := [d, d, d, d];
    forall p | 38 <= p < 42
      ensures BlockOf(64, p) == 0 && OffsetOf(64, p) == p
    {
    }
    assert Resolve([], 0) == 0;
    ok := nand.Write(38, data);
    NoFailure(nand.ops);
    FourPages(nand, d, data);
    assert nand.PageShows(nand.items, nand.cells, 38 + 0, data[0]);
    assert nand.PageShows(nand.items, nand.cells, 38 + 1, data[1]);
    assert nand.cells[0][40..][0] == cells0[0][40..][0] && nand.cells[0][40..][1] == cells0[0][40..][1];
  }

  lemma FourPages(nand: Nand, d: Page, data: seq<Page>)
    requires data == [d, d, d, d] && nand.maxPages == 64 && nand.pageSize == 2048 && d != Raw(seq(2048, i => 0xff))
    ensures nand.Issued(0, 38, data, 4) == 2
  {
    assert nand.Issued(0, 38, data, 0) == 0;
    assert nand.Issued(0, 38, data, 1) == 1;
    assert nand.Issued(0, 38, data, 2) == 2;
    assert nand.Issued(0, 38, data, 3) == 2;
  }

  /** The table is saved, an erase of block 0 fails, and the next save is due in the same slot. */
  method SlotReused() returns (nand: Nand, ok: bool)
    ensures nand.Valid() && !ok && nand.changed && !nand.full && nand.slot in nand.slotsDone && nand.zeroLost
  {
    nand := new Nand(1024, 64, 2048, 20, seq(1024, b => BlankRow(64)), {}, OnlyFails(1), _ => true);
    var saved := nand.WriteBbt();
    ok := nand.NandErase(0, 1);
  }

  /** The program of a table slot fails, and the next save programs the same slot and succeeds. */
  method TornSlot() returns (nand: Nand, first: bool, again: bool)
    ensures nand.Valid() && !first && again && !nand.changed && nand.slot == 62 && nand.ops == 2
  {
    nand := new Nand(1024, 64, 2048, 20, seq(1024, b => BlankRow(64)), {}, OnlyFails(0), _ => true);
    first := nand.WriteBbt();
    again := nand.WriteBbt();
  }

  /** The table is saved, block 1 moves, and the table is saved again: the page written reads back. After a
      restart loading reports success, and block 1 is looked up where it was. */
  method ReloadForgets(d: Page) returns (nand: Nand, ok: bool, ghost saved: seq<Item>, home: nat)
    ensures ok && nand.Geometry() && nand.Shape() && nand.maxPages == 64 && nand.cells != []
    ensures nand.PageShows(saved, nand.cells, 69, d) && nand.cells[0][62] == Data(Table(saved))
    ensures home == 1 != Resolve(saved, 1)
  {
    nand := new Nand(1024, 64, 2048, 20, seq(1024, b => BlankRow(64)), {}, OnlyFails(1), _ => true);
    ok := nand.WriteBbt();
    ok := MovesOne(nand, d);
    hide TableOk, Resolve, Failures, Reloaded, Nand.SlotsOk, Nand.ReadyRow, Nand.PageShows;
    saved := nand.items;
    var loaded, found := nand.LoadTable();
    OneFailure(1, nand.ops);
    ok := ok && loaded && found;
    ReloadedPadded([], saved, 1004, 1024);
    home := FindRealBlock(nand.items, 1, 0, 1004, 1024);
  }

  method MovesOne(nand: Nand, d: Page) returns (ok: bool)
    requires nand.Valid() && nand.TableReady() && !nand.changed && !nand.full && nand.items == [] && nand.marks == {}
    requires nand.maxBlocks == 1024 && nand.maxPages == 64 && nand.reserved == 20
    requires nand.ops == 1 && nand.works == OnlyFails(1) && nand.slot == 62
    requires BlankRun(nand.cells[1], 0, 64) && nand.cells[0][63] == Data(Table([]))
    modifies nand
    ensures nand.Valid() && nand.TableReady() && !nand.changed && !nand.full && nand.ops > 1 && nand.Faults() == 1 && ok
    ensures nand.cells[0][63] == Data(Table([])) && nand.cells[0][62] == Data(Table(nand.items))
    ensures Resolve(nand.items, 1) != 1 && nand.PageShows(nand.items, nand.cells, 69, d)
  {
    assert BlockOf(64, 69) == 1 && OffsetOf(64, 69) == 5;
    assert Resolve([], 1) == 1;
    assert nand.PageBlank(nand.items, nand.cells, 69);
    assert nand.SpareLeft([], {}) by {
      assert 1023 !in nand.marks;
    }
    var data := [d];
    ok := nand.Write(69, data);
    OneFailure(1, nand.ops);
    FirstShows(nand, 69, data);
    assert nand.Programs(1, 5, d);
    assert nand.FailsAt(1, 5, data, 1, 0);
    assert nand.Moved([], nand.items, 1);
    var again := nand.WriteBbt();
    OneFailure(1, nand.ops);
    ok := ok && again;
  }
}
