/**
drivers/nand/comip_nand.c: the bad-block relocation table. Entries are only ever
appended; a block that fails while it already stands in for another is
relocated again, so lookups follow chains.
 */
module Relocation {

  /** struct reloc_item. */
  datatype Item = Item(from: nat, to: nat)

  /** The block that finally holds `block`: every entry in order moves it on. */
  function Resolve(items: seq<Item>, block: nat): nat
  {
    if items == [] then block else
      var last := items[|items| - 1];
      var b := Resolve(items[..|items| - 1], block);
      if last.from == b then last.to else b
  }

  predicate IsFrom(items: seq<Item>, b: nat) { exists i :: 0 <= i < |items| && items[i].from == b }
  predicate IsTo(items: seq<Item>, b: nat) { exists i :: 0 <= i < |items| && items[i].to == b }

  /** What every reachable table satisfies: blocks [lo, hi) are the reserved area. */
  ghost predicate TableOk(items: seq<Item>, lo: nat, hi: nat)
  {
    && lo <= hi
    && (forall i :: 0 <= i < |items| ==> lo <= items[i].to < hi)
    && (forall i, j :: 0 <= i < j < |items| ==> items[i].to > items[j].to)
    && (forall i, j :: 0 <= i < j < |items| ==> items[i].from != items[j].from)
    && (forall j :: 0 <= j < |items| ==> items[j].from < lo || IsTo(items[..j], items[j].from))
  }

  lemma TableOkPrefix(items: seq<Item>, lo: nat, hi: nat, k: nat)
    requires TableOk(items, lo, hi) && k <= |items|
    ensures TableOk(items[..k], lo, hi)
  {
    forall j | 0 <= j < k
      ensures items[..k][j].from < lo || IsTo(items[..k][..j], items[..k][j].from)
    {
      assert items[..k][..j] == items[..j];
    }
  }

  /** A `to` that is relocated again is so only by a later entry. */
  lemma LaterFrom(items: seq<Item>, lo: nat, hi: nat, i: nat, j: nat)
    requires TableOk(items, lo, hi) && i < |items| && j < |items|
    requires items[j].from == items[i].to
    ensures i < j
  {
    assert lo <= items[i].to;
    var k :| 0 <= k < j && items[..j][k].to == items[j].from;
    assert items[k].to == items[i].to;
  }

  /** The reserved area bounds the table: total <= gmax_reloc_entry. */
  lemma {:induction false} TableBounded(items: seq<Item>, lo: nat, hi: nat)
    requires TableOk(items, lo, hi)
    ensures |items| <= hi - lo
    ensures items != [] ==> items[|items| - 1].to <= hi - |items|
  {
    if items != [] {
      var k := |items| - 1;
      TableOkPrefix(items, lo, hi, k);
      TableBounded(items[..k], lo, hi);
      assert lo <= items[k].to < hi;
      if k > 0 {
        assert items[..k][k - 1].to == items[k - 1].to > items[k].to;
      }
    }
  }

  lemma {:induction false} Unmoved(items: seq<Item>, b: nat)
    requires !IsFrom(items, b)
    ensures Resolve(items, b) == b
  {
    if items != [] {
      var k := |items| - 1;
      assert items[k].from != b;
      assert forall i :: 0 <= i < k ==> items[..k][i].from == items[i].from;
      Unmoved(items[..k], b);
    }
  }

  lemma {:induction false} SameFrom(items: seq<Item>, a: nat, b: nat, k: nat)
    requires k <= |items| && Resolve(items[..k], a) == Resolve(items[..k], b)
    ensures Resolve(items, a) == Resolve(items, b)
    decreases |items|
  {
    if k < |items| {
      var n := |items| - 1;
      assert items[..n][..k] == items[..k];
      SameFrom(items[..n], a, b, k);
    } else {
      assert items[..k] == items;
    }
  }

  /** Following one matching entry does not change where the chain ends. */
  lemma FollowEntry(items: seq<Item>, lo: nat, hi: nat, i: nat)
    requires TableOk(items, lo, hi) && i < |items|
    ensures Resolve(items, items[i].from) == Resolve(items, items[i].to)
  {
    var a, b := items[i].from, items[i].to;
    assert !IsFrom(items[..i], a);
    Unmoved(items[..i], a);
    assert items[..i + 1][..i] == items[..i];
    if IsFrom(items[..i + 1], b) {
      var j :| 0 <= j < i + 1 && items[..i + 1][j].from == b;
      LaterFrom(items, lo, hi, i, j);
    }
    Unmoved(items[..i + 1], b);
    SameFrom(items, a, b, i + 1);
  }

  /** Where a block ends up: itself, or the target of an entry. */
  lemma {:induction false} ResolveLands(items: seq<Item>, b: nat)
    ensures Resolve(items, b) == b || IsTo(items, Resolve(items, b))
  {
    if items != [] {
      var k := |items| - 1;
      ResolveLands(items[..k], b);
      if items[k].from == Resolve(items[..k], b) {
        assert items[k].to == Resolve(items, b);
      } else if Resolve(items[..k], b) != b {
        var i :| 0 <= i < k && items[..k][i].to == Resolve(items[..k], b);
        assert items[i].to == Resolve(items, b);
      }
    }
  }

  /** The end of a chain is not itself relocated. */
  lemma {:induction false} ResolveEnds(items: seq<Item>, lo: nat, hi: nat, b: nat)
    requires TableOk(items, lo, hi)
    ensures !IsFrom(items, Resolve(items, b))
  {
    if items != [] {
      var k := |items| - 1;
      TableOkPrefix(items, lo, hi, k);
      ResolveEnds(items[..k], lo, hi, b);
      var r := Resolve(items, b);
      forall j | 0 <= j < |items|
        ensures items[j].from != r
      {
        if j < k {
          assert items[..k][j].from == items[j].from;
        }
        if items[k].from == Resolve(items[..k], b) && items[j].from == r {
          LaterFrom(items, lo, hi, k, j);
        }
      }
    }
  }

  /** n entries lead from a to b, one after the other, in any order of the table. */
  ghost predicate Leads(items: seq<Item>, a: nat, b: nat, n: nat)
    decreases n
  {
    if n == 0 then a == b
    else exists i :: 0 <= i < |items| && items[i].from == a && Leads(items, items[i].to, b, n - 1)
  }

  lemma {:induction false} LeadsResolve(items: seq<Item>, lo: nat, hi: nat, a: nat, b: nat, n: nat)
    requires TableOk(items, lo, hi) && Leads(items, a, b, n)
    ensures Resolve(items, a) == Resolve(items, b)
    decreases n
  {
    if n != 0 {
      var i :| 0 <= i < |items| && items[i].from == a && Leads(items, items[i].to, b, n - 1);
      FollowEntry(items, lo, hi, i);
      LeadsResolve(items, lo, hi, items[i].to, b, n - 1);
    }
  }

  lemma {:induction false} LeadsExtend(items: seq<Item>, k: nat, a: nat, b: nat, n: nat)
    requires k <= |items| && Leads(items[..k], a, b, n)
    ensures Leads(items, a, b, n)
    decreases n
  {
    if n != 0 {
      var i :| 0 <= i < k && items[..k][i].from == a && Leads(items[..k], items[..k][i].to, b, n - 1);
      LeadsExtend(items, k, items[i].to, b, n - 1);
    }
  }

  lemma {:induction false} LeadsOneMore(items: seq<Item>, a: nat, b: nat, n: nat, i: nat)
    requires i < |items| && Leads(items, a, b, n) && items[i].from == b
    ensures Leads(items, a, items[i].to, n + 1)
    decreases n
  {
    if n == 0 {
      assert Leads(items, items[i].to, items[i].to, 0);
    } else {
      var j :| 0 <= j < |items| && items[j].from == a && Leads(items, items[j].to, b, n - 1);
      LeadsOneMore(items, items[j].to, b, n - 1, i);
    }
  }

  lemma {:induction false} ChainExists(items: seq<Item>, a: nat) returns (n: nat)
    ensures Leads(items, a, Resolve(items, a), n)
  {
    if items == [] {
      n := 0;
    } else {
      var k := |items| - 1;
      n := ChainExists(items[..k], a);
      var r := Resolve(items[..k], a);
      LeadsExtend(items, k, a, r, n);
      if items[k].from == r {
        LeadsOneMore(items, a, r, n, k);
        n := n + 1;
      }
    }
  }

  /** Lookup gives the one block at which following entries stops. */
  lemma ChainEnd(items: seq<Item>, lo: nat, hi: nat, a: nat, b: nat)
    requires TableOk(items, lo, hi)
    ensures b == Resolve(items, a) <==> !IsFrom(items, b) && exists n: nat :: Leads(items, a, b, n)
  {
    var n := ChainExists(items, a);
    ResolveEnds(items, lo, hi, a);
    assert b == Resolve(items, a) ==> Leads(items, a, b, n);
    if !IsFrom(items, b) && exists m: nat :: Leads(items, a, b, m) {
      var m: nat :| Leads(items, a, b, m);
      LeadsResolve(items, lo, hi, a, b, m);
      Unmoved(items, b);
    }
  }

  /** Two logical blocks never share a physical block. */
  lemma {:induction false} ResolveInjective(items: seq<Item>, lo: nat, hi: nat, a: nat, b: nat)
    requires TableOk(items, lo, hi) && a < lo && b < lo
    requires Resolve(items, a) == Resolve(items, b)
    ensures a == b
  {
    if items != [] {
      var k := |items| - 1;
      TableOkPrefix(items, lo, hi, k);
      if Resolve(items[..k], a) == Resolve(items[..k], b) {
        ResolveInjective(items[..k], lo, hi, a, b);
      } else {
        FreshTarget(items, lo, hi, a);
        FreshTarget(items, lo, hi, b);
      }
    }
  }

  /** No logical block had reached the target of the last entry before it was added. */
  lemma FreshTarget(items: seq<Item>, lo: nat, hi: nat, b: nat)
    requires TableOk(items, lo, hi) && items != [] && b < lo
    ensures Resolve(items[..|items| - 1], b) != items[|items| - 1].to
  {
    var k := |items| - 1;
    ResolveLands(items[..k], b);
    if IsTo(items[..k], Resolve(items[..k], b)) {
      var i :| 0 <= i < k && items[..k][i].to == Resolve(items[..k], b);
      assert items[i].to > items[k].to;
    } else {
      assert lo <= items[k].to;
    }
  }

  /** Appending a relocation of a chain end to a fresh lower block keeps the table well formed. */
  lemma TableOkAppend(items: seq<Item>, lo: nat, hi: nat, from: nat, to: nat)
    requires TableOk(items, lo, hi)
    requires !IsFrom(items, from) && (from < lo || IsTo(items, from))
    requires lo <= to < hi && (items != [] ==> to < items[|items| - 1].to)
    ensures TableOk(items + [Item(from, to)], lo, hi)
  {
    var k := |items|;
    var longer := items + [Item(from, to)];
    forall j | 0 <= j <= k
      ensures longer[j].from < lo || IsTo(longer[..j], longer[j].from)
    {
      assert longer[..j] == items[..j];
      assert items[..k] == items;
    }
    forall i | 0 <= i < k
      ensures longer[i].to > to
    {
      assert items[i].to >= items[k - 1].to;
    }
    forall i | 0 <= i < k
      ensures longer[i].from != from
    {
      assert items[i].from != from;
    }
  }

  /** A relocation moves exactly the block whose chain ended at `from`. */
  lemma ResolveAppend(items: seq<Item>, from: nat, to: nat, b: nat)
    ensures Resolve(items + [Item(from, to)], b)
         == if Resolve(items, b) == from then to else Resolve(items, b)
  {
    assert (items + [Item(from, to)])[..|items|] == items;
  }

  /** An entry of a page that was never filled in. */
  const FILL: Item := Item(0xffff, 0xffff)

  /** The first n entries make a table; the others are not filled in. */
  ghost predicate Padded(items: seq<Item>, n: nat, lo: nat, hi: nat)
  {
    && n <= |items| && TableOk(items[..n], lo, hi)
    && (n < |items| ==> hi <= 0xffff)
    && forall i :: n <= i < |items| ==> items[i] == FILL
  }

  /** __nand_core_find_real_block. After a match the scan goes on at index 1, not 0
      (`i = 0; continue` still runs `i++`); entry 0 cannot match by then. */
  method FindRealBlock(items: seq<Item>, block: nat, ghost n: nat, ghost lo: nat, ghost hi: nat) returns (b: nat)
    requires Padded(items, n, lo, hi) && (n < |items| ==> block < hi)
    ensures b == Resolve(items[..n], block)
  {
    b := block;
    var i := 0;
    ghost var table, last := items[..n], -1;
    while i < |items|
      invariant 0 <= i && -1 <= last < n
      invariant Resolve(table, b) == Resolve(table, block)
      invariant last >= 0 ==> items[last].to == b
      invariant n < |items| ==> b < hi
      invariant forall j :: 0 <= j < i && j < |items| ==> items[j].from != b
      decreases n - last, |items| - i
    {
      if items[i].from == b {
        FollowEntry(table, lo, hi, i);
        if last >= 0 {
          LaterFrom(table, lo, hi, last, i);
        }
        b := items[i].to;
        last := i;
        if items[0].from == b {
          LaterFrom(table, lo, hi, i, 0);
        }
        i := 0;
      }
      i := i + 1;
    }
    assert !IsFrom(table, b);
    Unmoved(table, b);
  }

  // ------------------------------------------------------------ loading a saved table

  /** What __nand_core_load_bbt leaves in memory: the entries of the first table read, and of each
      further table only the fixed header with its total (comip_nand.c:1310). */
  function Reloaded(first: seq<Item>, total: nat): (items: seq<Item>)
    ensures |items| == total
  {
    seq(total, i => if 0 <= i < |first| then first[i] else FILL)
  }

  lemma {:induction false} FillResolves(items: seq<Item>, n: nat, b: nat)
    requires n <= |items| && forall i :: n <= i < |items| ==> items[i] == FILL
    ensures Resolve(items, b) == Resolve(items[..n], b)
    decreases |items|
  {
    if n < |items| {
      var k := |items| - 1;
      assert items[..k][..n] == items[..n];
      FillResolves(items[..k], n, b);
    } else {
      assert items[..n] == items;
    }
  }

  lemma ReloadedPadded(first: seq<Item>, items: seq<Item>, lo: nat, hi: nat)
    requires TableOk(items, lo, hi) && first <= items && hi <= 0xffff
    ensures Padded(Reloaded(first, |items|), |first|, lo, hi) && Reloaded(first, |items|)[..|first|] == first
    ensures first == items ==> Reloaded(first, |items|) == items
  {
    assert Reloaded(first, |items|)[..|first|] == first == items[..|first|];
    TableOkPrefix(items, lo, hi, |first|);
  }

  /** The table in force is the loaded one exactly if it has not grown since the first of the tables was
      saved: otherwise some logical block is looked up where it no longer is. */
  lemma ReloadExact(first: seq<Item>, items: seq<Item>, lo: nat, hi: nat)
    requires TableOk(items, lo, hi) && first <= items
    ensures (forall b: nat :: b < lo ==> Resolve(Reloaded(first, |items|), b) == Resolve(items, b)) <==> first == items
  {
    var loaded, n := Reloaded(first, |items|), |first|;
    assert loaded[..n] == first == items[..n];
    if n < |items| {
      var r := Root(items, lo, hi, n);
      FillResolves(loaded, n, r);
      Forgotten(items, lo, hi, n, r);
    } else {
      assert loaded == items;
    }
  }

  /** A block whose chain goes on at entry n is not yet where it ends after the first n entries. */
  lemma Forgotten(items: seq<Item>, lo: nat, hi: nat, n: nat, r: nat)
    requires TableOk(items, lo, hi) && n < |items| && r < lo && Resolve(items, r) == Resolve(items, items[n].to)
    ensures Resolve(items[..n], r) != Resolve(items, r)
  {
    LateEnd(items, lo, hi, n);
    ResolveLands(items[..n], r);
    if IsTo(items[..n], Resolve(items[..n], r)) {
      var i :| 0 <= i < n && items[..n][i].to == Resolve(items[..n], r);
      assert items[i].to > items[n].to;
    }
  }

  lemma {:induction false} LateEnd(items: seq<Item>, lo: nat, hi: nat, n: nat)
    requires TableOk(items, lo, hi) && n < |items|
    ensures lo <= Resolve(items, items[n].to) <= items[n].to
    decreases |items|
  {
    var k := |items| - 1;
    if n < k {
      TableOkPrefix(items, lo, hi, k);
      LateEnd(items[..k], lo, hi, n);
    } else {
      if IsFrom(items, items[n].to) {
        var j :| 0 <= j < |items| && items[j].from == items[n].to;
        LaterFrom(items, lo, hi, n, j);
      }
      Unmoved(items, items[n].to);
    }
  }

  // ------------------------------------------------------------ narrowing the area

  /** Every relocated-to block stands in for some block below the reserved area. */
  lemma {:induction false} Root(items: seq<Item>, lo: nat, hi: nat, i: nat) returns (r: nat)
    requires TableOk(items, lo, hi) && i < |items|
    ensures r < lo && Resolve(items, r) == Resolve(items, items[i].to)
    decreases i
  {
    FollowEntry(items, lo, hi, i);
    r := items[i].from;
    if r >= lo {
      var k :| 0 <= k < i && items[..i][k].to == r;
      r := Root(items, lo, hi, k);
    }
  }

  /** __nand_core_load_bbt builds the first table with the default reserve and only then
      narrows it (comip_nand.c:1322-1326). Lookups stay injective on the blocks below the
      narrower area exactly when the table has not reached below it. */
  lemma NarrowedInjective(items: seq<Item>, wide: nat, narrow: nat, hi: nat)
    requires TableOk(items, wide, hi) && wide <= narrow <= hi
    ensures (forall a: nat, b: nat :: a < narrow && b < narrow && Resolve(items, a) == Resolve(items, b) ==> a == b)
       <==> (items == [] || items[|items| - 1].to >= narrow)
    ensures TableOk(items, narrow, hi) <==> (items == [] || items[|items| - 1].to >= narrow)
  {
    var k := |items| - 1;
    if items == [] || items[k].to >= narrow {
      assert forall i :: 0 <= i < |items| ==> items[i].to >= items[k].to;
      assert TableOk(items, narrow, hi);
      forall a: nat, b: nat | a < narrow && b < narrow && Resolve(items, a) == Resolve(items, b)
        ensures a == b
      {
        ResolveInjective(items, narrow, hi, a, b);
      }
    } else {
      var r := Root(items, wide, hi, k);
      assert Resolve(items, r) == Resolve(items, items[k].to) && r < wide <= items[k].to < narrow;
    }
  }

  /** 1024 blocks, the last twenty of them marked bad: with the default reserve of 127 the bad block 1
      moves to block 1003, which is an ordinary block once the reserve is narrowed to twenty. */
  lemma NarrowingCollides()
    ensures var items, wide, narrow := [Item(1, 1003)], 1024 - 127, 1024 - 1024 * 2 / 100;
            && TableOk(items, wide, 1024) && 1003 < narrow
            && Resolve(items, 1) == Resolve(items, 1003) == 1003
  {
    var items := [Item(1, 1003)];
    assert items[..0] == [];
    FollowEntry(items, 1024 - 127, 1024, 0);
  }
}
