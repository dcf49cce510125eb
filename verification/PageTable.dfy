/**
 The pages of a heap as objects, in chain order, and the cells they show. Changing one page
 leaves what the others show.
 */
module PageTables {
  import opened SlottedPage
  import opened SlottedOps
  import opened CellPage
  import opened TablePages
  import opened HeapUndo
  import PageSteps

  ghost function Buffers(table: seq<TablePage>): set<object> {
    set t | t in table :: t.data
  }

  ghost predicate Separate(table: seq<TablePage>) {
    forall i, j :: 0 <= i < j < |table| ==> table[i] != table[j] && table[i].data != table[j].data
  }

  ghost predicate ShowsAt(table: seq<TablePage>, h: Heap, i: nat)
    requires i < |table| == |h|
    reads table[i], table[i].data
  {
    table[i].Valid() && table[i].Contents() == h[i]
  }

  ghost predicate Shows(table: seq<TablePage>, h: Heap)
    reads table, Buffers(table)
  {
    && |table| == |h| && Separate(table)
    && forall i {:trigger ShowsAt(table, h, i)} :: 0 <= i < |table| ==> ShowsAt(table, h, i)
  }

  // What an insert attempt leaves on a page.
  function Offered(cs: seq<Cell>, bytes: seq<byte>): seq<Cell> {
    if Accepts(cs, |bytes|) then Put(cs, bytes) else cs
  }

  method InsertOn(page: TablePage, bytes: seq<byte>, ghost table: seq<TablePage>, ghost h: Heap, ghost i: nat)
    returns (ok: bool, slot: nat)
    requires Shows(table, h) && bytes != [] && i < |table| && table[i] == page
    modifies page, page.data
    ensures Shows(table, h[i := Offered(h[i], bytes)])
    ensures ok == Accepts(h[i], |bytes|) && (ok ==> slot == FirstFree(h[i]))
  {
    assert ShowsAt(table, h, i);
    ghost var g := h[i := Offered(h[i], bytes)];
    ok, slot := page.InsertTuple(bytes);
    forall j | 0 <= j < |table| ensures ShowsAt(table, g, j) {
      assert old(ShowsAt(table, h, j));
    }
  }

  method MarkDeleteOn(page: TablePage, slot: nat, ghost table: seq<TablePage>, ghost h: Heap, ghost i: nat)
    requires Shows(table, h) && i < |table| && table[i] == page
    modifies page, page.data
    ensures Shows(table, h[i := Delete(h[i], slot)])
  {
    assert ShowsAt(table, h, i);
    ghost var g := h[i := Delete(h[i], slot)];
    var ok := page.MarkDelete(slot);
    forall j | 0 <= j < |table| ensures ShowsAt(table, g, j) {
      assert old(ShowsAt(table, h, j));
    }
  }

  method RollbackDeleteOn(page: TablePage, slot: nat, ghost table: seq<TablePage>, ghost h: Heap, ghost i: nat)
    requires Shows(table, h) && i < |table| && table[i] == page && slot < |h[i]|
    modifies page, page.data
    ensures Shows(table, h[i := Undelete(h[i], slot)])
  {
    assert ShowsAt(table, h, i);
    ghost var g := h[i := Undelete(h[i], slot)];
    page.RollbackDelete(slot);
    forall j | 0 <= j < |table| ensures ShowsAt(table, g, j) {
      assert old(ShowsAt(table, h, j));
    }
  }

  method ApplyDeleteOn(page: TablePage, slot: nat, ghost table: seq<TablePage>, ghost h: Heap, ghost i: nat)
    requires Shows(table, h) && i < |table| && table[i] == page && slot < |h[i]| && !h[i][slot].Empty?
    modifies page, page.data
    ensures Shows(table, h[i := h[i][slot := Empty]])
  {
    assert ShowsAt(table, h, i);
    ghost var g := h[i := h[i][slot := Empty]];
    page.ApplyDelete(slot);
    forall j | 0 <= j < |table| ensures ShowsAt(table, g, j) {
      assert old(ShowsAt(table, h, j));
    }
  }

  method UpdateOn(page: TablePage, slot: nat, bytes: seq<byte>, ghost table: seq<TablePage>, ghost h: Heap,
      ghost i: nat)
    returns (ok: bool, was: seq<byte>)
    requires Shows(table, h) && i < |table| && table[i] == page && bytes != []
    modifies page, page.data
    ensures ok == CanReplace(h[i], slot, |bytes|) && (ok ==> was == h[i][slot].bytes)
    ensures KeepsLayout(h[i], slot, |bytes|) ==> Shows(table, UpdateCell(h, Rid(i, slot), bytes))
  {
    assert ShowsAt(table, h, i);
    ghost var g := UpdateCell(h, Rid(i, slot), bytes);
    if CanReplace(h[i], slot, |bytes|) && forall k :: 0 <= k < |h[i]| ==> !h[i][k].Marked? {
      PageSteps.NoneMarked(page.page, slot);
    }
    ok, was := page.UpdateTuple(slot, bytes);
    if KeepsLayout(h[i], slot, |bytes|) {
      forall j | 0 <= j < |table| ensures ShowsAt(table, g, j) {
        assert old(ShowsAt(table, h, j));
      }
    }
  }

  // What pages show has bytes in every tuple and fits.
  lemma ShownSolid(table: seq<TablePage>, h: Heap)
    requires Shows(table, h)
    ensures SolidHeap(h) && Roomy(h)
  {
    forall i | 0 <= i < |h| ensures Room(h[i]) >= 0 {
      assert ShowsAt(table, h, i);
      CellsDecide(table[i].page);
    }
    forall i, k | 0 <= i < |h| && 0 <= k < |h[i]| ensures Solid(h[i][k]) {
      assert ShowsAt(table, h, i);
      CellKinds(table[i].page, k);
    }
  }
}
