/**
 The table heap: table pages chained by their next page ids, found by page id, changed in place.
 The ghost heap lists the cells of the pages in chain order.
 */
module TableHeaps {
  import opened SlottedPage
  import opened CellPage
  import opened TablePages
  import opened HeapUndo
  import opened PageTables

  const INVALID_PAGE_ID := -1

  datatype RID = RID(pageId: int, slot: nat)
  datatype TransactionState = GROWING | COMMITTED | ABORTED
  datatype WriteItem = InsertItem(rid: RID) | DeleteItem(rid: RID) | UpdateItem(rid: RID, was: seq<byte>)

  class Transaction {
    var state: TransactionState
    var writeSet: seq<WriteItem>

    constructor ()
      ensures state == GROWING && writeSet == []
    {
      state := GROWING;
      writeSet := [];
    }
  }

  // Position of a page in the chain.
  function Position(chain: seq<int>, pid: int): (i: nat)
    ensures i <= |chain| && (pid in chain <==> i < |chain|)
    ensures i < |chain| ==> chain[i] == pid
  {
    if chain == [] || chain[0] == pid then 0 else 1 + Position(chain[1..], pid)
  }

  function At(chain: seq<int>, rid: RID): Rid {
    Rid(Position(chain, rid.pageId), rid.slot)
  }

  function RecordOf(chain: seq<int>, w: WriteItem): WriteRecord {
    match w
    case InsertItem(r) => Inserted(At(chain, r))
    case DeleteItem(r) => Deleted(At(chain, r))
    case UpdateItem(r, was) => Updated(At(chain, r), was)
  }

  ghost predicate Distinct(chain: seq<int>) {
    forall i, j :: 0 <= i < j < |chain| ==> chain[i] != chain[j]
  }

  predicate AddsPage(h: Heap, op: HeapOp) {
    op.Insert? && !TooLarge(op.bytes) && FirstFit(h, |op.bytes|) == |h|
  }

  function NextChain(chain: seq<int>, next: int, h: Heap, op: HeapOp): seq<int> {
    if AddsPage(h, op) then chain + [next] else chain
  }

  function NextId(next: int, h: Heap, op: HeapOp): int {
    if AddsPage(h, op) then next + 1 else next
  }

  lemma PositionOf(chain: seq<int>, i: nat)
    requires Distinct(chain) && i < |chain|
    ensures Position(chain, chain[i]) == i
  {}

  class TableHeap {
    const firstPageId: int
    var pages: map<int, TablePage>
    var next: map<int, int>
    var nextPageId: int
    ghost var chain: seq<int>
    ghost var table: seq<TablePage>
    ghost var heap: Heap

    // Page i of the chain is stored under its id and names its successor.
    ghost predicate Link(i: nat)
      requires i < |chain| == |table|
      reads this`pages, this`next, this`nextPageId, this`chain, this`table
    {
      && chain[i] in pages && chain[i] in next && 0 <= chain[i] < nextPageId
      && next[chain[i]] == (if i + 1 < |chain| then chain[i + 1] else INVALID_PAGE_ID)
      && pages[chain[i]] == table[i]
    }

    ghost predicate Chained()
      reads this`pages, this`next, this`nextPageId, this`chain, this`table
    {
      && |chain| == |table| && chain != [] && chain[0] == firstPageId && Distinct(chain) && 0 <= nextPageId
      && (forall i {:trigger Link(i)} :: 0 <= i < |chain| ==> Link(i))
      && (forall p :: p in pages ==> p in chain)
    }

    ghost predicate Valid()
      reads this, table, Buffers(table)
    {
      Chained() && Shows(table, heap)
    }

    // A new heap has one empty page.
    constructor ()
      ensures Valid() && heap == [[]] && fresh(table) && fresh(Buffers(table))
    {
      var page := new TablePage();
      firstPageId := 0;
      pages := map[0 := page];
      next := map[0 := INVALID_PAGE_ID];
      nextPageId := 1;
      chain, table, heap := [0], [page], [[]];
      new;
      assert Link(0) && ShowsAt(table, heap, 0);
    }

    // Appends an empty page to the chain.
    method AppendPage(last: int) returns (pid: int)
      requires Valid() && last == chain[|chain| - 1]
      modifies this
      ensures Valid() && chain == old(chain) + [pid] && heap == old(heap) + [[]]
      ensures pid == old(nextPageId) && nextPageId == pid + 1
      ensures old(table) <= table && |table| == |old(table)| + 1 && fresh(table[|old(table)|]) &&
              fresh(table[|old(table)|].data)
    {
      ghost var c, t, h := chain, table, heap;
      forall i | 0 <= i < |c| ensures c[i] != nextPageId {
        assert Link(i);
      }
      var page := new TablePage();
      pid := nextPageId;
      nextPageId := nextPageId + 1;
      pages := pages[pid := page];
      next := next[last := pid][pid := INVALID_PAGE_ID];
      chain, table, heap := chain + [pid], table + [page], heap + [[]];
      forall i | 0 <= i < |chain| ensures Link(i) {
        assert i < |c| ==> old(Link(i));
      }
      forall i | 0 <= i < |table| ensures ShowsAt(table, heap, i) {
        assert i < |t| ==> old(ShowsAt(t, h, i));
      }
    }

    // First fit along the chain, with a new page behind the last one when none has room. No more
    // pages are tried than the chain has afterwards.
    method InsertTuple(bytes: seq<byte>, txn: Transaction) returns (ok: bool, rid: RID, ghost attempts: nat)
      requires Valid() && bytes != []
      modifies this, table, Buffers(table), txn
      ensures Valid() && heap == Do(old(heap), Insert(bytes)) && old(chain) <= chain
      ensures Grown() && ChainGrows(Insert(bytes))
      ensures ok == !TooLarge(bytes) && attempts <= |old(chain)| + 1
      ensures ok ==> txn.state == old(txn.state) && txn.writeSet == old(txn.writeSet) + [InsertItem(rid)]
      ensures ok ==> At(chain, rid) == InsertRid(old(heap), bytes)
      ensures ok ==> FirstWithRoom(old(heap), bytes, At(chain, rid).page)
      ensures !ok ==> txn.state == ABORTED && txn.writeSet == old(txn.writeSet)
    {
      rid, attempts := RID(INVALID_PAGE_ID, 0), 0;
      if |bytes| + 32 > PAGE_SIZE {
        txn.state := ABORTED;
        return false, rid, attempts;
      }
      FirstFitIff(heap, bytes);
      rid, attempts := Place(bytes);
      ok := true;
      txn.writeSet := txn.writeSet + [InsertItem(rid)];
    }

    // A page is appended exactly when an insert finds no room.
    twostate predicate ChainGrows(op: HeapOp)
      reads this
    {
      && chain == NextChain(old(chain), old(nextPageId), old(heap), op)
      && nextPageId == NextId(old(nextPageId), old(heap), op)
    }

    twostate predicate Grown()
      reads this
    {
      && |old(table)| <= |table| && old(table) <= table
      && forall i :: |old(table)| <= i < |table| ==> fresh(table[i]) && fresh(table[i].data)
    }

    method Attempt(pid: int, ghost i: nat, bytes: seq<byte>) returns (ok: bool, slot: nat)
      requires Valid() && bytes != [] && i < |chain| && chain[i] == pid
      modifies this`heap, table[i], table[i].data
      ensures Valid() && heap == old(heap)[i := Offered(old(heap)[i], bytes)]
      ensures ok == Accepts(old(heap)[i], |bytes|) && (ok ==> slot == FirstFree(old(heap)[i]))
    {
      assert Link(i);
      ok, slot := InsertOn(pages[pid], bytes, table, heap, i);
      heap := heap[i := Offered(heap[i], bytes)];
    }

    method Advance(pid: int, ghost i: nat) returns (q: int)
      requires Valid() && i < |chain| && chain[i] == pid
      modifies this
      ensures Valid() && Grown() && i + 1 < |chain| && chain[i + 1] == q
      ensures chain == if i + 1 < |old(chain)| then old(chain) else old(chain) + [q]
      ensures heap == if i + 1 < |old(chain)| then old(heap) else old(heap) + [[]]
      ensures if i + 1 < |old(chain)| then nextPageId == old(nextPageId)
              else q == old(nextPageId) && nextPageId == q + 1
    {
      assert Link(i);
      if i + 1 < |chain| {
        assert Link(i + 1);
      }
      q := next[pid];
      if q == INVALID_PAGE_ID {
        q := AppendPage(pid);
      }
    }

    method Place(bytes: seq<byte>) returns (rid: RID, ghost attempts: nat)
      requires Valid() && bytes != [] && !TooLarge(bytes)
      modifies this, table, Buffers(table)
      ensures Valid() && heap == HeapUndo.InsertTuple(old(heap), bytes) && old(chain) <= chain && Grown()
      ensures ChainGrows(Insert(bytes))
      ensures At(chain, rid) == InsertRid(old(heap), bytes) && attempts <= |old(chain)| + 1
    {
      FreshPageAccepts(bytes);
      var pid := firstPageId;
      ghost var i: nat, h := 0, heap;
      attempts := 1;
      var ok, slot := Attempt(pid, i, bytes);
      while !ok
        invariant Valid() && Grown() && i < |chain| && chain[i] == pid && attempts == i + 1
        invariant forall j :: 0 <= j < i ==> j < |h| && !Accepts(h[j], |bytes|)
        invariant !ok ==> chain == old(chain) && nextPageId == old(nextPageId) && heap == h && !Accepts(h[i], |bytes|)
        invariant ok ==> ChainGrows(Insert(bytes))
        invariant ok ==> old(chain) <= chain && i == FirstFit(h, |bytes|) && heap == HeapUndo.InsertTuple(h, bytes)
        invariant ok ==> slot == InsertRid(h, bytes).slot
        decreases !ok, |chain| - i
      {
        pid := Advance(pid, i);
        i := i + 1;
        attempts := attempts + 1;
        ok, slot := Attempt(pid, i, bytes);
      }
      rid := RID(pid, slot);
      PositionOf(chain, i);
    }

    method MarkDelete(rid: RID, txn: Transaction)
      requires Valid() && rid.pageId in pages
      modifies this`heap, table, Buffers(table), txn`writeSet
      ensures Valid() && heap == Do(old(heap), HeapOp.MarkDelete(At(chain, rid)))
      ensures txn.writeSet == old(txn.writeSet) + [DeleteItem(rid)]
    {
      ghost var i := Position(chain, rid.pageId);
      assert Link(i);
      MarkDeleteOn(pages[rid.pageId], rid.slot, table, heap, i);
      heap := heap[i := Delete(heap[i], rid.slot)];
      txn.writeSet := txn.writeSet + [DeleteItem(rid)];
    }

    // The old tuple is recorded unless the transaction is being rolled back.
    method UpdateTuple(bytes: seq<byte>, rid: RID, txn: Transaction) returns (ok: bool)
      requires Valid() && rid.pageId in pages && bytes != []
      modifies this`heap, table, Buffers(table), txn`writeSet
      ensures ok == Updates(old(heap), Update(At(chain, rid), bytes))
      ensures KeepsLayout(old(heap)[At(chain, rid).page], rid.slot, |bytes|) ==>
                Valid() && heap == Do(old(heap), Update(At(chain, rid), bytes))
      ensures ok && txn.state != ABORTED ==>
                txn.writeSet == old(txn.writeSet) + [UpdateItem(rid, old(heap)[At(chain, rid).page][rid.slot].bytes)]
      ensures !ok || txn.state == ABORTED ==> txn.writeSet == old(txn.writeSet)
    {
      ghost var r := At(chain, rid);
      assert Link(r.page);
      var was;
      ok, was := UpdateOn(pages[rid.pageId], rid.slot, bytes, table, heap, r.page);
      heap := UpdateCell(heap, r, bytes);
      if ok && txn.state != ABORTED {
        txn.writeSet := txn.writeSet + [UpdateItem(rid, was)];
      }
    }

    method ApplyDelete(rid: RID)
      requires Valid() && rid.pageId in pages
      requires var r := At(chain, rid); r.slot < |heap[r.page]| && !heap[r.page][r.slot].Empty?
      modifies this`heap, table, Buffers(table)
      ensures Valid() && heap == Undo(old(heap), Inserted(At(chain, rid)))
    {
      ghost var r := At(chain, rid);
      assert Link(r.page);
      ApplyDeleteOn(pages[rid.pageId], rid.slot, table, heap, r.page);
      heap := heap[r.page := heap[r.page][r.slot := Empty]];
    }

    method RollbackDelete(rid: RID)
      requires Valid() && rid.pageId in pages && rid.slot < |heap[At(chain, rid).page]|
      modifies this`heap, table, Buffers(table)
      ensures Valid() && heap == Undo(old(heap), Deleted(At(chain, rid)))
    {
      ghost var r := At(chain, rid);
      assert Link(r.page);
      RollbackDeleteOn(pages[rid.pageId], rid.slot, table, heap, r.page);
      heap := heap[r.page := Undelete(heap[r.page], r.slot)];
    }

    method GetTuple(rid: RID) returns (ok: bool, bytes: seq<byte>)
      requires Valid() && rid.pageId in pages
      ensures var cs := heap[At(chain, rid).page];
              && ok == (rid.slot < |cs| && cs[rid.slot].Live?)
              && (ok ==> bytes == cs[rid.slot].bytes)
    {
      ghost var r := At(chain, rid);
      assert Link(r.page) && ShowsAt(table, heap, r.page);
      ok, bytes := pages[rid.pageId].GetTuple(rid.slot);
    }
  }
}
