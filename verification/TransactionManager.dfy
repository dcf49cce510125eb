/**
 Commit and abort of one transaction on one heap: loops that empty the write set from the back.
 */
module TransactionManager {
  import opened SlottedPage
  import opened CellPage
  import opened PageTables
  import opened TableHeaps
  import U = HeapUndo
  import A = HeapAbort
  import R = HeapRoom
  import C = HeapCommit

  // The write set in terms of chain positions.
  ghost function Records(chain: seq<int>, ws: seq<WriteItem>): (rs: seq<U.WriteRecord>)
    ensures |rs| == |ws|
  {
    seq(|ws|, i requires 0 <= i < |ws| => RecordOf(chain, ws[i]))
  }

  method Abort(txn: Transaction, table: TableHeap)
    requires table.Valid() && U.CanUndoAll(table.heap, Records(table.chain, txn.writeSet))
    modifies txn, table`heap, table.table, Buffers(table.table)
    ensures table.Valid() && txn.state == ABORTED && txn.writeSet == []
    ensures table.heap == U.UndoAll(old(table.heap), Records(table.chain, old(txn.writeSet)))
  {
    txn.state := ABORTED;
    ghost var ws, all := txn.writeSet, Records(table.chain, txn.writeSet);
    while txn.writeSet != []
      invariant table.Valid() && txn.state == ABORTED && txn.writeSet <= ws
      invariant U.CanUndoFirst(table.heap, all, |txn.writeSet|)
      invariant U.UndoFirst(table.heap, all, |txn.writeSet|) == U.UndoAll(old(table.heap), all)
      decreases |txn.writeSet|
    {
      UndoLast(txn, table, ws, all);
    }
  }

  method UndoLast(txn: Transaction, table: TableHeap, ghost ws: seq<WriteItem>, ghost all: seq<U.WriteRecord>)
    requires table.Valid() && txn.state == ABORTED && [] < txn.writeSet <= ws && all == Records(table.chain, ws)
    requires U.CanUndoFirst(table.heap, all, |txn.writeSet|)
    modifies txn`writeSet, table`heap, table.table, Buffers(table.table)
    ensures table.Valid() && txn.writeSet == old(txn.writeSet)[..|old(txn.writeSet)| - 1]
    ensures U.CanUndoFirst(table.heap, all, |txn.writeSet|)
    ensures U.UndoFirst(table.heap, all, |txn.writeSet|) == old(U.UndoFirst(table.heap, all, |txn.writeSet|))
  {
    var n := |txn.writeSet| - 1;
    var item := txn.writeSet[n];
    assert all[n] == RecordOf(table.chain, item);
    RollBack(item, txn, table);
    txn.writeSet := txn.writeSet[..n];
  }

  // Undoing one record never adds one.
  method RollBack(item: WriteItem, txn: Transaction, table: TableHeap)
    requires table.Valid() && txn.state == ABORTED && U.CanUndo(table.heap, RecordOf(table.chain, item))
    modifies txn`writeSet, table`heap, table.table, Buffers(table.table)
    ensures table.Valid() && table.heap == U.Undo(old(table.heap), RecordOf(table.chain, item))
    ensures txn.writeSet == old(txn.writeSet)
  {
    assert table.Link(Position(table.chain, item.rid.pageId));
    match item
    case DeleteItem(rid) =>
      table.RollbackDelete(rid);
    case InsertItem(rid) =>
      table.ApplyDelete(rid);
    case UpdateItem(rid, was) =>
      var ok := table.UpdateTuple(was, rid, txn);
  }

  method Settle(item: WriteItem, table: TableHeap)
    requires table.Valid() && C.CanPurge(table.heap, RecordOf(table.chain, item))
    modifies table`heap, table.table, Buffers(table.table)
    ensures table.Valid() && table.heap == C.Purge(old(table.heap), RecordOf(table.chain, item))
  {
    if item.DeleteItem? {
      assert table.Link(Position(table.chain, item.rid.pageId));
      table.ApplyDelete(item.rid);
    }
  }

  method Commit(txn: Transaction, table: TableHeap)
    requires table.Valid() && C.CanPurgeAll(table.heap, Records(table.chain, txn.writeSet))
    modifies txn, table`heap, table.table, Buffers(table.table)
    ensures table.Valid() && txn.state == COMMITTED && txn.writeSet == []
    ensures table.heap == C.PurgeAll(old(table.heap), Records(table.chain, old(txn.writeSet)))
  {
    txn.state := COMMITTED;
    ghost var ws, all := txn.writeSet, Records(table.chain, txn.writeSet);
    while txn.writeSet != []
      invariant table.Valid() && txn.state == COMMITTED && txn.writeSet <= ws
      invariant C.CanPurgeFirst(table.heap, all, |txn.writeSet|)
      invariant C.PurgeFirst(table.heap, all, |txn.writeSet|) == C.PurgeAll(old(table.heap), all)
      decreases |txn.writeSet|
    {
      var n := |txn.writeSet| - 1;
      var item := txn.writeSet[n];
      assert all[n] == RecordOf(table.chain, item);
      Settle(item, table);
      txn.writeSet := txn.writeSet[..n];
    }
  }

  // --- a transaction from its first operation to its end ---

  datatype Request = InsertTuple(bytes: seq<byte>) | DeleteTuple(rid: RID) | ChangeTuple(rid: RID, bytes: seq<byte>)

  ghost function OpOf(chain: seq<int>, r: Request): U.HeapOp {
    match r
    case InsertTuple(b) => U.Insert(b)
    case DeleteTuple(rid) => U.MarkDelete(At(chain, rid))
    case ChangeTuple(rid, b) => U.Update(At(chain, rid), b)
  }

  // Heap, write set and state are what ops made of a heap that held start.
  ghost predicate Tracks(table: TableHeap, txn: Transaction, start: U.Heap, ops: seq<U.HeapOp>)
    reads table, txn
  {
    && table.heap == U.Final(start, ops)
    && Records(table.chain, txn.writeSet) == U.WriteSet(start, false, ops)
    && txn.state == (if U.AbortedBy(false, ops) then ABORTED else GROWING)
    && forall w :: w in txn.writeSet ==> w.rid.pageId in table.chain
  }

  lemma {:induction false} PositionStays(chain: seq<int>, longer: seq<int>, pid: int)
    requires chain <= longer && pid in chain
    ensures Position(longer, pid) == Position(chain, pid)
  {
    if chain[0] != pid {
      assert longer[1..][..|chain| - 1] == chain[1..];
      PositionStays(chain[1..], longer[1..], pid);
    }
  }

  lemma RecordsStay(chain: seq<int>, longer: seq<int>, ws: seq<WriteItem>)
    requires chain <= longer && forall w :: w in ws ==> w.rid.pageId in chain
    ensures Records(longer, ws) == Records(chain, ws)
  {
    forall i | 0 <= i < |ws| ensures RecordOf(longer, ws[i]) == RecordOf(chain, ws[i]) {
      PositionStays(chain, longer, ws[i].rid.pageId);
    }
  }

  // One more operation: the heap and the write set stay those of the run.
  lemma TracksMore(chain: seq<int>, longer: seq<int>, ws: seq<WriteItem>, more: seq<WriteItem>,
                   start: U.Heap, ops: seq<U.HeapOp>, op: U.HeapOp)
    requires chain <= longer && (forall w :: w in ws ==> w.rid.pageId in chain)
    requires Records(chain, ws) == U.WriteSet(start, false, ops)
    requires Records(longer, more) == U.Record(U.Final(start, ops), U.AbortedBy(false, ops), op)
    ensures Records(longer, ws + more) == U.WriteSet(start, false, ops + [op])
    ensures U.Final(start, ops + [op]) == U.Do(U.Final(start, ops), op)
    ensures U.AbortedBy(false, ops + [op]) == (U.AbortedBy(false, ops) || U.Fails(op))
  {
    U.RunAppend(start, false, ops, op);
    RecordsStay(chain, longer, ws);
    assert Records(longer, ws + more) == Records(longer, ws) + Records(longer, more);
    var all := ops + [op];
    if i :| 0 <= i < |ops| && U.Fails(ops[i]) {
      assert all[i] == ops[i];
    }
    assert all[|ops|] == op;
  }

  // Carries out one request; one that names an unknown page does nothing.
  method Perform(r: Request, txn: Transaction, table: TableHeap, ghost start: U.Heap, ghost ops: seq<U.HeapOp>)
    requires table.Valid() && Tracks(table, txn, start, ops) && U.Legal(table.heap, OpOf(table.chain, r))
    modifies table, table.table, Buffers(table.table), txn
    ensures table.Valid() && table.Grown() && table.ChainGrows(OpOf(old(table.chain), r))
    ensures Tracks(table, txn, start, ops + [OpOf(old(table.chain), r)])
    ensures table.heap == U.Do(old(table.heap), OpOf(old(table.chain), r))
  {
    ghost var chain, ws, op := table.chain, txn.writeSet, OpOf(table.chain, r);
    ghost var items := Carry(r, txn, table);
    TracksMore(chain, table.chain, ws, items, start, ops, op);
  }

  method Carry(r: Request, txn: Transaction, table: TableHeap) returns (ghost items: seq<WriteItem>)
    requires table.Valid() && txn.state != COMMITTED && U.Legal(table.heap, OpOf(table.chain, r))
    modifies table, table.table, Buffers(table.table), txn
    ensures table.Valid() && table.Grown() && table.ChainGrows(OpOf(old(table.chain), r))
    ensures table.heap == U.Do(old(table.heap), OpOf(old(table.chain), r))
    ensures txn.writeSet == old(txn.writeSet) + items && forall w :: w in items ==> w.rid.pageId in table.chain
    ensures Records(table.chain, items) == U.Record(
            old(table.heap), old(txn.state) == ABORTED, OpOf(old(table.chain), r))
    ensures txn.state == if U.Fails(OpOf(old(table.chain), r)) then ABORTED else old(txn.state)
  {
    items := [];
    match r {
      case InsertTuple(b) =>
        var ok, rid;
        ghost var attempts;
        ok, rid, attempts := table.InsertTuple(b, txn);
        items := if ok then [InsertItem(rid)] else [];
      case DeleteTuple(rid) =>
        if rid.pageId in table.pages {
          table.MarkDelete(rid, txn);
          items := [DeleteItem(rid)];
        } else {
          Unknown(table, rid.pageId);
        }
      case ChangeTuple(rid, b) =>
        if rid.pageId in table.pages {
          ghost var was := table.heap[At(table.chain, rid).page];
          var ok := table.UpdateTuple(b, rid, txn);
          items := if ok && txn.state != ABORTED then [UpdateItem(rid, was[rid.slot].bytes)] else [];
        } else {
          Unknown(table, rid.pageId);
        }
    }
  }

  lemma Unknown(table: TableHeap, pid: int)
    requires table.Valid() && pid !in table.pages
    ensures pid !in table.chain && Position(table.chain, pid) == |table.heap|
  {
    forall i | 0 <= i < |table.chain| ensures table.chain[i] != pid {
      assert table.Link(i);
    }
  }

  // The operations that a sequence of requests amounts to, from the n-th on.
  ghost function Plan(chain: seq<int>, next: int, h: U.Heap, rs: seq<Request>, n: nat): seq<U.HeapOp>
    requires n <= |rs|
    decreases |rs| - n
  {
    if n == |rs| then []
    else
      var op := OpOf(chain, rs[n]);
      [op] + Plan(NextChain(chain, next, h, op), NextId(next, h, op), U.Do(h, op), rs, n + 1)
  }

  lemma PlanStep(chain: seq<int>, next: int, h: U.Heap, rs: seq<Request>, n: nat, done: seq<U.HeapOp>)
    requires n < |rs|
    ensures var op, left := OpOf(chain, rs[n]), Plan(chain, next, h, rs, n);
            var more := Plan(NextChain(chain, next, h, op), NextId(next, h, op), U.Do(h, op), rs, n + 1);
            && done + left == (done + [op]) + more
            && (U.LegalRun(h, left) ==> U.Legal(h, op) && U.LegalRun(U.Do(h, op), more))
  {
    var op, left := OpOf(chain, rs[n]), Plan(chain, next, h, rs, n);
    assert left[1..] == Plan(NextChain(chain, next, h, op), NextId(next, h, op), U.Do(h, op), rs, n + 1);
  }

  // Carries out the requests from the n-th on; all is the whole run.
  method PerformFrom(rs: seq<Request>, n: nat, txn: Transaction, table: TableHeap,
                     ghost start: U.Heap, ghost done: seq<U.HeapOp>, ghost all: seq<U.HeapOp>)
    requires n <= |rs| && table.Valid() && Tracks(table, txn, start, done) && Ahead(table, rs, n, done, all)
    modifies table, table.table, Buffers(table.table), txn
    ensures table.Valid() && table.Grown() && Tracks(table, txn, start, all)
    decreases |rs| - n
  {
    if n == |rs| {
      NothingAhead(table, rs, done, all);
    } else {
      ghost var op := PerformNext(rs, n, txn, table, start, done, all);
      ghost var more, before := done + [op], table.table;
      PerformFrom(rs, n + 1, txn, table, start, more, all);
      assert old(table.table) <= before <= table.table;
    }
  }

  // What is left of the run is legal.
  ghost predicate Ahead(table: TableHeap, rs: seq<Request>, n: nat, done: seq<U.HeapOp>, all: seq<U.HeapOp>)
    requires n <= |rs|
    reads table
  {
    var left := Plan(table.chain, table.nextPageId, table.heap, rs, n);
    all == done + left && U.LegalRun(table.heap, left)
  }

  lemma NothingAhead(table: TableHeap, rs: seq<Request>, done: seq<U.HeapOp>, all: seq<U.HeapOp>)
    requires Ahead(table, rs, |rs|, done, all)
    ensures all == done
  {
  }

  method PerformNext(rs: seq<Request>, n: nat, txn: Transaction, table: TableHeap,
                     ghost start: U.Heap, ghost done: seq<U.HeapOp>, ghost all: seq<U.HeapOp>)
    returns (ghost op: U.HeapOp)
    requires n < |rs| && table.Valid() && Tracks(table, txn, start, done) && Ahead(table, rs, n, done, all)
    modifies table, table.table, Buffers(table.table), txn
    ensures table.Valid() && table.Grown() && Tracks(table, txn, start, done + [op])
    ensures Ahead(table, rs, n + 1, done + [op], all)
  {
    PlanStep(table.chain, table.nextPageId, table.heap, rs, n, done);
    op := OpOf(table.chain, rs[n]);
    Perform(rs[n], txn, table, start, done);
  }

  // A transaction alone on the heap, from its first request to its abort: every slot is restored
  // exactly when every tuple comes back. Without a failed insert it is enough that each tuple was
  // first changed on a page with room for the slots added since.
  method RunAndAbort(rs: seq<Request>, txn: Transaction, table: TableHeap, ghost ops: seq<U.HeapOp>)
    requires table.Valid() && txn.state == GROWING && txn.writeSet == []
    requires ops == Plan(table.chain, table.nextPageId, table.heap, rs, 0)
    requires A.NoMarks(table.heap) && U.LegalRun(table.heap, ops)
    requires U.DeletesExist(U.WriteSet(table.heap, false, ops), U.Final(table.heap, ops))
    modifies table, table.table, Buffers(table.table), txn
    ensures table.Valid() && txn.state == ABORTED && txn.writeSet == []
    ensures A.Restored(old(table.heap), table.heap) <==>
            A.AllComeBack(old(table.heap), U.WriteSet(old(table.heap), false, ops), U.Final(old(table.heap), ops))
    ensures !U.AbortedBy(false, ops) && R.FirstsLeaveRoom(old(table.heap), ops) ==>
              A.Restored(old(table.heap), table.heap)
  {
    ghost var start := table.heap;
    ShownSolid(table.table, start);
    assert [] + ops == ops;
    PerformFrom(rs, 0, txn, table, start, [], ops);
    AbortRun(txn, table, start, ops);
  }

  method AbortRun(txn: Transaction, table: TableHeap, ghost start: U.Heap, ghost ops: seq<U.HeapOp>)
    requires table.Valid() && Tracks(table, txn, start, ops)
    requires U.SolidHeap(start) && U.Roomy(start) && A.NoMarks(start) && U.LegalRun(start, ops)
    requires U.DeletesExist(U.WriteSet(start, false, ops), U.Final(start, ops))
    modifies txn, table`heap, table.table, Buffers(table.table)
    ensures table.Valid() && txn.state == ABORTED && txn.writeSet == []
    ensures A.Restored(start, table.heap) <==>
            A.AllComeBack(start, U.WriteSet(start, false, ops), U.Final(start, ops))
    ensures !U.AbortedBy(false, ops) && R.FirstsLeaveRoom(start, ops) ==> A.Restored(start, table.heap)
  {
    ghost var u := R.AbortOutcome(start, ops);
    Abort(txn, table);
    assert table.heap == u;
  }

  // The marked tuples, and nothing else, are gone exactly when every delete found a live tuple.
  method CommitRun(txn: Transaction, table: TableHeap, ghost start: U.Heap, ghost ops: seq<U.HeapOp>)
    requires table.Valid() && Tracks(table, txn, start, ops)
    requires A.NoMarks(start) && C.CanPurgeAll(table.heap, Records(table.chain, txn.writeSet))
    modifies txn, table`heap, table.table, Buffers(table.table)
    ensures table.Valid() && txn.writeSet == []
    ensures C.Swept(old(table.heap), table.heap) <==> C.AllDeletesLive(start, ops)
  {
    C.CommitSweeps(start, false, ops);
    Commit(txn, table);
  }
}
