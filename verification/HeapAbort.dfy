/**
 What an abort leaves, slot by slot, and exactly when that is the heap before the run.
 */
module HeapAbort {
  import opened SlottedPage
  import opened CellPage
  import opened HeapUndo

  function BytesOf(c: Cell): seq<byte> {
    if c.Empty? then [] else c.bytes
  }

  // --- the loop, record by record ---

  // The heap in which the records from j on are undone, of the first n records.
  function Down(h: Heap, ws: seq<WriteRecord>, n: nat, j: nat): Heap
    requires j <= n <= |ws| && CanUndoFirst(h, ws, n)
    decreases n
  {
    if n == j then h else Down(Undo(h, ws[n - 1]), ws, n - 1, j)
  }

  lemma {:induction false} DownStep(h: Heap, ws: seq<WriteRecord>, n: nat, j: nat)
    requires j < n <= |ws| && CanUndoFirst(h, ws, n)
    ensures CanUndo(Down(h, ws, n, j + 1), ws[j])
    ensures Down(h, ws, n, j) == Undo(Down(h, ws, n, j + 1), ws[j])
    decreases n
  {
    if j < n - 1 {
      DownStep(Undo(h, ws[n - 1]), ws, n - 1, j);
    }
  }

  lemma {:induction false} DownAll(h: Heap, ws: seq<WriteRecord>, n: nat)
    requires n <= |ws| && CanUndoFirst(h, ws, n)
    ensures Down(h, ws, n, 0) == UndoFirst(h, ws, n)
    decreases n
  {
    if n > 0 {
      DownAll(Undo(h, ws[n - 1]), ws, n - 1);
    }
  }

  lemma {:induction false} DownShift(h: Heap, first: seq<WriteRecord>, ws: seq<WriteRecord>, n: nat, j: nat)
    requires j <= n <= |ws| && CanUndoFirst(h, ws, n) && CanUndoFirst(h, first + ws, |first| + n)
    ensures Down(h, first + ws, |first| + n, |first| + j) == Down(h, ws, n, j)
    decreases n
  {
    if j < n {
      DownShift(Undo(h, ws[n - 1]), first, ws, n - 1, j);
    }
  }

  // The heap that the abort has reached when the records from j on are undone.
  function Found(last: Heap, ws: seq<WriteRecord>, j: nat): Heap
    requires j <= |ws| && CanUndoAll(last, ws)
  {
    Down(last, ws, |ws|, j)
  }

  // Record j is an update, and its old tuple fits into the page that the abort finds.
  predicate FitsBack(last: Heap, ws: seq<WriteRecord>, j: nat)
    requires j < |ws| && CanUndoAll(last, ws)
  {
    ws[j].Updated? && PutsBack(Found(last, ws, j + 1), ws[j])
  }

  predicate PutsBack(u: Heap, w: WriteRecord)
    requires w.Updated?
  {
    w.rid.page < |u| && CanReplace(u[w.rid.page], w.rid.slot, |w.was|)
  }

  lemma FitsShift(last: Heap, first: seq<WriteRecord>, ws: seq<WriteRecord>, j: nat)
    requires j < |ws| && CanUndoAll(last, ws) && CanUndoAll(last, first + ws)
    ensures FitsBack(last, first + ws, |first| + j) == FitsBack(last, ws, j)
  {
    DownShift(last, first, ws, |ws|, j + 1);
  }

  lemma FitsHead(last: Heap, w: WriteRecord, ws: seq<WriteRecord>)
    requires w.Updated? && CanUndoAll(last, ws) && CanUndoAll(last, [w] + ws)
    ensures FitsBack(last, [w] + ws, 0) == PutsBack(UndoAll(last, ws), w)
  {
    DownShift(last, [w], ws, |ws|, 0);
    DownAll(last, ws, |ws|);
  }

  // The first record from j on that puts a tuple back into r, or the number of records.
  function FirstBack(last: Heap, ws: seq<WriteRecord>, r: Rid, j: nat): (i: nat)
    requires j <= |ws| && CanUndoAll(last, ws)
    ensures j <= i <= |ws| && (i < |ws| ==> FitsBack(last, ws, i) && ws[i].rid == r)
    ensures forall k :: j <= k < i ==> !(FitsBack(last, ws, k) && ws[k].rid == r)
    decreases |ws| - j
  {
    if j == |ws| || (FitsBack(last, ws, j) && ws[j].rid == r) then j else FirstBack(last, ws, r, j + 1)
  }

  // What undoing one record makes of a tuple in r.
  lemma UndoneCell(u: Heap, w: WriteRecord, r: Rid)
    requires CanUndo(u, w) && !Held(u, r).Empty? && w != Inserted(r)
    ensures var c, d := Held(u, r), Held(Undo(u, w), r);
            && !d.Empty? && (d.Marked? <==> c.Marked? && w != Deleted(r))
            && d.bytes == if w.Updated? && w.rid == r && PutsBack(u, w) then w.was else c.bytes
  {}

  // The bytes that the abort leaves in r, when the records from j on are undone.
  function BytesBack(last: Heap, ws: seq<WriteRecord>, r: Rid, j: nat): seq<byte>
    requires j <= |ws| && CanUndoAll(last, ws)
  {
    var i := FirstBack(last, ws, r, j);
    if i < |ws| then ws[i].was else BytesOf(Held(last, r))
  }

  lemma {:induction false} FoundCell(last: Heap, ws: seq<WriteRecord>, r: Rid, j: nat)
    requires j <= |ws| && CanUndoAll(last, ws) && !Held(last, r).Empty? && Inserted(r) !in ws
    ensures var c := Held(Found(last, ws, j), r);
            && !c.Empty? && c.bytes == BytesBack(last, ws, r, j)
            && (c.Marked? <==> Held(last, r).Marked? && Deleted(r) !in ws[j..])
    decreases |ws| - j
  {
    if j < |ws| {
      FoundCell(last, ws, r, j + 1);
      DownStep(last, ws, |ws|, j);
      var u := Found(last, ws, j + 1);
      assert Found(last, ws, j) == Undo(u, ws[j]);
      UndoneCell(u, ws[j], r);
      assert ws[j..] == [ws[j]] + ws[j + 1..];
    }
  }

  // --- what a run does to one slot ---

  // The operation changes no slot but this one.
  function Target(h: Heap, op: HeapOp): Rid {
    if op.Insert? then InsertRid(h, op.bytes) else op.rid
  }

  lemma OthersHeld(h: Heap, op: HeapOp, r: Rid)
    requires r != Target(h, op)
    ensures Held(Do(h, op), r) == Held(h, r)
  {
    if op.Insert? && !TooLarge(op.bytes) {
      var i := FirstFit(h, |op.bytes|);
      assert Do(h, op)[i] == Put(PageAt(h, i), op.bytes);
    }
  }

  lemma TargetHeld(h: Heap, op: HeapOp)
    ensures var r, h1 := Target(h, op), Do(h, op);
            match op
            case Insert(b) => if Fails(op) then h1 == h else Held(h, r).Empty? && Held(h1, r) == Live(b)
            case MarkDelete(_) =>
              Held(h1, r) == if Held(h, r).Live? then Marked(Held(h, r).bytes) else Held(h, r)
            case Update(_, b) =>
              if Updates(h, op) then Held(h, r).Live? && Held(h1, r) == Live(b) else h1 == h
  {
    if op.Insert? && !TooLarge(op.bytes) {
      var i := FirstFit(h, |op.bytes|);
      assert Do(h, op)[i] == Put(PageAt(h, i), op.bytes);
    }
  }

  lemma StaysHeld(h: Heap, op: HeapOp, r: Rid)
    requires !Held(h, r).Empty?
    ensures !Held(Do(h, op), r).Empty?
    ensures BytesOf(Held(Do(h, op), r)) == BytesOf(Held(h, r)) || (Updates(h, op) && op.rid == r)
  {
    if r == Target(h, op) {
      TargetHeld(h, op);
    } else {
      OthersHeld(h, op, r);
    }
  }

  // The first update of r in the write set, or the number of records.
  function FirstUpdate(ws: seq<WriteRecord>, r: Rid): (i: nat)
    ensures i <= |ws| && (i < |ws| ==> ws[i].Updated? && ws[i].rid == r)
    ensures forall k :: 0 <= k < i ==> !(ws[k].Updated? && ws[k].rid == r)
  {
    if ws == [] || (ws[0].Updated? && ws[0].rid == r) then 0 else 1 + FirstUpdate(ws[1..], r)
  }

  lemma {:induction false} FirstUpdateConcat(first: seq<WriteRecord>, ws: seq<WriteRecord>, r: Rid)
    ensures var i := FirstUpdate(first, r);
            FirstUpdate(first + ws, r) == if i < |first| then i else |first| + FirstUpdate(ws, r)
  {
    if first == [] {
      assert first + ws == ws;
    } else {
      assert (first + ws)[1..] == first[1..] + ws;
      FirstUpdateConcat(first[1..], ws, r);
    }
  }

  // A tuple stays where it is, no insert takes its slot, and the first recorded update of it has its
  // bytes; one that is marked has none, and one that becomes marked has a recorded delete.
  lemma {:induction false} TupleRecords(h: Heap, aborted: bool, ops: seq<HeapOp>, r: Rid)
    requires !Held(h, r).Empty?
    ensures var last, ws := Final(h, ops), WriteSet(h, aborted, ops);
            var i := FirstUpdate(ws, r);
            && !Held(last, r).Empty? && Inserted(r) !in ws
            && (aborted ==> i == |ws|)
            && (i < |ws| ==> ws[i].was == Held(h, r).bytes)
            && (Held(h, r).Marked? ==> Held(last, r) == Held(h, r) && i == |ws|)
            && (Held(last, r).Marked? ==> Held(h, r).Marked? || Deleted(r) in ws)
    decreases |ops|
  {
    if ops != [] {
      var op, rest := ops[0], ops[1..];
      var h1, a1, first := Do(h, op), aborted || Fails(op), Record(h, aborted, op);
      StaysHeld(h, op, r);
      TupleRecords(h1, a1, rest, r);
      FirstUpdateConcat(first, WriteSet(h1, a1, rest), r);
      OneRecord(h, aborted, op, r);
    }
  }

  lemma OneRecord(h: Heap, aborted: bool, op: HeapOp, r: Rid)
    requires !Held(h, r).Empty?
    ensures var h1, first := Do(h, op), Record(h, aborted, op);
            && Inserted(r) !in first && (aborted ==> FirstUpdate(first, r) == |first|)
            && (FirstUpdate(first, r) < |first| ==> first[0].was == Held(h, r).bytes && |first| == 1)
            && (FirstUpdate(first, r) == |first| && !aborted ==> BytesOf(Held(h1, r)) == Held(h, r).bytes)
            && (Held(h, r).Marked? ==> Held(h1, r) == Held(h, r) && FirstUpdate(first, r) == |first|)
            && (Held(h1, r).Marked? ==> Held(h, r).Marked? || Deleted(r) in first)
  {
    var first := Record(h, aborted, op);
    StaysHeld(h, op, r);
    if first != [] {
      assert first[1..] == [];
    }
    if r == Target(h, op) {
      TargetHeld(h, op);
    } else {
      OthersHeld(h, op, r);
    }
  }

  // --- what the abort leaves ---

  // In slot r: the tuple that h had there, with the bytes of the first record that puts one back, or
  // those of last, unmarked if a delete of it was recorded.
  function ReachedCell(h: Heap, ws: seq<WriteRecord>, last: Heap, r: Rid): Cell
    requires CanUndoAll(last, ws)
  {
    var c, b := Held(h, r), BytesBack(last, ws, r, 0);
    if c.Empty? then Empty
    else if c.Marked? && Deleted(r) !in ws then Marked(b)
    else Live(b)
  }

  // The abort of every legal run goes through and leaves that, in every slot.
  lemma AbortReaches(h: Heap, aborted: bool, ops: seq<HeapOp>, r: Rid)
    requires SolidHeap(h) && LegalRun(h, ops) && DeletesExist(WriteSet(h, aborted, ops), Final(h, ops))
    ensures var last, ws := Final(h, ops), WriteSet(h, aborted, ops);
            && CanUndoAll(last, ws) && SameSlots(UndoAll(last, ws), last)
            && Held(UndoAll(last, ws), r) == ReachedCell(h, ws, last, r)
  {
    var last, ws := Final(h, ops), WriteSet(h, aborted, ops);
    UndoLoose(h, aborted, ops);
    DownAll(last, ws, |ws|);
    if Held(h, r).Empty? {
      LooseEmpty(h, UndoAll(last, ws), r);
    } else {
      TupleRecords(h, aborted, ops, r);
      FoundCell(last, ws, r, 0);
      assert ws[0..] == ws;
    }
  }

  lemma LooseEmpty(h: Heap, u: Heap, r: Rid)
    requires Loose(h, u) && Held(h, r).Empty?
    ensures Held(u, r).Empty?
  {
    if Exists(u, r) {
      assert LoosePage(PageAt(h, r.page), u[r.page]);
    }
  }

  predicate NoMarks(h: Heap) {
    forall i :: 0 <= i < |h| ==> forall k :: 0 <= k < |h[i]| ==> !h[i][k].Marked?
  }

  // Every slot that existed holds what it held; added slots and pages are empty.
  predicate Restored(h: Heap, u: Heap) {
    && |h| <= |u|
    && forall i :: 0 <= i < |u| ==>
         PageAt(h, i) <= u[i] && forall k :: |PageAt(h, i)| <= k < |u[i]| ==> u[i][k].Empty?
  }

  lemma RestoredCells(h: Heap, u: Heap)
    requires Extends(h, u)
    ensures Restored(h, u) <==> forall r :: Exists(u, r) ==> Held(u, r) == Held(h, r)
  {
    if Restored(h, u) {
      forall r | Exists(u, r) ensures Held(u, r) == Held(h, r) {
        assert PageAt(h, r.page) <= u[r.page];
      }
    }
    if forall r :: Exists(u, r) ==> Held(u, r) == Held(h, r) {
      forall i, k | 0 <= i < |u| && 0 <= k < |u[i]|
        ensures u[i][k] == if k < |PageAt(h, i)| then PageAt(h, i)[k] else Empty
      {
        assert Held(u, Rid(i, k)) == Held(h, Rid(i, k));
      }
    }
  }

  lemma UnmarkedHeld(h: Heap, r: Rid)
    requires NoMarks(h)
    ensures !Held(h, r).Marked?
  {}

  // The first recorded update of r fits back, or its old bytes are back already; without a record the
  // bytes have not changed.
  predicate ComesBack(h: Heap, ws: seq<WriteRecord>, last: Heap, r: Rid)
    requires CanUndoAll(last, ws)
  {
    var i := FirstUpdate(ws, r);
    if i == |ws| then BytesOf(Held(last, r)) == BytesOf(Held(h, r))
    else FitsBack(last, ws, i) || BytesOf(Held(Found(last, ws, i + 1), r)) == BytesOf(Held(h, r))
  }

  ghost predicate AllComeBack(h: Heap, ws: seq<WriteRecord>, last: Heap) {
    CanUndoAll(last, ws) && forall r :: !Held(h, r).Empty? ==> ComesBack(h, ws, last, r)
  }

  // Until the first update of r nothing is put back.
  lemma {:induction false} NothingBefore(last: Heap, ws: seq<WriteRecord>, r: Rid, j: nat)
    requires CanUndoAll(last, ws) && j <= FirstUpdate(ws, r)
    ensures FirstBack(last, ws, r, j) == FirstBack(last, ws, r, FirstUpdate(ws, r))
    decreases FirstUpdate(ws, r) - j
  {
    if j < FirstUpdate(ws, r) {
      NothingBefore(last, ws, r, j + 1);
    }
  }

  lemma BytesFromFirst(last: Heap, ws: seq<WriteRecord>, r: Rid)
    requires CanUndoAll(last, ws)
    ensures var i := FirstUpdate(ws, r);
            BytesBack(last, ws, r, 0) ==
            if i == |ws| then BytesOf(Held(last, r))
            else if FitsBack(last, ws, i) then ws[i].was
            else BytesBack(last, ws, r, i + 1)
  {
    NothingBefore(last, ws, r, 0);
  }

  lemma TupleBackIff(h: Heap, ws: seq<WriteRecord>, last: Heap, r: Rid)
    requires CanUndoAll(last, ws) && !Held(h, r).Empty? && !Held(last, r).Empty? && Inserted(r) !in ws
    requires FirstUpdate(ws, r) < |ws| ==> ws[FirstUpdate(ws, r)].was == Held(h, r).bytes
    ensures BytesBack(last, ws, r, 0) == Held(h, r).bytes <==> ComesBack(h, ws, last, r)
  {
    BytesFromFirst(last, ws, r);
    if FirstUpdate(ws, r) < |ws| {
      FoundCell(last, ws, r, FirstUpdate(ws, r) + 1);
    }
  }

  // The abort restores every slot exactly when every tuple comes back. An update that does not fit
  // back does no harm when an earlier one of the same tuple does.
  lemma AbortRestoresIff(h: Heap, ops: seq<HeapOp>)
    requires SolidHeap(h) && NoMarks(h) && LegalRun(h, ops)
    requires DeletesExist(WriteSet(h, false, ops), Final(h, ops))
    ensures var last, ws := Final(h, ops), WriteSet(h, false, ops);
            CanUndoAll(last, ws) && (Restored(h, UndoAll(last, ws)) <==> AllComeBack(h, ws, last))
  {
    var last, ws := Final(h, ops), WriteSet(h, false, ops);
    UndoLoose(h, false, ops);
    RunExtends(h, ops);
    var u := UndoAll(last, ws);
    RestoredCells(h, u);
    forall r ensures Held(u, r) == Held(h, r) <==> Held(h, r).Empty? || ComesBack(h, ws, last, r) {
      AbortReaches(h, false, ops, r);
      if !Held(h, r).Empty? {
        UnmarkedHeld(h, r);
        TupleRecords(h, false, ops, r);
        TupleBackIff(h, ws, last, r);
      }
    }
    forall r | !Held(h, r).Empty? ensures Exists(u, r) {}
  }

  lemma ConsRun(h: Heap, op: HeapOp, rest: seq<HeapOp>)
    ensures var ops, h1 := [op] + rest, Do(h, op);
            && Final(h, ops) == Final(h1, rest)
            && WriteSet(h, false, ops) == Record(h, false, op) + WriteSet(h1, Fails(op), rest)
            && (LegalRun(h, ops) <==> Legal(h, op) && LegalRun(h1, rest))
  {
    assert ([op] + rest)[1..] == rest;
  }

  // An update after an insert that failed is not recorded, and no abort undoes it.
  lemma UnrecordedStays(h: Heap, big: seq<byte>, op: HeapOp)
    requires TooLarge(big) && Updates(h, op) && op.bytes != h[op.rid.page][op.rid.slot].bytes
    ensures var ops := [Insert(big)] + [op];
            && WriteSet(h, false, ops) == [] && Final(h, ops) == Do(h, op)
            && CanUndoAll(Final(h, ops), []) && !Restored(h, UndoAll(Final(h, ops), []))
  {
    var ops := [Insert(big)] + [op];
    assert ops[1..] == [op] && [op][1..] == [];
    assert Do(h, ops[0]) == h && Final(h, [op]) == Do(h, op);
    assert WriteSet(h, true, [op]) == Record(h, true, op) + [];
    assert WriteSet(h, false, ops) == Record(h, false, ops[0]) + WriteSet(h, true, [op]);
    TargetHeld(h, op);
    RunExtends(h, [op]);
    RestoredCells(h, Do(h, op));
    assert Held(Do(h, op), op.rid) != Held(h, op.rid);
  }

  // A delete that finds no slot is recorded too: the abort stops at it exactly when the rest of the
  // run has not added the slot.
  lemma MissingDeleteStops(h: Heap, r: Rid, rest: seq<HeapOp>)
    requires SolidHeap(h) && r.page < |h| && LegalRun(Do(h, MarkDelete(r)), rest)
    requires DeletesExist(WriteSet(Do(h, MarkDelete(r)), false, rest), Final(Do(h, MarkDelete(r)), rest))
    ensures var ops := [MarkDelete(r)] + rest;
            CanUndoAll(Final(h, ops), WriteSet(h, false, ops)) <==> Exists(Final(h, ops), r)
  {
    var op, ops := MarkDelete(r), [MarkDelete(r)] + rest;
    var first, ws, last := Record(h, false, op), WriteSet(Do(h, op), false, rest), Final(h, ops);
    ConsRun(h, op, rest);
    AbortEndsIff(h, false, ops);
    ExistParts(first, ws, last);
    assert first == [Deleted(r)];
    assert DeletesExist(first, last) <==> Exists(last, r) by {
      assert first[0].rid == r;
    }
  }
}
