/**
 A table heap as the cells of its pages in chain order, the write set that a transaction keeps,
 and what undoing the write set from the back leaves.
 */
module HeapUndo {
  import opened SlottedPage
  import opened CellPage

  type Heap = seq<seq<Cell>>
  datatype Rid = Rid(page: nat, slot: nat)

  datatype HeapOp = Insert(bytes: seq<byte>) | MarkDelete(rid: Rid) | Update(rid: Rid, bytes: seq<byte>)
  datatype WriteRecord = Inserted(rid: Rid) | Deleted(rid: Rid) | Updated(rid: Rid, was: seq<byte>)

  // The first page of the chain that accepts n bytes.
  function FirstFit(h: Heap, n: nat): (i: nat)
    ensures i <= |h|
    ensures i < |h| ==> Accepts(h[i], n)
    ensures forall j :: 0 <= j < i ==> !Accepts(h[j], n)
  {
    if h == [] || Accepts(h[0], n) then 0 else 1 + FirstFit(h[1..], n)
  }

  predicate TooLarge(bytes: seq<byte>) {
    |bytes| + 32 > PAGE_SIZE
  }

  // The guard of an insert is exactly what an empty page accepts.
  lemma FreshPageAccepts(bytes: seq<byte>)
    ensures Accepts([], |bytes|) <==> !TooLarge(bytes)
  {}

  function InsertRid(h: Heap, bytes: seq<byte>): Rid {
    var i := FirstFit(h, |bytes|);
    Rid(i, if i < |h| then FirstFree(h[i]) else 0)
  }

  // Page i is the first that is not over its size with the tuple in it, or the next one if none is.
  predicate FirstWithRoom(h: Heap, bytes: seq<byte>, i: nat) {
    && i <= |h| && (i < |h| ==> Room(Put(h[i], bytes)) >= 0)
    && forall j :: 0 <= j < i ==> Room(Put(h[j], bytes)) < 0
  }

  lemma FirstFitIff(h: Heap, bytes: seq<byte>)
    ensures FirstWithRoom(h, bytes, InsertRid(h, bytes).page)
  {
    forall j | 0 <= j < |h| ensures Accepts(h[j], |bytes|) <==> Room(Put(h[j], bytes)) >= 0 {
      AcceptsIff(h[j], bytes);
    }
  }

  function InsertTuple(h: Heap, bytes: seq<byte>): Heap {
    var i := FirstFit(h, |bytes|);
    if i < |h| then h[i := Put(h[i], bytes)] else h + [Put([], bytes)]
  }

  // An update keeps the layout of its page: the size stays, or no tuple there is marked.
  predicate KeepsLayout(cs: seq<Cell>, k: nat, n: nat) {
    CanReplace(cs, k, n) ==> n == |cs[k].bytes| || forall i :: 0 <= i < |cs| ==> !cs[i].Marked?
  }

  function UpdateCell(h: Heap, rid: Rid, bytes: seq<byte>): Heap
    requires rid.page < |h|
  {
    if CanReplace(h[rid.page], rid.slot, |bytes|) then h[rid.page := h[rid.page][rid.slot := Live(bytes)]] else h
  }

  // Operations name pages of the heap.
  function Do(h: Heap, op: HeapOp): Heap {
    match op
    case Insert(b) => if TooLarge(b) then h else InsertTuple(h, b)
    case MarkDelete(r) => if r.page < |h| then h[r.page := Delete(h[r.page], r.slot)] else h
    case Update(r, b) => if r.page < |h| then UpdateCell(h, r, b) else h
  }

  predicate Updates(h: Heap, op: HeapOp) {
    op.Update? && op.rid.page < |h| && CanReplace(h[op.rid.page], op.rid.slot, |op.bytes|)
  }

  // An insert that no page can take aborts the transaction.
  predicate Fails(op: HeapOp) {
    op.Insert? && TooLarge(op.bytes)
  }

  // A delete is recorded whatever the page answered; an update only until the transaction is aborted.
  function Record(h: Heap, aborted: bool, op: HeapOp): seq<WriteRecord> {
    match op
    case Insert(b) => if TooLarge(b) then [] else [Inserted(InsertRid(h, b))]
    case MarkDelete(r) => if r.page < |h| then [Deleted(r)] else []
    case Update(r, b) => if !aborted && Updates(h, op) then [Updated(r, h[r.page][r.slot].bytes)] else []
  }

  // The page and the slot exist, a rolled back insert finds a tuple, a restored tuple keeps the layout.
  predicate CanUndo(h: Heap, w: WriteRecord) {
    && w.rid.page < |h|
    && (w.Inserted? ==> w.rid.slot < |h[w.rid.page]| && !h[w.rid.page][w.rid.slot].Empty?)
    && (w.Deleted? ==> w.rid.slot < |h[w.rid.page]|)
    && (w.Updated? ==> w.was != [] && KeepsLayout(h[w.rid.page], w.rid.slot, |w.was|))
  }

  function Undo(h: Heap, w: WriteRecord): Heap
    requires CanUndo(h, w)
  {
    match w
    case Inserted(r) => h[r.page := h[r.page][r.slot := Empty]]
    case Deleted(r) => h[r.page := Undelete(h[r.page], r.slot)]
    case Updated(r, was) => UpdateCell(h, r, was)
  }

  // The first n records can be undone from the back, each in the state it finds.
  predicate CanUndoFirst(h: Heap, ws: seq<WriteRecord>, n: nat)
    requires n <= |ws|
    decreases n
  {
    n == 0 || (CanUndo(h, ws[n - 1]) && CanUndoFirst(Undo(h, ws[n - 1]), ws, n - 1))
  }

  function UndoFirst(h: Heap, ws: seq<WriteRecord>, n: nat): Heap
    requires n <= |ws| && CanUndoFirst(h, ws, n)
    decreases n
  {
    if n == 0 then h else UndoFirst(Undo(h, ws[n - 1]), ws, n - 1)
  }

  predicate CanUndoAll(h: Heap, ws: seq<WriteRecord>) {
    CanUndoFirst(h, ws, |ws|)
  }

  function UndoAll(h: Heap, ws: seq<WriteRecord>): Heap
    requires CanUndoAll(h, ws)
  {
    UndoFirst(h, ws, |ws|)
  }

  // A page whose one slot is empty takes the largest tuple again, in that slot.
  lemma LargestGoesBack(bytes: seq<byte>)
    requires bytes != [] && !TooLarge(bytes)
    ensures Do([[Empty]], Insert(bytes)) == [[Live(bytes)]]
  {
    var h: Heap := [[Empty]];
    var cs := h[0];
    assert cs[1..] == [];
    assert FirstFree(cs) == 0 && Room(cs) == PAGE_SIZE - HEADER_SIZE - SLOT_SIZE;
    assert FirstFit(h, |bytes|) == 0;
    assert Put(cs, bytes) == [Live(bytes)];
  }

  // --- runs of a lone transaction ---

  function Final(h: Heap, ops: seq<HeapOp>): Heap
    decreases |ops|
  {
    if ops == [] then h else Final(Do(h, ops[0]), ops[1..])
  }

  function WriteSet(h: Heap, aborted: bool, ops: seq<HeapOp>): seq<WriteRecord>
    decreases |ops|
  {
    if ops == [] then []
    else Record(h, aborted, ops[0]) + WriteSet(Do(h, ops[0]), aborted || Fails(ops[0]), ops[1..])
  }

  // Whether the transaction is aborted after the run.
  predicate AbortedBy(aborted: bool, ops: seq<HeapOp>) {
    aborted || exists i :: 0 <= i < |ops| && Fails(ops[i])
  }

  lemma {:induction false} RunAppend(h: Heap, aborted: bool, ops: seq<HeapOp>, op: HeapOp)
    ensures Final(h, ops + [op]) == Do(Final(h, ops), op)
    ensures WriteSet(h, aborted, ops + [op])
         == WriteSet(h, aborted, ops) + Record(Final(h, ops), AbortedBy(aborted, ops), op)
    decreases |ops|
  {
    if ops == [] {
      assert ops + [op] == [op] && [op][1..] == [];
    } else {
      var rest, a1 := ops[1..], aborted || Fails(ops[0]);
      assert (ops + [op])[1..] == rest + [op];
      RunAppend(Do(h, ops[0]), a1, rest, op);
      AbortedStep(aborted, ops);
    }
  }

  lemma AbortedStep(aborted: bool, ops: seq<HeapOp>)
    requires ops != []
    ensures AbortedBy(aborted, ops) == AbortedBy(aborted || Fails(ops[0]), ops[1..])
  {
    if i :| 0 <= i < |ops| && Fails(ops[i]) {
      assert i > 0 ==> ops[1..][i - 1] == ops[i];
    }
    if i :| 0 <= i < |ops[1..]| && Fails(ops[1..][i]) {
      assert ops[i + 1] == ops[1..][i];
    }
  }

  // Tuples have bytes, and updates keep the layout of their page.
  predicate Legal(h: Heap, op: HeapOp) {
    match op
    case Insert(b) => b != []
    case MarkDelete(_) => true
    case Update(r, b) => b != [] && (r.page < |h| ==> KeepsLayout(h[r.page], r.slot, |b|))
  }

  predicate LegalRun(h: Heap, ops: seq<HeapOp>)
    decreases |ops|
  {
    ops == [] || (Legal(h, ops[0]) && LegalRun(Do(h, ops[0]), ops[1..]))
  }

  predicate Solid(c: Cell) {
    !c.Empty? ==> c.bytes != []
  }

  // Every tuple on a page has bytes.
  predicate SolidHeap(h: Heap) {
    forall i, k :: 0 <= i < |h| && 0 <= k < |h[i]| ==> Solid(h[i][k])
  }

  // No page is over its size.
  predicate Roomy(h: Heap) {
    forall i :: 0 <= i < |h| ==> Room(h[i]) >= 0
  }

  lemma StaysSolid(h: Heap, op: HeapOp)
    requires SolidHeap(h) && Legal(h, op)
    ensures SolidHeap(Do(h, op))
  {
    if op.Insert? && !TooLarge(op.bytes) {
      var i := FirstFit(h, |op.bytes|);
      forall k | 0 <= k < |Put(PageAt(h, i), op.bytes)| ensures Solid(Put(PageAt(h, i), op.bytes)[k]) {
        assert k < |PageAt(h, i)| ==> Solid(PageAt(h, i)[k]);
      }
    }
  }

  function PageAt(h: Heap, i: nat): seq<Cell> {
    if i < |h| then h[i] else []
  }

  // What the slot r holds; slots that do not exist hold nothing.
  function Held(h: Heap, r: Rid): Cell {
    if r.page < |h| && r.slot < |h[r.page]| then h[r.page][r.slot] else Empty
  }

  predicate Exists(h: Heap, r: Rid) {
    r.page < |h| && r.slot < |h[r.page]|
  }

  ghost predicate SameSlots(h: Heap, last: Heap) {
    |h| == |last| && forall i :: 0 <= i < |h| ==> |h[i]| == |last[i]|
  }

  // Every slot of h is still there.
  ghost predicate Extends(h: Heap, last: Heap) {
    |h| <= |last| && forall i :: 0 <= i < |h| ==> |h[i]| <= |last[i]|
  }

  lemma StepExtends(h: Heap, op: HeapOp)
    ensures Extends(h, Do(h, op))
  {}

  lemma {:induction false} RunExtends(h: Heap, ops: seq<HeapOp>)
    ensures Extends(h, Final(h, ops))
    decreases |ops|
  {
    if ops != [] {
      StepExtends(h, ops[0]);
      RunExtends(Do(h, ops[0]), ops[1..]);
    }
  }

  // --- when the write set can be undone at all ---

  predicate PageMarked(cs: seq<Cell>) {
    exists k :: 0 <= k < |cs| && cs[k].Marked?
  }

  // Kinds of cells agree, up to marks that are gone.
  ghost predicate Kin(was: Cell, now: Cell) {
    && (was.Empty? <==> now.Empty?) && (was.Live? ==> now.Live?)
  }

  // While a page has a marked tuple no size on it changes.
  ghost predicate LoosePage(was: seq<Cell>, now: seq<Cell>) {
    && |was| <= |now|
    && (forall k :: 0 <= k < |was| ==> Kin(was[k], now[k]))
    && (forall k :: |was| <= k < |now| ==> now[k].Empty?)
    && (PageMarked(was) ==> forall k :: 0 <= k < |was| ==> CellLength(was[k]) == CellLength(now[k]))
  }

  ghost predicate Loose(was: Heap, now: Heap) {
    |was| <= |now| && forall i {:trigger now[i]} :: 0 <= i < |now| ==> LoosePage(PageAt(was, i), now[i])
  }

  lemma LooseInsert(h: Heap, b: seq<byte>, u: Heap)
    requires b != [] && !TooLarge(b) && Loose(Do(h, Insert(b)), u)
    ensures CanUndo(u, Inserted(InsertRid(h, b)))
    ensures var v := Undo(u, Inserted(InsertRid(h, b))); Loose(h, v) && SameSlots(v, u)
  {
    var r, h1 := InsertRid(h, b), Do(h, Insert(b));
    var cs, ds, us := PageAt(h, r.page), h1[r.page], u[r.page];
    assert ds == Put(cs, b) && LoosePage(ds, us);
    var v := Undo(u, Inserted(r));
    assert LoosePage(cs, us[r.slot := Empty]) by {
      if k :| 0 <= k < |cs| && cs[k].Marked? {
        assert ds[k].Marked?;
      }
    }
    forall i | 0 <= i < |v| ensures LoosePage(PageAt(h, i), v[i]) {
      assert LoosePage(PageAt(h1, i), u[i]);
    }
  }

  lemma LooseDelete(h: Heap, r: Rid, u: Heap)
    requires r.page < |h| && Loose(Do(h, MarkDelete(r)), u) && Exists(u, r)
    ensures CanUndo(u, Deleted(r))
    ensures var v := Undo(u, Deleted(r)); Loose(h, v) && SameSlots(v, u)
  {
    var h1, v := Do(h, MarkDelete(r)), Undo(u, Deleted(r));
    var cs, ds, us := h[r.page], h1[r.page], u[r.page];
    assert LoosePage(ds, us);
    assert LoosePage(cs, v[r.page]) by {
      if k :| 0 <= k < |cs| && cs[k].Marked? {
        assert ds[k].Marked?;
      }
    }
    forall i | 0 <= i < |v| ensures LoosePage(PageAt(h, i), v[i]) {
      assert LoosePage(PageAt(h1, i), u[i]);
    }
  }

  lemma LooseUpdatePage(cs: seq<Cell>, k: nat, b: seq<byte>, us: seq<Cell>)
    requires CanReplace(cs, k, |b|) && KeepsLayout(cs, k, |b|) && LoosePage(cs[k := Live(b)], us)
    ensures KeepsLayout(us, k, |cs[k].bytes|) && LoosePage(cs, us)
    ensures k < |us| && LoosePage(cs, us[k := cs[k]])
  {
    var ds := cs[k := Live(b)];
    if i :| 0 <= i < |cs| && cs[i].Marked? {
      assert ds[i].Marked? && PageMarked(ds);
      assert CellLength(ds[k]) == CellLength(us[k]);
    } else {
      forall i | 0 <= i < |us| ensures !us[i].Marked? {
        assert i < |cs| ==> Kin(ds[i], us[i]);
      }
    }
  }

  // Undoing an update, or leaving it where it was not recorded.
  lemma LooseUpdate(h: Heap, op: HeapOp, u: Heap)
    requires SolidHeap(h) && Updates(h, op) && Legal(h, op) && Loose(Do(h, op), u)
    ensures CanUndo(u, Record(h, false, op)[0]) && Loose(h, u)
    ensures var v := Undo(u, Record(h, false, op)[0]); Loose(h, v) && SameSlots(v, u)
  {
    var r, h1 := op.rid, Do(h, op);
    assert LoosePage(PageAt(h1, r.page), u[r.page]);
    LooseUpdatePage(h[r.page], r.slot, op.bytes, u[r.page]);
    var v := Undo(u, Record(h, false, op)[0]);
    forall i | 0 <= i < |v| ensures LoosePage(PageAt(h, i), v[i]) && LoosePage(PageAt(h, i), u[i]) {
      assert LoosePage(PageAt(h1, i), u[i]);
    }
  }

  // Every delete in the write set names a slot that is there at the end.
  predicate DeletesExist(ws: seq<WriteRecord>, last: Heap) {
    forall i :: 0 <= i < |ws| && ws[i].Deleted? ==> Exists(last, ws[i].rid)
  }

  lemma UndoOne(u: Heap, w: WriteRecord)
    requires CanUndo(u, w)
    ensures CanUndoAll(u, [w]) && UndoAll(u, [w]) == Undo(u, w)
  {
    assert UndoFirst(Undo(u, w), [w], 0) == Undo(u, w);
  }

  lemma LooseOne(h: Heap, aborted: bool, op: HeapOp, u: Heap)
    requires SolidHeap(h) && Legal(h, op) && Loose(Do(h, op), u) && DeletesExist(Record(h, aborted, op), u)
    ensures CanUndoAll(u, Record(h, aborted, op))
    ensures var v := UndoAll(u, Record(h, aborted, op)); Loose(h, v) && SameSlots(v, u)
  {
    var first := Record(h, aborted, op);
    match op {
      case Insert(b) => if !TooLarge(b) { LooseInsert(h, b, u); }
      case MarkDelete(r) =>
        if r.page < |h| {
          assert first[0].Deleted?;
          LooseDelete(h, r, u);
        }
      case Update(_, _) => if Updates(h, op) { LooseUpdate(h, op, u); }
    }
    if first == [] {
      assert UndoAll(u, first) == u;
    } else {
      assert first == [first[0]];
      UndoOne(u, first[0]);
    }
  }

  lemma {:induction false} UndoPrefix(h: Heap, first: seq<WriteRecord>, second: seq<WriteRecord>, n: nat)
    requires n <= |first| && CanUndoFirst(h, first, n)
    ensures CanUndoFirst(h, first + second, n) && UndoFirst(h, first + second, n) == UndoFirst(h, first, n)
    decreases n
  {
    if n > 0 {
      UndoPrefix(Undo(h, first[n - 1]), first, second, n - 1);
    }
  }

  lemma {:induction false} UndoConcat(h: Heap, first: seq<WriteRecord>, second: seq<WriteRecord>, n: nat)
    requires n <= |second| && CanUndoFirst(h, second, n) && CanUndoAll(UndoFirst(h, second, n), first)
    ensures CanUndoFirst(h, first + second, |first| + n)
    ensures UndoFirst(h, first + second, |first| + n) == UndoAll(UndoFirst(h, second, n), first)
    decreases n
  {
    if n == 0 {
      UndoPrefix(h, first, second, |first|);
    } else {
      UndoConcat(Undo(h, second[n - 1]), first, second, n - 1);
    }
  }

  lemma UndoJoin(h: Heap, first: seq<WriteRecord>, second: seq<WriteRecord>)
    requires CanUndoAll(h, second) && CanUndoAll(UndoAll(h, second), first)
    ensures CanUndoAll(h, first + second) && UndoAll(h, first + second) == UndoAll(UndoAll(h, second), first)
  {
    UndoConcat(h, first, second, |second|);
  }

  lemma LooseSelf(h: Heap)
    ensures Loose(h, h)
  {}

  // Whatever becomes of single updates, the loop goes through and leaves the kinds of all cells.
  lemma {:induction false} UndoLoose(h: Heap, aborted: bool, ops: seq<HeapOp>)
    requires SolidHeap(h) && LegalRun(h, ops) && DeletesExist(WriteSet(h, aborted, ops), Final(h, ops))
    ensures var last, ws := Final(h, ops), WriteSet(h, aborted, ops);
            CanUndoAll(last, ws) && Loose(h, UndoAll(last, ws)) && SameSlots(UndoAll(last, ws), last)
    decreases |ops|
  {
    var last := Final(h, ops);
    if ops == [] {
      LooseSelf(h);
    } else {
      var h1, a1, rest := Do(h, ops[0]), aborted || Fails(ops[0]), ops[1..];
      var first, ws := Record(h, aborted, ops[0]), WriteSet(h1, a1, rest);
      ExistParts(first, ws, last);
      StaysSolid(h, ops[0]);
      UndoLoose(h1, a1, rest);
      var u := UndoAll(last, ws);
      ExistSame(first, last, u);
      LooseOne(h, aborted, ops[0], u);
      UndoJoin(last, first, ws);
    }
  }

  lemma ExistParts(first: seq<WriteRecord>, second: seq<WriteRecord>, last: Heap)
    ensures DeletesExist(first + second, last) <==> DeletesExist(first, last) && DeletesExist(second, last)
  {
    var ws := first + second;
    if DeletesExist(ws, last) {
      forall i | 0 <= i < |first| && first[i].Deleted? ensures Exists(last, first[i].rid) {
        assert ws[i] == first[i];
      }
      forall i | 0 <= i < |second| && second[i].Deleted? ensures Exists(last, second[i].rid) {
        assert ws[|first| + i] == second[i];
      }
    }
  }

  lemma ExistSame(ws: seq<WriteRecord>, last: Heap, u: Heap)
    requires SameSlots(u, last)
    ensures DeletesExist(ws, u) <==> DeletesExist(ws, last)
  {}

  lemma UndoKeepsSlots(h: Heap, w: WriteRecord)
    requires CanUndo(h, w)
    ensures SameSlots(Undo(h, w), h)
  {}

  lemma {:induction false} UndoneExist(h: Heap, ws: seq<WriteRecord>, n: nat, i: nat)
    requires n <= |ws| && CanUndoFirst(h, ws, n) && i < n && ws[i].Deleted?
    ensures Exists(h, ws[i].rid)
    decreases n
  {
    if i < n - 1 {
      UndoKeepsSlots(h, ws[n - 1]);
      UndoneExist(Undo(h, ws[n - 1]), ws, n - 1, i);
    }
  }

  // The abort of a legal run goes through exactly when every recorded delete names a slot that exists
  // at the end of the run.
  lemma AbortEndsIff(h: Heap, aborted: bool, ops: seq<HeapOp>)
    requires SolidHeap(h) && LegalRun(h, ops)
    ensures var last, ws := Final(h, ops), WriteSet(h, aborted, ops);
            CanUndoAll(last, ws) <==> DeletesExist(ws, last)
  {
    var last, ws := Final(h, ops), WriteSet(h, aborted, ops);
    if DeletesExist(ws, last) {
      UndoLoose(h, aborted, ops);
    }
    if CanUndoAll(last, ws) {
      forall i | 0 <= i < |ws| && ws[i].Deleted? ensures Exists(last, ws[i].rid) {
        UndoneExist(last, ws, |ws|, i);
      }
    }
  }
}
