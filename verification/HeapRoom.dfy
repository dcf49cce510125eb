/**
 When the tuples that a run changed fit back into their pages, told by the room that the pages had
 during the run. Slots are never given back, so the slots that the run added are lost.
 */
module HeapRoom {
  import opened SlottedPage
  import opened CellPage
  import opened HeapUndo
  import opened HeapAbort

  // --- loads of pages ---

  lemma {:induction false} LoadAtMost(was: seq<Cell>, now: seq<Cell>)
    requires |was| <= |now| && forall k :: 0 <= k < |was| ==> CellLength(now[k]) <= CellLength(was[k])
    requires forall k :: |was| <= k < |now| ==> now[k].Empty?
    ensures Load(now) <= Load(was)
  {
    if was == [] {
      EmptyLoad(now);
    } else {
      LoadAtMost(was[1..], now[1..]);
    }
  }

  lemma {:induction false} SameLoad(was: seq<Cell>, now: seq<Cell>)
    requires |was| <= |now| && forall k :: 0 <= k < |was| ==> CellLength(now[k]) == CellLength(was[k])
    requires forall k :: |was| <= k < |now| ==> now[k].Empty?
    ensures Load(now) == Load(was)
  {
    if was == [] {
      EmptyLoad(now);
    } else {
      SameLoad(was[1..], now[1..]);
    }
  }

  // A page has room for the slots that it gets until last.
  predicate LeavesRoom(h: Heap, last: Heap, p: nat) {
    Room(PageAt(h, p)) >= SLOT_SIZE * (|PageAt(last, p)| - |PageAt(h, p)|)
  }

  // --- no page is ever over its size ---

  lemma StaysRoomy(h: Heap, op: HeapOp)
    requires Roomy(h)
    ensures Roomy(Do(h, op))
  {
    match op
    case Insert(b) =>
      if !TooLarge(b) {
        var i := FirstFit(h, |b|);
        FreshPageAccepts(b);
        AcceptsIff(PageAt(h, i), b);
      }
    case MarkDelete(r) =>
      if r.page < |h| && r.slot < |h[r.page]| {
        LoadUpdate(h[r.page], r.slot, Marked(BytesOf(h[r.page][r.slot])));
      }
    case Update(r, b) =>
      if r.page < |h| {
        ReplaceIff(h[r.page], r.slot, b);
      }
  }

  lemma {:induction false} RunRoomy(h: Heap, ops: seq<HeapOp>)
    requires Roomy(h)
    ensures Roomy(Final(h, ops))
    decreases |ops|
  {
    if ops != [] {
      StaysRoomy(h, ops[0]);
      RunRoomy(Do(h, ops[0]), ops[1..]);
    }
  }

  lemma UndoRoomy(h: Heap, w: WriteRecord)
    requires Roomy(h) && CanUndo(h, w)
    ensures Roomy(Undo(h, w))
  {
    var r := w.rid;
    if r.slot < |h[r.page]| {
      var c := h[r.page][r.slot];
      LoadUpdate(h[r.page], r.slot, match w
                                    case Inserted(_) => Empty
                                    case Deleted(_) => Live(BytesOf(c))
                                    case Updated(_, was) => Live(was));
    }
  }

  lemma {:induction false} AbortRoomy(h: Heap, ws: seq<WriteRecord>, n: nat)
    requires Roomy(h) && n <= |ws| && CanUndoFirst(h, ws, n)
    ensures Roomy(UndoFirst(h, ws, n))
    decreases n
  {
    if n > 0 {
      UndoRoomy(h, ws[n - 1]);
      AbortRoomy(Undo(h, ws[n - 1]), ws, n - 1);
    }
  }

  // Whatever the run was: only a page that had room for the slots added since can be restored.
  lemma RestoredNeedsRoom(h: Heap, ops: seq<HeapOp>, p: nat)
    requires SolidHeap(h) && Roomy(h) && LegalRun(h, ops) && p < |h|
    requires DeletesExist(WriteSet(h, false, ops), Final(h, ops))
    ensures var last, ws := Final(h, ops), WriteSet(h, false, ops);
            CanUndoAll(last, ws) && (Restored(h, UndoAll(last, ws)) ==> LeavesRoom(h, last, p))
  {
    var last, ws := Final(h, ops), WriteSet(h, false, ops);
    UndoLoose(h, false, ops);
    RunRoomy(h, ops);
    AbortRoomy(last, ws, |ws|);
    var u := UndoAll(last, ws);
    if Restored(h, u) {
      assert PageAt(h, p) <= u[p];
      SameLoad(h[p], u[p]);
    }
  }

  // --- runs without a failed insert: no tuple is longer than it was ---

  // Every tuple of u is at most as long as in h.
  ghost predicate Lighter(u: Heap, h: Heap) {
    forall r {:trigger Held(u, r)} :: CellLength(Held(u, r)) <= CellLength(Held(h, r))
  }

  // A refused undo leaves a tuple that is shorter than the old one.
  lemma StepLighter(h: Heap, op: HeapOp, u: Heap, r: Rid)
    requires Roomy(u) && Loose(Do(h, op), u) && Lighter(u, Do(h, op)) && !Fails(op)
    requires CanUndoAll(u, Record(h, false, op))
    ensures CellLength(Held(UndoAll(u, Record(h, false, op)), r)) <= CellLength(Held(h, r))
  {
    var first := Record(h, false, op);
    assert CellLength(Held(u, r)) <= CellLength(Held(Do(h, op), r));
    if first != [] {
      assert first == [first[0]];
      UndoOne(u, first[0]);
    }
    if r == Target(h, op) {
      TargetHeld(h, op);
      if Updates(h, op) {
        assert LoosePage(PageAt(Do(h, op), r.page), u[r.page]);
      }
    } else {
      OthersHeld(h, op, r);
    }
  }

  lemma {:induction false} RunLighter(h: Heap, ops: seq<HeapOp>)
    requires SolidHeap(h) && Roomy(h) && LegalRun(h, ops) && !AbortedBy(false, ops)
    requires DeletesExist(WriteSet(h, false, ops), Final(h, ops))
    ensures var last, ws := Final(h, ops), WriteSet(h, false, ops);
            CanUndoAll(last, ws) && Roomy(UndoAll(last, ws)) && Lighter(UndoAll(last, ws), h)
    decreases |ops|
  {
    if ops == [] {
      assert UndoAll(h, []) == h;
    } else {
      var op, rest := ops[0], ops[1..];
      var h1, u := PlainStep(h, ops);
      StaysRoomy(h, op);
      RunLighter(h1, rest);
      var first := Record(h, false, op);
      AbortRoomy(u, first, |first|);
      forall r ensures CellLength(Held(UndoAll(u, first), r)) <= CellLength(Held(h, r)) {
        StepLighter(h, op, u, r);
      }
    }
  }

  // The abort of a run is the abort of its rest and then the undo of its first operation.
  lemma PlainStep(h: Heap, ops: seq<HeapOp>) returns (h1: Heap, u: Heap)
    requires SolidHeap(h) && LegalRun(h, ops) && !AbortedBy(false, ops) && ops != []
    requires DeletesExist(WriteSet(h, false, ops), Final(h, ops))
    ensures h1 == Do(h, ops[0]) && SolidHeap(h1) && LegalRun(h1, ops[1..])
    ensures !Fails(ops[0]) && !AbortedBy(false, ops[1..])
    ensures var last, ws, first := Final(h, ops), WriteSet(h1, false, ops[1..]), Record(h, false, ops[0]);
            && last == Final(h1, ops[1..]) && WriteSet(h, false, ops) == first + ws && DeletesExist(ws, last)
            && CanUndoAll(last, ws) && u == UndoAll(last, ws) && Loose(h1, u) && SameSlots(u, last)
            && CanUndoAll(u, first) && CanUndoAll(last, first + ws) && UndoAll(last, first + ws) == UndoAll(u, first)
  {
    h1 := Do(h, ops[0]);
    var last, ws, first := Final(h, ops), WriteSet(h1, false, ops[1..]), Record(h, false, ops[0]);
    AbortedStep(false, ops);
    assert !Fails(ops[0]);
    ExistParts(first, ws, last);
    StaysSolid(h, ops[0]);
    UndoLoose(h1, false, ops[1..]);
    u := UndoAll(last, ws);
    ExistSame(first, last, u);
    LooseOne(h, false, ops[0], u);
    UndoJoin(last, first, ws);
  }

  // --- the first update of a tuple ---

  // The heap in which the run first updates r, or the last one.
  function AtUpdate(h: Heap, ops: seq<HeapOp>, r: Rid): Heap
    decreases |ops|
  {
    if ops == [] || (Updates(h, ops[0]) && ops[0].rid == r) then h else AtUpdate(Do(h, ops[0]), ops[1..], r)
  }

  lemma FitsIffRoom(us: seq<Cell>, k: nat, c: Cell)
    requires k < |us| && us[k].Live? && !c.Empty?
    ensures CanReplace(us, k, |c.bytes|) <==> Room(us[k := c]) >= 0
  {
    LoadUpdate(us, k, c);
  }

  // With no tuple of the page longer than it was, its old tuple fits back if there is room for the
  // new slots.
  lemma LightFits(h: Heap, op: HeapOp, u: Heap)
    requires Updates(h, op) && Loose(Do(h, op), u) && Lighter(u, Do(h, op)) && LeavesRoom(h, u, op.rid.page)
    ensures PutsBack(u, Record(h, false, op)[0])
  {
    var r, h1 := op.rid, Do(h, op);
    var cs, us := h[r.page], u[r.page];
    assert LoosePage(PageAt(h1, r.page), us);
    var vs := us[r.slot := cs[r.slot]];
    forall k | 0 <= k < |cs| ensures CellLength(vs[k]) <= CellLength(cs[k]) {
      assert CellLength(Held(u, Rid(r.page, k))) <= CellLength(Held(h1, Rid(r.page, k)));
    }
    LoadAtMost(cs, vs);
    FitsIffRoom(us, r.slot, cs[r.slot]);
  }

  predicate FirstFitsBack(last: Heap, ws: seq<WriteRecord>, r: Rid)
    requires CanUndoAll(last, ws)
  {
    var i := FirstUpdate(ws, r);
    i < |ws| ==> FitsBack(last, ws, i)
  }

  lemma FirstFitsShift(last: Heap, first: seq<WriteRecord>, ws: seq<WriteRecord>, r: Rid)
    requires CanUndoAll(last, ws) && CanUndoAll(last, first + ws) && FirstUpdate(first, r) == |first|
    ensures FirstFitsBack(last, first + ws, r) <==> FirstFitsBack(last, ws, r)
  {
    FirstUpdateConcat(first, ws, r);
    if FirstUpdate(ws, r) < |ws| {
      FitsShift(last, first, ws, FirstUpdate(ws, r));
    }
  }

  lemma {:induction false} FirstFits(h: Heap, ops: seq<HeapOp>, r: Rid)
    requires SolidHeap(h) && Roomy(h) && LegalRun(h, ops) && !AbortedBy(false, ops)
    requires DeletesExist(WriteSet(h, false, ops), Final(h, ops))
    requires LeavesRoom(AtUpdate(h, ops, r), Final(h, ops), r.page)
    ensures var last, ws := Final(h, ops), WriteSet(h, false, ops);
            CanUndoAll(last, ws) && FirstFitsBack(last, ws, r)
    decreases |ops|
  {
    if ops != [] {
      var op, rest := ops[0], ops[1..];
      var h1, u := PlainStep(h, ops);
      var last, ws, first := Final(h, ops), WriteSet(h1, false, rest), Record(h, false, op);
      StaysRoomy(h, op);
      if Updates(h, op) && op.rid == r {
        RunLighter(h1, rest);
        LightFits(h, op, u);
        FitsHead(last, first[0], ws);
      } else {
        FirstFits(h1, rest, r);
        NotFirst(h, op, r);
        FirstFitsShift(last, first, ws, r);
      }
    }
  }

  lemma NotFirst(h: Heap, op: HeapOp, r: Rid)
    requires !(Updates(h, op) && op.rid == r)
    ensures FirstUpdate(Record(h, false, op), r) == |Record(h, false, op)|
  {
    var first := Record(h, false, op);
    if first != [] {
      assert first[1..] == [];
    }
  }

  // A tuple without a recorded update has kept its bytes.
  lemma {:induction false} PlainBytes(h: Heap, ops: seq<HeapOp>, r: Rid)
    requires !AbortedBy(false, ops) && !Held(h, r).Empty?
    ensures var ws := WriteSet(h, false, ops);
            FirstUpdate(ws, r) == |ws| ==> BytesOf(Held(Final(h, ops), r)) == BytesOf(Held(h, r))
    decreases |ops|
  {
    if ops != [] {
      var h1, first := Do(h, ops[0]), Record(h, false, ops[0]);
      AbortedStep(false, ops);
      StaysHeld(h, ops[0], r);
      OneRecord(h, false, ops[0], r);
      FirstUpdateConcat(first, WriteSet(h1, false, ops[1..]), r);
      PlainBytes(h1, ops[1..], r);
    }
  }

  // Every tuple that the run changed was on a page with room for the slots added since, when it was
  // changed first.
  ghost predicate FirstsLeaveRoom(h: Heap, ops: seq<HeapOp>) {
    forall r :: Changed(h, ops, r) ==> LeavesRoom(AtUpdate(h, ops, r), Final(h, ops), r.page)
  }

  // The run has a recorded update of a tuple of h in r.
  predicate Changed(h: Heap, ops: seq<HeapOp>, r: Rid) {
    var ws := WriteSet(h, false, ops);
    !Held(h, r).Empty? && FirstUpdate(ws, r) < |ws|
  }

  // Then the abort undoes a run without a failed insert.
  lemma AbortRestores(h: Heap, ops: seq<HeapOp>)
    requires SolidHeap(h) && NoMarks(h) && Roomy(h) && LegalRun(h, ops) && !AbortedBy(false, ops)
    requires DeletesExist(WriteSet(h, false, ops), Final(h, ops)) && FirstsLeaveRoom(h, ops)
    ensures var last, ws := Final(h, ops), WriteSet(h, false, ops);
            CanUndoAll(last, ws) && Restored(h, UndoAll(last, ws))
  {
    var last, ws := Final(h, ops), WriteSet(h, false, ops);
    AbortRestoresIff(h, ops);
    forall r | !Held(h, r).Empty? ensures ComesBack(h, ws, last, r) {
      if Changed(h, ops, r) {
        FirstFits(h, ops, r);
      } else {
        PlainBytes(h, ops, r);
      }
    }
  }

  lemma AbortOutcome(h: Heap, ops: seq<HeapOp>) returns (u: Heap)
    requires SolidHeap(h) && NoMarks(h) && Roomy(h) && LegalRun(h, ops)
    requires DeletesExist(WriteSet(h, false, ops), Final(h, ops))
    ensures var last, ws := Final(h, ops), WriteSet(h, false, ops);
            && CanUndoAll(last, ws) && u == UndoAll(last, ws)
            && (Restored(h, u) <==> AllComeBack(h, ws, last))
    ensures !AbortedBy(false, ops) && FirstsLeaveRoom(h, ops) ==> Restored(h, u)
  {
    AbortRestoresIff(h, ops);
    u := UndoAll(Final(h, ops), WriteSet(h, false, ops));
    if !AbortedBy(false, ops) && FirstsLeaveRoom(h, ops) {
      AbortRestores(h, ops);
    }
  }

  // No page was fuller than before the run when one of its tuples was changed first.
  ghost predicate FirstsUngrown(h: Heap, ops: seq<HeapOp>) {
    forall r :: Changed(h, ops, r) ==> Load(PageAt(AtUpdate(h, ops, r), r.page)) <= Load(PageAt(h, r.page))
  }

  // Then a run without a failed insert is undone exactly when every page with a changed tuple had
  // room for the slots added to it.
  lemma RestoredIffRoom(h: Heap, ops: seq<HeapOp>)
    requires SolidHeap(h) && NoMarks(h) && Roomy(h) && LegalRun(h, ops) && !AbortedBy(false, ops)
    requires DeletesExist(WriteSet(h, false, ops), Final(h, ops)) && FirstsUngrown(h, ops)
    ensures var last, ws := Final(h, ops), WriteSet(h, false, ops);
            && CanUndoAll(last, ws)
            && (Restored(h, UndoAll(last, ws)) <==> forall r :: Changed(h, ops, r) ==> LeavesRoom(h, last, r.page))
  {
    var last, ws := Final(h, ops), WriteSet(h, false, ops);
    AbortEndsIff(h, false, ops);
    if Restored(h, UndoAll(last, ws)) {
      forall r | Changed(h, ops, r) ensures LeavesRoom(h, last, r.page) {
        RestoredNeedsRoom(h, ops, r.page);
      }
    }
    if forall r :: Changed(h, ops, r) ==> LeavesRoom(h, last, r.page) {
      forall r | Changed(h, ops, r) ensures LeavesRoom(AtUpdate(h, ops, r), last, r.page) {
        assert LeavesRoom(h, last, r.page);
      }
      AbortRestores(h, ops);
    }
  }

  // --- when every update fits back ---

  ghost predicate AllFit(last: Heap, ws: seq<WriteRecord>) {
    CanUndoAll(last, ws) && forall j :: 0 <= j < |ws| && ws[j].Updated? ==> FitsBack(last, ws, j)
  }

  // Every update of the run was on a page with room for the slots added since.
  predicate UpdatesLeaveRoom(h: Heap, ops: seq<HeapOp>, last: Heap)
    decreases |ops|
  {
    ops == [] || ((Updates(h, ops[0]) ==> LeavesRoom(h, last, ops[0].rid.page))
                  && UpdatesLeaveRoom(Do(h, ops[0]), ops[1..], last))
  }

  lemma AllFitParts(last: Heap, first: seq<WriteRecord>, ws: seq<WriteRecord>)
    requires CanUndoAll(last, ws) && CanUndoAll(last, first + ws) && |first| <= 1
    ensures AllFit(last, first + ws) <==>
            AllFit(last, ws) && (|first| == 1 && first[0].Updated? ==> PutsBack(UndoAll(last, ws), first[0]))
  {
    var all := first + ws;
    forall j | 0 <= j < |ws|
      ensures all[|first| + j] == ws[j] && FitsBack(last, all, |first| + j) == FitsBack(last, ws, j)
    {
      FitsShift(last, first, ws, j);
    }
    if |first| == 1 && first[0].Updated? {
      assert first == [first[0]];
      FitsHead(last, first[0], ws);
    }
    if AllFit(last, all) {
      forall j | 0 <= j < |ws| && ws[j].Updated? ensures FitsBack(last, ws, j) {
        assert all[|first| + j].Updated?;
      }
    }
    if AllFit(last, ws) {
      forall j | |first| <= j < |all| && all[j].Updated? ensures FitsBack(last, all, j) {
        assert all[j] == ws[j - |first|];
      }
    }
  }

  // If all updates fit back, all tuples have their old bytes again.
  lemma FitBytes(h: Heap, ops: seq<HeapOp>, r: Rid)
    requires SolidHeap(h) && LegalRun(h, ops) && !AbortedBy(false, ops)
    requires DeletesExist(WriteSet(h, false, ops), Final(h, ops)) && AllFit(Final(h, ops), WriteSet(h, false, ops))
    ensures CellLength(Held(UndoAll(Final(h, ops), WriteSet(h, false, ops)), r)) == CellLength(Held(h, r))
  {
    var last, ws := Final(h, ops), WriteSet(h, false, ops);
    AbortReaches(h, false, ops, r);
    if !Held(h, r).Empty? {
      BytesFromFirst(last, ws, r);
      TupleRecords(h, false, ops, r);
      PlainBytes(h, ops, r);
    }
  }

  lemma EvenFitsIff(h: Heap, op: HeapOp, u: Heap)
    requires Updates(h, op) && Loose(Do(h, op), u)
    requires forall r {:trigger Held(u, r)} :: CellLength(Held(u, r)) == CellLength(Held(Do(h, op), r))
    ensures PutsBack(u, Record(h, false, op)[0]) <==> LeavesRoom(h, u, op.rid.page)
  {
    var r, h1 := op.rid, Do(h, op);
    var cs, us := h[r.page], u[r.page];
    assert LoosePage(PageAt(h1, r.page), us);
    var vs := us[r.slot := cs[r.slot]];
    forall k | 0 <= k < |cs| ensures CellLength(vs[k]) == CellLength(cs[k]) {
      assert CellLength(Held(u, Rid(r.page, k))) == CellLength(Held(h1, Rid(r.page, k)));
    }
    SameLoad(cs, vs);
    FitsIffRoom(us, r.slot, cs[r.slot]);
  }

  // Without a failed insert no undo is refused exactly when every update left room.
  lemma {:induction false} AllFitIff(h: Heap, ops: seq<HeapOp>)
    requires SolidHeap(h) && LegalRun(h, ops) && !AbortedBy(false, ops)
    requires DeletesExist(WriteSet(h, false, ops), Final(h, ops))
    ensures var last, ws := Final(h, ops), WriteSet(h, false, ops);
            AllFit(last, ws) <==> UpdatesLeaveRoom(h, ops, last)
    decreases |ops|
  {
    if ops != [] {
      var op, rest := ops[0], ops[1..];
      var h1, u := PlainStep(h, ops);
      var last, ws, first := Final(h, ops), WriteSet(h1, false, rest), Record(h, false, op);
      AllFitIff(h1, rest);
      AllFitParts(last, first, ws);
      if AllFit(last, ws) && Updates(h, op) {
        forall r ensures CellLength(Held(u, r)) == CellLength(Held(h1, r)) {
          FitBytes(h1, rest, r);
        }
        EvenFitsIff(h, op, u);
        assert |PageAt(u, op.rid.page)| == |PageAt(last, op.rid.page)|;
      }
    }
  }

  // On a full page, a tuple that shrinks before another is inserted beside it cannot grow back.
  lemma AbortNeedsRoom(big: seq<byte>, small: seq<byte>, b: seq<byte>)
    requires |big| == PAGE_SIZE - HEADER_SIZE - SLOT_SIZE && |small| == |b| == 1
    ensures var h: Heap, ops := [[Live(big)]], [Update(Rid(0, 0), small)] + [Insert(b)];
            && NoMarks(h) && CanUndoAll(Final(h, ops), WriteSet(h, false, ops))
            && !Restored(h, UndoAll(Final(h, ops), WriteSet(h, false, ops)))
  {
    var h: Heap, op, rest := [[Live(big)]], Update(Rid(0, 0), small), [Insert(b)];
    var cs := h[0];
    assert cs[1..] == [];
    LoadUpdate(cs, 0, Live(small));
    var h1 := Do(h, op);
    assert h1[0] == cs[0 := Live(small)];
    assert FirstFree(h1[0]) == 1;
    assert FirstFit(h1, 1) == 0;
    var h2 := Do(h1, rest[0]);
    assert |h2[0]| == 2;
    assert rest[1..] == [];
    assert Final(h1, rest) == h2 && LegalRun(h1, rest);
    assert WriteSet(h1, false, rest) == Record(h1, false, rest[0]);
    ConsRun(h, op, rest);
    RestoredNeedsRoom(h, [op] + rest, 0);
  }

  // One tuple that fills the page and shrinks again, and a second one beside it.
  lemma GrowAndShrink(a: seq<byte>, big: seq<byte>, small: seq<byte>, b: seq<byte>)
    requires |a| == 10 && |big| == PAGE_SIZE - HEADER_SIZE - SLOT_SIZE && |small| == 1 && |b| == 471
    ensures var r := Rid(0, 0);
            var h: Heap, h1: Heap, rest := [[Live(a)]], [[Live(big)]], [Update(r, small), Insert(b)];
            && Updates(h, Update(r, big)) && Do(h, Update(r, big)) == h1 && Legal(h, Update(r, big))
            && Updates(h1, rest[0]) && LegalRun(h1, rest) && Final(h1, rest) == [[Live(small), Live(b)]]
            && WriteSet(h1, false, rest) == [Updated(r, big), Inserted(Rid(0, 1))]
  {
    var r := Rid(0, 0);
    var rest := [Update(r, small), Insert(b)];
    var h, h1, h2, h3: Heap := [[Live(a)]], [[Live(big)]], [[Live(small)]], [[Live(small), Live(b)]];
    OneTuple(a);
    OneTuple(big);
    OneTuple(small);
    assert Do(h, Update(r, big)) == h1 by {
      assert h[0][0 := Live(big)] == h1[0];
    }
    assert Do(h1, rest[0]) == h2 by {
      assert h1[0][0 := Live(small)] == h2[0];
    }
    assert FirstFree(h2[0]) == 1 && FirstFit(h2, |b|) == 0;
    assert Do(h2, rest[1]) == h3 by {
      assert h2[0] + [Live(b)] == h3[0];
    }
    assert rest[1..] == [Insert(b)] && rest[1..][1..] == [];
    assert Final(h2, rest[1..]) == h3 && LegalRun(h2, rest[1..]);
    assert WriteSet(h2, false, rest[1..]) == Record(h2, false, rest[1]) + [];
  }

  // The undo of its second update is refused, that of the first one restores the tuple.
  lemma RefusedYetRestored(a: seq<byte>, big: seq<byte>, small: seq<byte>, b: seq<byte>)
    requires |a| == 10 && |big| == PAGE_SIZE - HEADER_SIZE - SLOT_SIZE && |small| == 1 && |b| == 471
    ensures var r := Rid(0, 0);
            var h: Heap, ops := [[Live(a)]], [Update(r, big)] + [Update(r, small), Insert(b)];
            && CanUndoAll(Final(h, ops), WriteSet(h, false, ops)) && !AllFit(Final(h, ops), WriteSet(h, false, ops))
            && Restored(h, UndoAll(Final(h, ops), WriteSet(h, false, ops)))
  {
    var r := Rid(0, 0);
    var h: Heap, h1: Heap, op, rest := [[Live(a)]], [[Live(big)]], Update(r, big), [Update(r, small), Insert(b)];
    var ops := [op] + rest;
    GrowAndShrink(a, big, small, b);
    ConsRun(h, op, rest);
    assert ops[1..] == rest;
    OneTuple(a);
    OneTuple(big);
    assert !UpdatesLeaveRoom(h1, rest, Final(h, ops));
    AllFitIff(h, ops);
    forall s | Changed(h, ops, s) ensures LeavesRoom(AtUpdate(h, ops, s), Final(h, ops), s.page) {
      assert s == r && AtUpdate(h, ops, s) == h;
    }
    AbortRestores(h, ops);
  }

  lemma OneTuple(b: seq<byte>)
    ensures Room([Live(b)]) == PAGE_SIZE - HEADER_SIZE - SLOT_SIZE - |b|
  {
    var cs := [Live(b)];
    assert cs[1..] == [] && Load(cs) == CellLength(cs[0]) + Load(cs[1..]);
  }
}
