/**
 Commit removes the deleted tuples for good. It leaves the heap as its run left it, without the
 marked tuples, exactly when every delete of the run found a live tuple.
 */
module HeapCommit {
  import opened SlottedPage
  import opened CellPage
  import opened HeapUndo
  import opened HeapAbort

  predicate CanPurge(h: Heap, w: WriteRecord) {
    w.Deleted? ==> !Held(h, w.rid).Empty?
  }

  function Purge(h: Heap, w: WriteRecord): Heap
    requires CanPurge(h, w)
  {
    if w.Deleted? then h[w.rid.page := h[w.rid.page][w.rid.slot := Empty]] else h
  }

  predicate CanPurgeFirst(h: Heap, ws: seq<WriteRecord>, n: nat)
    requires n <= |ws|
    decreases n
  {
    n == 0 || (CanPurge(h, ws[n - 1]) && CanPurgeFirst(Purge(h, ws[n - 1]), ws, n - 1))
  }

  function PurgeFirst(h: Heap, ws: seq<WriteRecord>, n: nat): Heap
    requires n <= |ws| && CanPurgeFirst(h, ws, n)
    decreases n
  {
    if n == 0 then h else PurgeFirst(Purge(h, ws[n - 1]), ws, n - 1)
  }

  predicate CanPurgeAll(h: Heap, ws: seq<WriteRecord>) {
    CanPurgeFirst(h, ws, |ws|)
  }

  function PurgeAll(h: Heap, ws: seq<WriteRecord>): Heap
    requires CanPurgeAll(h, ws)
  {
    PurgeFirst(h, ws, |ws|)
  }

  // Number of deletes of r among the first n records.
  function DeletesIn(ws: seq<WriteRecord>, n: nat, r: Rid): nat
    requires n <= |ws|
  {
    if n == 0 then 0 else DeletesIn(ws, n - 1, r) + (if ws[n - 1] == Deleted(r) then 1 else 0)
  }

  function Deletes(ws: seq<WriteRecord>, r: Rid): nat {
    DeletesIn(ws, |ws|, r)
  }

  function Marks(h: Heap, r: Rid): nat {
    if Held(h, r).Marked? then 1 else 0
  }

  predicate Idle(h: Heap, op: HeapOp, r: Rid) {
    op == MarkDelete(r) && r.page < |h| && !Held(h, r).Live?
  }

  // Number of deletes of r that found no live tuple.
  function IdleDeletes(h: Heap, ops: seq<HeapOp>, r: Rid): nat
    decreases |ops|
  {
    if ops == [] then 0 else (if Idle(h, ops[0], r) then 1 else 0) + IdleDeletes(Do(h, ops[0]), ops[1..], r)
  }

  lemma {:induction false} DeletesConcat(a: seq<WriteRecord>, b: seq<WriteRecord>, n: nat, r: Rid)
    requires n <= |a| + |b|
    ensures DeletesIn(a + b, n, r) == if n <= |a| then DeletesIn(a, n, r) else Deletes(a, r) + DeletesIn(b, n - |a|, r)
    decreases n
  {
    if n > 0 {
      DeletesConcat(a, b, n - 1, r);
    }
  }

  lemma DeletesOfOne(ws: seq<WriteRecord>, r: Rid)
    requires |ws| <= 1
    ensures Deletes(ws, r) == if |ws| == 1 && ws[0] == Deleted(r) then 1 else 0
  {
    if |ws| == 1 {
      assert DeletesIn(ws, 0, r) == 0;
    }
  }

  // Only a delete that finds a live tuple marks anything, and nothing loses its mark.
  lemma OneStep(h: Heap, aborted: bool, op: HeapOp, r: Rid)
    ensures Marks(Do(h, op), r) + (if Idle(h, op, r) then 1 else 0) == Marks(h, r) + Deletes(Record(h, aborted, op), r)
  {
    DeletesOfOne(Record(h, aborted, op), r);
    match op
    case Insert(b) =>
      if !TooLarge(b) {
        var i := FirstFit(h, |b|);
        assert Put(PageAt(h, i), b) == Do(h, op)[i];
      }
    case MarkDelete(s) =>
      if s.page < |h| {
        assert r != s ==> Held(Do(h, op), r) == Held(h, r);
      }
    case Update(s, b) =>
  }

  lemma {:induction false} MarksCounted(h: Heap, aborted: bool, ops: seq<HeapOp>, r: Rid)
    ensures Deletes(WriteSet(h, aborted, ops), r) + Marks(h, r) == Marks(Final(h, ops), r) + IdleDeletes(h, ops, r)
    decreases |ops|
  {
    if ops != [] {
      var h1, a1 := Do(h, ops[0]), aborted || Fails(ops[0]);
      OneStep(h, aborted, ops[0], r);
      MarksCounted(h1, a1, ops[1..], r);
      DeletesConcat(Record(h, aborted, ops[0]), WriteSet(h1, a1, ops[1..]), |WriteSet(h, aborted, ops)|, r);
    }
  }

  // --- what purging a write set does ---

  lemma {:induction false} PurgedCell(h: Heap, ws: seq<WriteRecord>, n: nat, r: Rid)
    requires n <= |ws| && CanPurgeFirst(h, ws, n)
    ensures DeletesIn(ws, n, r) <= if Held(h, r).Empty? then 0 else 1
    ensures Held(PurgeFirst(h, ws, n), r) == if DeletesIn(ws, n, r) > 0 then Empty else Held(h, r)
    ensures SameSlots(PurgeFirst(h, ws, n), h)
    decreases n
  {
    if n > 0 {
      PurgedCell(Purge(h, ws[n - 1]), ws, n - 1, r);
    }
  }

  lemma {:induction false} Purgeable(h: Heap, ws: seq<WriteRecord>, n: nat)
    requires n <= |ws| && forall r :: DeletesIn(ws, n, r) <= if Held(h, r).Empty? then 0 else 1
    ensures CanPurgeFirst(h, ws, n)
    decreases n
  {
    if n > 0 {
      assert DeletesIn(ws, n, ws[n - 1].rid) <= if Held(h, ws[n - 1].rid).Empty? then 0 else 1;
      var h1 := Purge(h, ws[n - 1]);
      forall r ensures DeletesIn(ws, n - 1, r) <= if Held(h1, r).Empty? then 0 else 1 {
        assert DeletesIn(ws, n, r) <= if Held(h, r).Empty? then 0 else 1;
      }
      Purgeable(h1, ws, n - 1);
    }
  }

  // The heap without its marked tuples.
  ghost predicate Swept(h: Heap, u: Heap) {
    && SameSlots(u, h)
    && forall r :: Held(u, r) == if Held(h, r).Marked? then Empty else Held(h, r)
  }

  ghost predicate AllDeletesLive(h: Heap, ops: seq<HeapOp>) {
    forall r :: IdleDeletes(h, ops, r) == 0
  }

  lemma CommitSweeps(h: Heap, aborted: bool, ops: seq<HeapOp>)
    requires NoMarks(h)
    ensures var last, ws := Final(h, ops), WriteSet(h, aborted, ops);
            CanPurgeAll(last, ws) && Swept(last, PurgeAll(last, ws)) <==> AllDeletesLive(h, ops)
  {
    var last, ws := Final(h, ops), WriteSet(h, aborted, ops);
    forall r ensures Deletes(ws, r) == Marks(last, r) + IdleDeletes(h, ops, r) {
      MarksCounted(h, aborted, ops, r);
    }
    if AllDeletesLive(h, ops) {
      forall r ensures Deletes(ws, r) <= if Held(last, r).Empty? then 0 else 1 {
        assert IdleDeletes(h, ops, r) == 0;
      }
      Purgeable(last, ws, |ws|);
    }
    if CanPurgeAll(last, ws) {
      forall r ensures Held(PurgeAll(last, ws), r) == if Deletes(ws, r) > 0 then Empty else Held(last, r)
        ensures Deletes(ws, r) <= (if Held(last, r).Empty? then 0 else 1) && SameSlots(PurgeAll(last, ws), last)
      {
        PurgedCell(last, ws, |ws|, r);
      }
      PurgedCell(last, ws, |ws|, Rid(0, 0));
      if Swept(last, PurgeAll(last, ws)) {
        forall r ensures IdleDeletes(h, ops, r) == 0 {
          assert Held(PurgeAll(last, ws), r) == if Held(last, r).Marked? then Empty else Held(last, r);
        }
      }
    }
  }

  // A delete of an empty slot is recorded too: commit removes a tuple inserted there since.
  lemma CommitLosesInsert(h: Heap, b: seq<byte>)
    requires b != [] && !TooLarge(b)
    requires var r := InsertRid(h, b); r.page < |h| && r.slot < |h[r.page]|
    ensures var r := InsertRid(h, b);
            var ops := [MarkDelete(r), Insert(b)];
            && Held(Final(h, ops), r) == Live(b) && CanPurgeAll(Final(h, ops), WriteSet(h, false, ops))
            && Held(PurgeAll(Final(h, ops), WriteSet(h, false, ops)), r) == Empty
  {
    var r := InsertRid(h, b);
    var ops := [MarkDelete(r), Insert(b)];
    assert Do(h, ops[0]) == h;
    assert ops[1..] == [Insert(b)] && ops[1..][1..] == [];
    assert Final(h, ops[1..]) == Do(h, Insert(b));
    var ws := WriteSet(h, false, ops);
    assert WriteSet(h, false, ops[1..]) == [Inserted(r)] + [];
    assert ws == [Deleted(r), Inserted(r)];
    PurgedCell(Final(h, ops), ws, 2, r);
  }
}
