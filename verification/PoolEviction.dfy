/**
 Which page leaves the buffer pool: none while a frame is free, and then the one whose last pin was
 given back longest ago.
 */
module PoolEviction {
  import opened LruReplacers
  import opened Options
  import opened PoolModel
  import opened BufferPools
  import opened PoolRuns
  import opened PoolLaws

  // The operation gives back the last pin on the page in frame f.
  ghost predicate LastPinGone<D>(p: Pool<D>, op: Op<D>, f: int)
    requires Framed(p)
  {
    op.Done? && op.pid in p.table && p.table[op.pid] == f && Pins(p, op.pid) == 1
  }

  // The latest of the first n steps that gave back the last pin on frame f, counted from 1; 0 if none.
  ghost function Stamp<D>(run: seq<Pool<D>>, ops: seq<Op<D>>, n: nat, f: int): nat
    requires IsRun(run, ops) && n <= |ops|
  {
    if n == 0 then 0
    else
      RunFramed(run, ops, n - 1);
      if LastPinGone(run[n - 1], ops[n - 1], f) then n else Stamp(run, ops, n - 1, f)
  }

  lemma {:induction false} StampBound<D>(run: seq<Pool<D>>, ops: seq<Op<D>>, n: nat, f: int)
    requires IsRun(run, ops) && n <= |ops|
    ensures Stamp(run, ops, n, f) <= n
  {
    if n > 0 {
      StampBound(run, ops, n - 1, f);
    }
  }

  // The replacement order goes from the newest stamp to the oldest.
  ghost predicate Newest<D>(run: seq<Pool<D>>, ops: seq<Op<D>>, n: nat, order: seq<int>)
    requires IsRun(run, ops) && n <= |ops|
  {
    forall i, j :: 0 <= i < j < |order| ==> Stamp(run, ops, n, order[i]) > Stamp(run, ops, n, order[j])
  }

  lemma NewestWithout<D>(run: seq<Pool<D>>, ops: seq<Op<D>>, n: nat, order: seq<int>, f: int)
    requires IsRun(run, ops) && n <= |ops| && Newest(run, ops, n, order)
    ensures Newest(run, ops, n, Drop(order, f))
  {
    var r := Drop(order, f);
    if f in order {
      var k := IndexOf(order, f);
      forall i, j | 0 <= i < j < |r| ensures Stamp(run, ops, n, r[i]) > Stamp(run, ops, n, r[j]) {
        assert r[i] == order[Skip(k, i)] && r[j] == order[Skip(k, j)];
      }
    }
  }

  // What a step does to the order: a frame whose last pin is gone comes to the front, a frame that is
  // fetched or reused leaves.
  lemma OrderStep<D>(p: Pool<D>, op: Op<D>) returns (f: int)
    requires Framed(p) && Allowed(p, op)
    ensures var q := Step(p, op);
            if LastPinGone(p, op, f) then f !in p.order && q.order == [f] + p.order
            else (forall g :: !LastPinGone(p, op, g)) &&
                 (q.order == Drop(p.order, f) || (p.order != [] && q.order == p.order[..|p.order| - 1]))
  {
    f := -1;
    assert f !in p.order;
    if (op.Get? || op.Done?) && op.pid in p.table {
      assert EntryOK(p, op.pid);
      f := p.table[op.pid];
      assert FrameOK(p, f);
    }
    if (op.Put? || op.Sync?) && op.pid in p.table {
      assert EntryOK(p, op.pid);
    }
    if op.Done? && !LastPinGone(p, op, f) {
      f := -1;
    }
  }

  lemma {:induction false} OrderIsAge<D>(run: seq<Pool<D>>, ops: seq<Op<D>>, n: nat)
    requires IsRun(run, ops) && n <= |ops| && run[0].order == []
    ensures Newest(run, ops, n, run[n].order)
  {
    if n > 0 {
      OrderIsAge(run, ops, n - 1);
      RunFramed(run, ops, n - 1);
      var p, op := run[n - 1], ops[n - 1];
      var f := OrderStep(p, op);
      NewestWithout(run, ops, n - 1, p.order, f);
      var order := run[n].order;
      forall i, j | 0 <= i < j < |order| ensures Stamp(run, ops, n, order[i]) > Stamp(run, ops, n, order[j]) {
        if LastPinGone(p, op, f) {
          assert order == [f] + p.order;
          StampBound(run, ops, n - 1, order[j]);
        }
      }
    }
  }

  // A page leaves the pool only when no frame is free, it is not pinned, and every other page that is
  // not pinned has given back its last pin later.
  lemma EvictsOldest<D>(run: seq<Pool<D>>, ops: seq<Op<D>>, n: nat, x: int, y: int)
    requires IsRun(run, ops) && n < |ops| && run[0].order == []
    requires Framed(run[n]) && x in run[n].table && x !in run[n + 1].table
    ensures run[n].free == [] && Balance(run, ops, n, x) == 0
    ensures y in run[n].table && y != x && Balance(run, ops, n, y) == 0 ==>
              Stamp(run, ops, n, run[n].table[y]) > Stamp(run, ops, n, run[n].table[x])
  {
    RunFramed(run, ops, n);
    PinsCounted(run, ops, n, x);
    PinsCounted(run, ops, n, y);
    OrderIsAge(run, ops, n);
    var p, op := run[n], ops[n];
    Evicted(p, op, x);
    if y in p.table && y != x && Pins(p, y) == 0 {
      assert EntryOK(p, x) && EntryOK(p, y);
      assert FrameOK(p, p.table[y]);
      var i :| 0 <= i < |p.order| && p.order[i] == p.table[y];
      assert i != |p.order| - 1;
    }
  }

  lemma Evicted<D>(p: Pool<D>, op: Op<D>, x: int)
    requires Framed(p) && Allowed(p, op) && x in p.table && x !in Step(p, op).table
    ensures p.free == [] && p.order != [] && p.table[x] == p.order[|p.order| - 1] && Pins(p, x) == 0
  {
    assert EntryOK(p, x);
    if Victim(p).Some? {
      VictimFrame(p);
      assert FrameOK(p, Victim(p).value) && FrameOK(p, p.table[x]);
    }
  }

  // --- new pages ---

  // A new page is zeros, and no two get the same id.
  lemma NewPagesDiffer<D>(run: seq<Pool<D>>, ops: seq<Op<D>>, m: nat, n: nat)
    requires IsRun(run, ops) && m < n < |ops| && Framed(run[m]) && Framed(run[n])
    requires Renewed(run[m], ops[m], run[m].nextPageId) && Renewed(run[n], ops[n], run[n].nextPageId)
    ensures run[m].nextPageId < run[n].nextPageId
    ensures var x, q := run[n].nextPageId, run[n + 1];
            Framed(q) && x in q.table && Bytes(q, x) == run[n].zero && Pins(q, x) == 1 && !Dirty(q, x)
  {
    RunFramed(run, ops, m);
    CounterGrows(run, ops, m + 1, n);
    RunFramed(run, ops, n);
    RunFramed(run, ops, n + 1);
    VictimFrame(run[n]);
    assert EntryOK(run[n + 1], run[n].nextPageId);
  }

  lemma {:induction false} CounterGrows<D>(run: seq<Pool<D>>, ops: seq<Op<D>>, m: nat, n: nat)
    requires IsRun(run, ops) && m <= n <= |ops|
    ensures run[m].nextPageId <= run[n].nextPageId
    decreases n
  {
    if m < n {
      CounterGrows(run, ops, m, n - 1);
      RunFramed(run, ops, n - 1);
      var p, op := run[n - 1], ops[n - 1];
      if !op.Create? && op.pid in p.table {
        assert EntryOK(p, op.pid);
      }
    }
  }
}
