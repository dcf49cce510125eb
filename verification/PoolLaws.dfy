/**
 Laws of the buffer pool over whole runs: pins are counted, a pinned page stays in its frame, and a
 dirty page stops being dirty only by being written to the file or by being called clean.
 */
module PoolLaws {
  import opened LruReplacers
  import opened Options
  import opened PoolModel
  import opened BufferPools
  import opened PoolRuns

  // --- pins ---

  // The id of page x is given to a new page.
  ghost predicate Renewed<D>(p: Pool<D>, op: Op<D>, x: int) {
    op == Create && x == p.nextPageId && Victim(p).Some?
  }

  // The operation gives a pin on page x.
  ghost predicate Pinned<D>(p: Pool<D>, op: Op<D>, x: int)
    requires Framed(p)
  {
    (op == Get(x) && (x in p.table || Victim(p).Some?)) || Renewed(p, op, x)
  }

  // A fetch or a new page adds one pin to its page, an unpin takes one away if there is one, and no
  // other page gains or loses a pin.
  lemma PinsStep<D>(p: Pool<D>, op: Op<D>, x: int)
    requires Framed(p) && Allowed(p, op)
    ensures var q := Step(p, op);
            && Framed(q)
            && Pins(q, x) == if Pinned(p, op, x) then Pins(p, x) + 1
                             else if op.Done? && op.pid == x && Pins(p, x) > 0 then Pins(p, x) - 1
                             else Pins(p, x)
  {
    StepFramed(p, op);
    var q := Step(p, op);
    if x in p.table {
      assert EntryOK(p, x) && FrameOK(p, p.table[x]);
    }
    if x in q.table {
      assert EntryOK(q, x);
    }
    if op.Get? && op.pid in p.table {
      assert EntryOK(p, op.pid);
    }
    if (op.Put? || op.Done? || op.Sync?) && op.pid in p.table {
      assert EntryOK(p, op.pid);
    }
    if Victim(p).Some? {
      VictimFrame(p);
      assert FrameOK(p, Victim(p).value);
    }
  }

  // Pins given less pins given back, from the start of the run.
  ghost function Balance<D>(run: seq<Pool<D>>, ops: seq<Op<D>>, n: nat, x: int): int
    requires IsRun(run, ops) && n <= |ops|
  {
    if n == 0 then Pins(run[0], x)
    else
      RunFramed(run, ops, n - 1);
      var b := Balance(run, ops, n - 1, x);
      if Pinned(run[n - 1], ops[n - 1], x) then b + 1
      else if ops[n - 1].Done? && ops[n - 1].pid == x && b > 0 then b - 1
      else b
  }

  lemma {:induction false} PinsCounted<D>(run: seq<Pool<D>>, ops: seq<Op<D>>, n: nat, x: int)
    requires IsRun(run, ops) && n <= |ops|
    ensures Framed(run[n]) && Pins(run[n], x) == Balance(run, ops, n, x)
  {
    RunFramed(run, ops, n);
    if n > 0 {
      PinsCounted(run, ops, n - 1, x);
      RunFramed(run, ops, n - 1);
      PinsStep(run[n - 1], ops[n - 1], x);
    }
  }

  // A pinned page stays in its frame, with its bytes unless they are changed.
  lemma PinnedStep<D>(p: Pool<D>, op: Op<D>, x: int)
    requires Framed(p) && Allowed(p, op) && Pins(p, x) > 0
    ensures var q := Step(p, op);
            && Framed(q) && x in p.table && x in q.table && q.table[x] == p.table[x]
            && Bytes(q, x) == if op.Put? && op.pid == x then op.data else Bytes(p, x)
  {
    StepFramed(p, op);
    var q := Step(p, op);
    assert EntryOK(p, x) && FrameOK(p, p.table[x]);
    if Victim(p).Some? {
      VictimFrame(p);
      assert FrameOK(p, Victim(p).value);
    }
    if !op.Create? && op.pid in p.table {
      assert EntryOK(p, op.pid);
    }
    assert x in q.table;
    assert EntryOK(q, x);
  }

  // The bytes last put into page x from step m on, or those it had.
  ghost function LastPut<D>(run: seq<Pool<D>>, ops: seq<Op<D>>, m: nat, n: nat, x: int): D
    requires IsRun(run, ops) && m <= n <= |ops| && Framed(run[m]) && x in run[m].table
    decreases n
  {
    if n == m then Bytes(run[m], x)
    else if ops[n - 1].Put? && ops[n - 1].pid == x then ops[n - 1].data
    else LastPut(run, ops, m, n - 1, x)
  }

  lemma {:induction false} PinnedStays<D>(run: seq<Pool<D>>, ops: seq<Op<D>>, m: nat, n: nat, x: int)
    requires IsRun(run, ops) && m < n <= |ops|
    requires forall k :: m <= k < n ==> Balance(run, ops, k, x) > 0
    ensures Framed(run[m]) && Framed(run[n]) && x in run[m].table && x in run[n].table
    ensures run[n].table[x] == run[m].table[x] && Bytes(run[n], x) == LastPut(run, ops, m, n, x)
    decreases n
  {
    RunFramed(run, ops, n - 1);
    PinsCounted(run, ops, n - 1, x);
    PinnedStep(run[n - 1], ops[n - 1], x);
    if m < n - 1 {
      PinnedStays(run, ops, m, n - 1, x);
    }
  }

  // --- the dirty flag and the file ---

  // A page becomes dirty only by an unpin that says so. It stops being dirty only by an unpin that
  // calls it clean, or because the file has its bytes now.
  lemma DirtyStep<D>(p: Pool<D>, op: Op<D>, x: int)
    requires Framed(p) && Allowed(p, op)
    ensures var q := Step(p, op);
            && Framed(q)
            && (Dirty(q, x) <==> if op.Done? && op.pid == x then x in p.table && op.dirty
                                 else Dirty(p, x) && x in q.table && op != Sync(x) && !Renewed(p, op, x))
            && (Dirty(p, x) && !Dirty(q, x) && !op.Done? ==> 0 <= x < |q.disk| && q.disk[x] == Bytes(p, x))
  {
    StepFramed(p, op);
    var q := Step(p, op);
    if x in p.table {
      assert EntryOK(p, x) && FrameOK(p, p.table[x]);
    }
    if x in q.table {
      assert EntryOK(q, x);
    }
    if Victim(p).Some? {
      VictimFrame(p);
      assert FrameOK(p, Victim(p).value);
    }
    if !op.Create? && op.pid in p.table {
      assert EntryOK(p, op.pid);
    }
  }

  // The file changes only where a dirty page is written, and grows only by zeros beside it.
  lemma FileStep<D>(p: Pool<D>, op: Op<D>)
    requires Framed(p) && Allowed(p, op)
    ensures var q := Step(p, op);
            q.disk == p.disk || exists x :: Dirty(p, x) && Written(p.disk, x, Bytes(p, x), p.zero, q.disk)
  {
    var q := Step(p, op);
    if op.Sync? {
      FlushWrites(p, op.pid);
    } else if op.Create? || (op.Get? && op.pid !in p.table) {
      if Victim(p).Some? {
        VictimFrame(p);
        var f := Victim(p).value;
        assert FrameOK(p, f);
        if p.frames[f].dirty {
          var x := p.frames[f].pageId;
          assert EntryOK(p, x);
          assert Dirty(p, x) && Written(p.disk, x, Bytes(p, x), p.zero, q.disk);
        }
      }
    } else if op.Get? {
      assert EntryOK(p, op.pid);
    }
  }

  // --- what a flush is for ---

  // A pool of n frames just opened on a file.
  function Opened<D>(n: nat, disk: seq<D>, zero: D): Pool<D> {
    Pool(seq(n, _ => Frame(INVALID_PAGE_ID, 0, false, zero)), seq(n, i => i), map[], [], disk, 0, zero)
  }

  lemma OpenedShows<D>(n: nat, disk: seq<D>, zero: D, pid: int)
    requires n > 0 && 0 <= pid < |disk|
    ensures var q := Opened(n, disk, zero);
            Framed(q) && Framed(Fetch(q, pid)) && pid in Fetch(q, pid).table && Bytes(Fetch(q, pid), pid) == disk[pid]
  {
    var q := Opened(n, disk, zero);
    EmptyPool(q);
    FetchFramed(q, pid);
    FetchShows(q, OnFile(disk), pid);
    assert q.frames[0].pins == 0;
  }

  // In every run that follows the rule for Unpin: after the flush of a dirty page, a pool opened on the
  // file shows the bytes last left in it.
  lemma FlushedSurvives<D>(run: seq<Pool<D>>, last: map<int, D>, ops: seq<Op<D>>, k: nat, n: nat)
    requires IsRun(run, ops) && Faithful(run[0], last) && k < |ops| && ops[k].Sync? && n > 0
    requires forall i :: 0 <= i < k ==> FollowsRule(run[i], ops[i])
    requires Framed(run[k]) && Dirty(run[k], ops[k].pid)
    ensures var pid, q := ops[k].pid, Opened(n, run[k + 1].disk, run[k].zero);
            && Framed(q) && 0 <= pid && Framed(Fetch(q, pid)) && pid in Fetch(q, pid).table
            && pid in Left(run, last, ops, k) && Bytes(Fetch(q, pid), pid) == Left(run, last, ops, k)[pid]
  {
    var pid, p := ops[k].pid, run[k];
    RunFramed(run, ops, k);
    RunFaithful(run, last, ops, k);
    FlushWrites(p, pid);
    assert PageFaithful(p, Left(run, last, ops, k), pid);
    OpenedShows(n, run[k + 1].disk, p.zero, pid);
  }
}
