/**
 Whole runs of the buffer pool: whatever is evicted in between, a fetched page shows the bytes
 last left in it.
 */
module PoolRuns {
  import opened LruReplacers
  import opened Options
  import opened PoolModel
  import opened BufferPools

  datatype Op<D> = Get(pid: int) | Create | Put(pid: int, data: D) | Done(pid: int, dirty: bool) | Sync(pid: int)

  // Pages are changed only while pinned, and a new page gets an id that no other frame holds.
  ghost predicate Allowed<D>(p: Pool<D>, op: Op<D>)
    requires Framed(p)
  {
    match op
    case Get(pid) => 0 <= pid < PAGE_ID_LIMIT
    case Create => 0 <= p.nextPageId < PAGE_ID_LIMIT && (Victim(p).Some? ==> FreshId(p))
    case Put(pid, _) => Pins(p, pid) > 0
    case Done(pid, _) => INVALID_PAGE_ID <= pid < PAGE_ID_LIMIT
    case Sync(pid) => INVALID_PAGE_ID <= pid < PAGE_ID_LIMIT
  }

  ghost function Step<D>(p: Pool<D>, op: Op<D>): Pool<D>
    requires Framed(p) && Allowed(p, op)
  {
    match op
    case Get(pid) => Fetch(p, pid)
    case Create => New(p)
    case Put(pid, d) => assert EntryOK(p, pid); Write(p, p.table[pid], d)
    case Done(pid, dirty) => Unpin(p, pid, dirty)
    case Sync(pid) => Flush(p, pid)
  }

  // The bytes last left in every page.
  ghost function Leave<D>(p: Pool<D>, last: map<int, D>, op: Op<D>): map<int, D>
    requires Framed(p) && Allowed(p, op)
  {
    match op
    case Get(pid) => Noted(p, last, pid)
    case Create => if Victim(p).None? then last else last[p.nextPageId := p.zero]
    case Put(pid, d) => last[pid := d]
    case _ => last
  }

  ghost predicate Ruled<D>(p: Pool<D>, op: Op<D>)
    requires Framed(p)
  {
    op.Done? ==> UnpinRule(p, op.pid, op.dirty)
  }

  // Every step keeps the frames in order; it keeps the contents exactly when the flag is true.
  lemma StepKeeps<D>(p: Pool<D>, last: map<int, D>, op: Op<D>)
    requires Faithful(p, last) && Allowed(p, op)
    ensures Framed(Step(p, op))
    ensures Faithful(Step(p, op), Leave(p, last, op)) <==> Ruled(p, op)
  {
    match op
    case Get(pid) => FetchFaithful(p, last, pid);
    case Create => NewFaithful(p, last);
    case Put(pid, d) =>
      assert EntryOK(p, pid);
      WriteFaithful(p, last, p.table[pid], d);
    case Done(pid, dirty) =>
      UnpinFramed(p, pid, dirty);
      UnpinFaithfulIff(p, last, pid, dirty);
    case Sync(pid) => FlushFaithful(p, last, pid);
  }

  lemma StepFramed<D>(p: Pool<D>, op: Op<D>)
    requires Framed(p) && Allowed(p, op)
    ensures Framed(Step(p, op))
  {
    match op
    case Get(pid) => FetchFramed(p, pid);
    case Create => NewFramedIff(p);
    case Put(pid, d) =>
      assert EntryOK(p, pid);
      WriteFramed(p, p.table[pid], d);
    case Done(pid, dirty) => UnpinFramed(p, pid, dirty);
    case Sync(pid) => FlushFramed(p, pid);
  }

  ghost predicate Goes<D>(p: Pool<D>, op: Op<D>, q: Pool<D>) {
    Framed(p) ==> Allowed(p, op) && q == Step(p, op)
  }

  // A run of pools, each the step of the one before.
  ghost predicate IsRun<D>(run: seq<Pool<D>>, ops: seq<Op<D>>) {
    && |run| == |ops| + 1 && Framed(run[0])
    && forall n {:trigger ops[n]} :: 0 <= n < |ops| ==> Goes(run[n], ops[n], run[n + 1])
  }

  // Over every run at all, the frames stay in order.
  lemma {:induction false} RunFramed<D>(run: seq<Pool<D>>, ops: seq<Op<D>>, n: nat)
    requires IsRun(run, ops) && n <= |ops|
    ensures Framed(run[n]) && (n < |ops| ==> Allowed(run[n], ops[n]) && run[n + 1] == Step(run[n], ops[n]))
  {
    if n > 0 {
      RunFramed(run, ops, n - 1);
      StepFramed(run[n - 1], ops[n - 1]);
    }
    assert n < |ops| ==> Goes(run[n], ops[n], run[n + 1]);
  }

  ghost predicate FollowsRule<D>(p: Pool<D>, op: Op<D>) {
    Framed(p) ==> Ruled(p, op)
  }

  ghost function Left<D>(run: seq<Pool<D>>, last: map<int, D>, ops: seq<Op<D>>, n: nat): map<int, D>
    requires IsRun(run, ops) && n <= |ops|
  {
    if n == 0 then last else RunFramed(run, ops, n - 1); Leave(run[n - 1], Left(run, last, ops, n - 1), ops[n - 1])
  }

  // Over every run that follows the rule, the pool stays faithful.
  lemma {:induction false} RunFaithful<D>(run: seq<Pool<D>>, last: map<int, D>, ops: seq<Op<D>>, n: nat)
    requires IsRun(run, ops) && Faithful(run[0], last) && n <= |ops|
    requires forall k :: 0 <= k < n ==> FollowsRule(run[k], ops[k])
    ensures Faithful(run[n], Left(run, last, ops, n))
  {
    if n > 0 {
      RunFaithful(run, last, ops, n - 1);
      RunFramed(run, ops, n - 1);
      StepKeeps(run[n - 1], Left(run, last, ops, n - 1), ops[n - 1]);
    }
  }

  // A fetch in such a run shows the bytes last left in the page; it fails exactly when the page is
  // not in the pool and every frame is pinned.
  lemma FetchedIsLast<D>(run: seq<Pool<D>>, last: map<int, D>, ops: seq<Op<D>>, n: nat)
    requires IsRun(run, ops) && Faithful(run[0], last) && n < |ops| && ops[n].Get?
    requires forall k :: 0 <= k < n ==> FollowsRule(run[k], ops[k])
    ensures var pid, q := ops[n].pid, run[n + 1];
            && Framed(q) && (pid in q.table ==> 0 <= q.table[pid] < |q.frames|)
            && (pid in q.table && pid in Left(run, last, ops, n) ==>
                  q.frames[q.table[pid]].data == Left(run, last, ops, n)[pid])
            && (pid !in q.table <==> pid !in run[n].table && forall f :: 0 <= f < |run[n].frames| ==>
                 run[n].frames[f].pins > 0)
  {
    RunFaithful(run, last, ops, n);
    RunFramed(run, ops, n);
    FetchShows(run[n], Left(run, last, ops, n), ops[n].pid);
    FetchFramed(run[n], ops[n].pid);
  }

  // Every operation of the pool is such a step.
  method Serve<D>(pool: BufferPoolManager<D>, op: Op<D>)
    requires pool.Valid() && Allowed(pool.State(), op)
    modifies pool, pool.pageTable, pool.pageTable.buckets, pool.replacer, pool.replacer.nodes
    ensures pool.Valid() && pool.Grown() && pool.State() == Step(old(pool.State()), op)
  {
    match op
    case Get(pid) =>
      var f := pool.FetchPage(pid);
    case Create =>
      var f, pid := pool.NewPage();
    case Put(pid, d) =>
      assert EntryOK(pool.State(), pid);
      var f := pool.pageTable.Find(pid);
      pool.ChangeData(f.value, d);
    case Done(pid, dirty) =>
      var ok := pool.UnpinPage(pid, dirty);
    case Sync(pid) =>
      var ok := pool.FlushPage(pid);
  }
}
