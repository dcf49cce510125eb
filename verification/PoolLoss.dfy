/**
 Why the rule for unpinning is needed: from every faithful pool, breaking it has a continuation in
 which a fetch shows other bytes. And why page ids must be fresh.
 */
module PoolLoss {
  import opened LruReplacers
  import opened Options
  import opened PoolModel
  import opened BufferPools
  import opened PoolRuns

  // What the file gives for page pid once it reaches that far.
  function Kept<D>(p: Pool<D>, pid: int): D {
    if 0 <= pid < |p.disk| then p.disk[pid] else p.zero
  }

  // The counter is ahead of all pages in the pool, with k ids to spare.
  predicate CounterAhead<D>(p: Pool<D>, k: nat) {
    0 <= p.nextPageId && p.nextPageId + k <= PAGE_ID_LIMIT && forall x :: x in p.table ==> x < p.nextPageId
  }

  // Page pid is cached, unpinned and clean.
  ghost predicate Droppable<D>(p: Pool<D>, pid: int)
    requires Framed(p)
  {
    pid in p.table && (assert EntryOK(p, pid); var r := p.frames[p.table[pid]]; r.pins == 0 && !r.dirty)
  }

  function Waiting<D>(p: Pool<D>): nat {
    |p.free| + |p.order|
  }

  // One more page: the file keeps what it gives for a page that is not written back, and one frame
  // less is waiting.
  lemma NewStep<D>(p: Pool<D>, pid: int, k: nat)
    requires Framed(p) && Droppable(p, pid) && CounterAhead(p, k + 1)
    ensures Victim(p).Some? && Allowed(p, Create) && Framed(New(p))
    ensures var q := New(p);
            && Kept(q, pid) == Kept(p, pid) && q.zero == p.zero && CounterAhead(q, k) && Waiting(q) < Waiting(p)
            && q.nextPageId == p.nextPageId + 1 > pid && Pins(q, p.nextPageId) == 1
            && (if Victim(p).value == p.table[pid] then pid !in q.table else Droppable(q, pid))
  {
    assert EntryOK(p, pid);
    var f := p.table[pid];
    assert FrameOK(p, f);
    VictimFrame(p);
    NewFramedIff(p);
    var q, v := New(p), Victim(p).value;
    assert FrameOK(p, v);
    var r := p.frames[v];
    assert r.pageId in p.table ==> EntryOK(p, r.pageId);
    assert EntryOK(q, p.nextPageId);
    if v != f {
      assert q.table[pid] == f;
    }
  }

  // The run goes on.
  lemma RunMore<D>(run: seq<Pool<D>>, ops: seq<Op<D>>, op: Op<D>)
    requires IsRun(run, ops) && Framed(run[|ops|]) && Allowed(run[|ops|], op)
    ensures IsRun(run + [Step(run[|ops|], op)], ops + [op])
  {
    var run2, ops2 := run + [Step(run[|ops|], op)], ops + [op];
    forall n | 0 <= n < |ops2| ensures Goes(run2[n], ops2[n], run2[n + 1]) {
      assert n < |ops| ==> Goes(run[n], ops[n], run[n + 1]);
    }
  }

  ghost predicate AllFollow<D>(run: seq<Pool<D>>, ops: seq<Op<D>>) {
    |run| == |ops| + 1 && forall n :: 0 <= n < |ops| ==> FollowsRule(run[n], ops[n])
  }

  lemma GoOn<D>(run: seq<Pool<D>>, ops: seq<Op<D>>, op: Op<D>) returns (run2: seq<Pool<D>>, ops2: seq<Op<D>>)
    requires IsRun(run, ops) && AllFollow(run, ops) && Framed(run[|ops|])
    requires Allowed(run[|ops|], op) && Ruled(run[|ops|], op)
    ensures IsRun(run2, ops2) && AllFollow(run2, ops2) && run <= run2
    ensures ops2 == ops + [op] && run2[|ops2|] == Step(run[|ops|], op) && Framed(run2[|ops2|])
  {
    RunMore(run, ops, op);
    StepFramed(run[|ops|], op);
    run2, ops2 := run + [Step(run[|ops|], op)], ops + [op];
  }

  // Page pid is out of the pool, what the file gives for it is unchanged, and the newest page is pinned.
  ghost predicate DrivenOut<D>(p: Pool<D>, q: Pool<D>, pid: int) {
    && Framed(q) && pid !in q.table && Kept(q, pid) == Kept(p, pid) && q.zero == p.zero
    && 0 <= pid < q.nextPageId - 1 < PAGE_ID_LIMIT && Pins(q, q.nextPageId - 1) == 1
  }

  // New pages drive page pid out of the pool.
  lemma {:induction false} DriveOut<D>(run: seq<Pool<D>>, ops: seq<Op<D>>, pid: int)
    returns (run2: seq<Pool<D>>, ops2: seq<Op<D>>)
    requires IsRun(run, ops) && AllFollow(run, ops) && Framed(run[|ops|])
    requires Droppable(run[|ops|], pid) && CounterAhead(run[|ops|], Waiting(run[|ops|]))
    ensures IsRun(run2, ops2) && AllFollow(run2, ops2) && run[0] == run2[0]
    ensures DrivenOut(run[|ops|], run2[|ops2|], pid)
    decreases Waiting(run[|ops|])
  {
    var p := run[|ops|];
    DriveStep(p, pid);
    run2, ops2 := GoOn(run, ops, Create);
    if Victim(p).value != p.table[pid] {
      run2, ops2 := DriveOut(run2, ops2, pid);
    }
  }

  lemma DriveStep<D>(p: Pool<D>, pid: int)
    requires Framed(p) && Droppable(p, pid) && CounterAhead(p, Waiting(p))
    ensures Victim(p).Some? && Allowed(p, Create) && Framed(Step(p, Create))
    ensures var q := Step(p, Create);
            if Victim(p).value == p.table[pid] then DrivenOut(p, q, pid)
            else
              && Droppable(q, pid) && CounterAhead(q, Waiting(q)) && Waiting(q) < Waiting(p)
              && Kept(q, pid) == Kept(p, pid) && q.zero == p.zero
  {
    assert EntryOK(p, pid);
    assert FrameOK(p, p.table[pid]);
    NewStep(p, pid, Waiting(p) - 1);
  }

  // The page n is unpinned as dirty, flushed, and page pid is fetched: it comes from the file.
  lemma FetchFromFile<D>(p: Pool<D>, n: int, pid: int)
    requires Framed(p) && 0 <= pid < n < PAGE_ID_LIMIT && pid !in p.table && Pins(p, n) == 1
    ensures var p1 := Unpin(p, n, true);
            && Framed(p1)
            && var p2 := Flush(p1, n);
            && Framed(p2)
            && var p3 := Fetch(p2, pid);
            && Framed(p3) && pid in p3.table && 0 <= p3.table[pid] < |p3.frames|
            && p3.frames[p3.table[pid]].data == Kept(p, pid)
  {
    assert EntryOK(p, n);
    var f := p.table[n];
    assert FrameOK(p, f);
    UnpinFramed(p, n, true);
    var p1 := Unpin(p, n, true);
    FlushFramed(p1, n);
    var p2 := Flush(p1, n);
    assert p2.frames[f].pins == 0;
    VictimIff(p2);
    VictimFrame(p2);
    FetchFramed(p2, pid);
    var v := Victim(p2).value;
    assert FrameOK(p2, v);
    assert WrittenBack(p2, v)[pid] == p2.disk[pid] == Kept(p, pid);
  }

  // The file gives other bytes for page pid, or will.
  lemma FileLoses<D>(q: Pool<D>, pid: int, d: D) returns (run: seq<Pool<D>>, ops: seq<Op<D>>)
    requires Framed(q) && Droppable(q, pid) && CounterAhead(q, Waiting(q)) && Kept(q, pid) != d
    ensures IsRun(run, ops) && run[0] == q && AllFollow(run, ops) && ops != [] && ops[|ops| - 1] == Get(pid)
    ensures ShowsOther(run[|ops|], pid, d)
  {
    assert IsRun([q], []);
    run, ops := DriveOut([q], [], pid);
    var s := run[|ops|];
    var n := s.nextPageId - 1;
    FetchFromFile(s, n, pid);
    run, ops := GoOn(run, ops, Done(n, true));
    run, ops := GoOn(run, ops, Sync(n));
    run, ops := GoOn(run, ops, Get(pid));
  }

  // The page is in the pool and shows other bytes than d.
  ghost predicate ShowsOther<D>(q: Pool<D>, pid: int, d: D) {
    Framed(q) && pid in q.table && (assert EntryOK(q, pid); q.frames[q.table[pid]].data != d)
  }

  // --- a page of zeros behind the end of the file ---

  // The file is as it was, and page pid waits to be dropped.
  ghost predicate Quiet<D>(p: Pool<D>, pid: int, disk: seq<D>, zero: D) {
    Framed(p) && Droppable(p, pid) && CounterAhead(p, Waiting(p)) && p.disk == disk && p.zero == zero
  }

  // While another frame waits, it can be taken or pinned without writing to the file.
  lemma QuietStep<D>(p: Pool<D>, pid: int) returns (op: Op<D>)
    requires Quiet(p, pid, p.disk, p.zero) && Waiting(p) > 1
    ensures !op.Done? && Allowed(p, op) && Quiet(Step(p, op), pid, p.disk, p.zero) && Waiting(Step(p, op)) < Waiting(p)
  {
    assert EntryOK(p, pid);
    var f := p.table[pid];
    assert FrameOK(p, f);
    if p.free != [] {
      op := Create;
      DriveStep(p, pid);
      assert p.free[0] in p.free && FrameOK(p, p.free[0]);
    } else {
      var g := if p.order[0] == f then p.order[1] else p.order[0];
      assert g in p.order && g != f && FrameOK(p, g);
      var y := p.frames[g].pageId;
      assert EntryOK(p, y);
      op := Get(y);
      FetchFramed(p, y);
      DropMembers(p.order, g);
      DropShorter(p.order, g);
      assert EntryOK(Fetch(p, y), pid);
    }
  }

  lemma DropShorter(s: seq<int>, v: int)
    requires v in s && Distinct(s)
    ensures |Drop(s, v)| < |s|
  {
    var i :| 0 <= i < |s| && s[i] == v;
    DropAt(s, i);
  }

  lemma {:induction false} QuietDown<D>(run: seq<Pool<D>>, ops: seq<Op<D>>, pid: int)
    returns (run2: seq<Pool<D>>, ops2: seq<Op<D>>)
    requires IsRun(run, ops) && AllFollow(run, ops)
    requires var p := run[|ops|]; Quiet(p, pid, p.disk, p.zero)
    ensures IsRun(run2, ops2) && AllFollow(run2, ops2) && run[0] == run2[0]
    ensures var p := run[|ops|]; Quiet(run2[|ops2|], pid, p.disk, p.zero) && Waiting(run2[|ops2|]) <= 1
    decreases Waiting(run[|ops|])
  {
    run2, ops2 := run, ops;
    if Waiting(run[|ops|]) > 1 {
      var op := QuietStep(run[|ops|], pid);
      run2, ops2 := GoOn(run, ops, op);
      run2, ops2 := QuietDown(run2, ops2, pid);
    }
  }

  // All frames are pinned, page 0 is in the pool, page pid is not.
  ghost predicate Full<D>(p: Pool<D>, pid: int, disk: seq<D>, zero: D) {
    Framed(p) && p.free == [] && p.order == [] && 0 in p.table && pid !in p.table && p.disk == disk && p.zero == zero
  }

  // The last frame that waits is taken.
  lemma LastStep<D>(p: Pool<D>, pid: int) returns (op: Op<D>)
    requires Quiet(p, pid, p.disk, p.zero) && Waiting(p) <= 1 && 0 < pid
    ensures !op.Done? && Allowed(p, op) && Full(Step(p, op), pid, p.disk, p.zero)
  {
    assert EntryOK(p, pid);
    var f := p.table[pid];
    assert FrameOK(p, f);
    assert p.order == [f] && p.free == [];
    VictimFrame(p);
    if 0 in p.table {
      op := Create;
      NewFramedIff(p);
      assert EntryOK(p, 0);
    } else {
      op := Get(0);
      FetchFramed(p, 0);
    }
  }

  // Page 0 is in the pool and has the bytes d.
  ghost predicate PageZeroHas<D>(p: Pool<D>, d: D) {
    Framed(p) && 0 in p.table && (assert EntryOK(p, 0); p.frames[p.table[0]].data == d)
  }

  lemma ChangeStep<D>(p: Pool<D>, pid: int, d: D)
    requires Full(p, pid, p.disk, p.zero)
    ensures Pins(p, 0) > 0 && Full(Step(p, Put(0, d)), pid, p.disk, p.zero) && PageZeroHas(Step(p, Put(0, d)), d)
  {
    assert EntryOK(p, 0);
    assert FrameOK(p, p.table[0]);
    WriteFramed(p, p.table[0], d);
    assert EntryOK(Step(p, Put(0, d)), 0);
  }

  // Page 0 alone waits, and is dirty.
  ghost predicate LastDirty<D>(p: Pool<D>, pid: int, disk: seq<D>, zero: D) {
    && Framed(p) && p.free == [] && 0 in p.table && p.order == [p.table[0]] && pid !in p.table
    && p.disk == disk && p.zero == zero && (assert EntryOK(p, 0); p.frames[p.table[0]].dirty)
  }

  lemma GiveBackStep<D>(p: Pool<D>, pid: int, d: D)
    requires Full(p, pid, p.disk, p.zero) && PageZeroHas(p, d)
    ensures Pins(p, 0) > 0 && Framed(Unpin(p, 0, true)) && PageZeroHas(Unpin(p, 0, true), d)
    ensures var q := Unpin(p, 0, true);
            if Pins(p, 0) == 1 then LastDirty(q, pid, p.disk, p.zero)
            else Full(q, pid, p.disk, p.zero) && Pins(q, 0) < Pins(p, 0)
  {
    assert EntryOK(p, 0);
    assert FrameOK(p, p.table[0]);
    UnpinFramed(p, 0, true);
    assert EntryOK(Unpin(p, 0, true), 0);
  }

  lemma {:induction false} GiveBack<D>(run: seq<Pool<D>>, ops: seq<Op<D>>, pid: int, d: D)
    returns (run2: seq<Pool<D>>, ops2: seq<Op<D>>)
    requires IsRun(run, ops) && AllFollow(run, ops)
    requires var p := run[|ops|]; Full(p, pid, p.disk, p.zero) && PageZeroHas(p, d)
    ensures IsRun(run2, ops2) && AllFollow(run2, ops2) && run[0] == run2[0]
    ensures var p, q := run[|ops|], run2[|ops2|]; LastDirty(q, pid, p.disk, p.zero) && PageZeroHas(q, d)
    decreases Pins(run[|ops|], 0)
  {
    var p := run[|ops|];
    GiveBackStep(p, pid, d);
    assert EntryOK(p, 0);
    run2, ops2 := GoOn(run, ops, Done(0, true));
    if Pins(p, 0) > 1 {
      run2, ops2 := GiveBack(run2, ops2, pid, d);
    }
  }

  // The page behind the end of the file is read into the frame of page 0, which it leaves as it is.
  lemma FetchStale<D>(p: Pool<D>, pid: int, d: D)
    requires LastDirty(p, pid, p.disk, p.zero) && PageZeroHas(p, d) && d != p.zero && pid >= 2 && pid > |p.disk|
    ensures ShowsOther(Fetch(p, pid), pid, p.zero)
  {
    assert EntryOK(p, 0);
    VictimFrame(p);
    FetchFramed(p, pid);
    assert EntryOK(Fetch(p, pid), pid);
    assert |WrittenBack(p, p.table[0])| < pid + 1;
  }

  lemma StaleLoses<D>(q: Pool<D>, pid: int, d: D) returns (run: seq<Pool<D>>, ops: seq<Op<D>>)
    requires Quiet(q, pid, q.disk, q.zero) && pid >= 2 && pid > |q.disk| && d != q.zero
    ensures IsRun(run, ops) && run[0] == q && AllFollow(run, ops) && ops != [] && ops[|ops| - 1] == Get(pid)
    ensures ShowsOther(run[|ops|], pid, q.zero)
  {
    assert IsRun([q], []);
    run, ops := QuietDown([q], [], pid);
    var op := LastStep(run[|ops|], pid);
    run, ops := GoOn(run, ops, op);
    ChangeStep(run[|ops|], pid, d);
    run, ops := GoOn(run, ops, Put(0, d));
    run, ops := GiveBack(run, ops, pid, d);
    FetchStale(run[|ops|], pid, d);
    run, ops := GoOn(run, ops, Get(pid));
  }

  // From every faithful pool: an Unpin that breaks the rule has a continuation that keeps it and in
  // which a fetch shows other bytes than those last left in the page.
  lemma BreakingLoses<D>(p: Pool<D>, last: map<int, D>, pid: int, other: D)
    returns (run: seq<Pool<D>>, ops: seq<Op<D>>)
    requires Faithful(p, last) && !UnpinRule(p, pid, false) && other != p.zero
    requires CounterAhead(p, Waiting(p) + 1)
    ensures IsRun(run, ops) && run[0] == Unpin(p, pid, false) && AllFollow(run, ops)
    ensures ops != [] && ops[|ops| - 1] == Get(pid) && pid in last && ShowsOther(run[|ops|], pid, last[pid])
  {
    assert EntryOK(p, pid) && PageFaithful(p, last, pid);
    UnpinFramed(p, pid, false);
    var q := Unpin(p, pid, false);
    assert FrameOK(p, p.table[pid]);
    assert Droppable(q, pid) by {
      assert EntryOK(q, pid);
    }
    if Kept(p, pid) != last[pid] {
      run, ops := FileLoses(q, pid, last[pid]);
    } else {
      run, ops := StaleLoses(q, pid, other);
    }
  }

  // --- examples ---

  // A pool of one frame.
  function Single<D>(r: Frame<D>, disk: seq<D>, next: int, zero: D): Pool<D> {
    Pool([r], [], map[r.pageId := 0], if r.pins == 0 then [0] else [], disk, next, zero)
  }

  lemma SingleFramed<D>(r: Frame<D>, disk: seq<D>, next: int, zero: D)
    requires 0 <= r.pageId
    ensures Framed(Single(r, disk, next, zero))
  {
    var p := Single(r, disk, next, zero);
    assert FrameOK(p, 0) && EntryOK(p, r.pageId);
  }

  // One frame, a new page changed and unpinned as clean: fetched again, it can show zeros.
  lemma LostBytes<D>(zero: D, data: D) returns (run: seq<Pool<D>>, ops: seq<Op<D>>)
    requires data != zero
    ensures var p := Single(Frame(0, 1, false, data), [], 1, zero);
            && Framed(p) && IsRun(run, ops) && run[0] == Unpin(p, 0, false) && AllFollow(run, ops)
            && ops != [] && ops[|ops| - 1] == Get(0) && ShowsOther(run[|ops|], 0, data)
  {
    var p, last := Single(Frame(0, 1, false, data), [], 1, zero), map[0 := data];
    SingleFramed(p.frames[0], [], 1, zero);
    assert EntryOK(p, 0);
    assert PageFaithful(p, last, 0);
    assert Faithful(p, last);
    run, ops := BreakingLoses(p, last, 0, data);
  }

  // A pool of two frames over a file: page 0 is fetched, and NewPage gives out the id 0 again.
  lemma ReopenClash<D>(zero: D, data: D)
    ensures var p := Pool([Frame(0, 1, false, data), Frame(INVALID_PAGE_ID, 0, false, zero)], [1],
                          map[0 := 0], [], [data], 0, zero);
            Framed(p) && !Framed(New(p))
  {
    var p := Pool([Frame(0, 1, false, data), Frame(INVALID_PAGE_ID, 0, false, zero)], [1],
                  map[0 := 0], [], [data], 0, zero);
    assert FrameOK(p, 0) && FrameOK(p, 1) && EntryOK(p, 0);
    NewFramedIff(p);
  }
}
