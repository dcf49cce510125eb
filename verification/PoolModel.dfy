/**
 The buffer pool as a value: frames, free list, page table, replacement order, disk. The steps
 are those of the pool; the invariants say where every frame is and whose bytes it shows.
 */
module PoolModel {
  import opened LruReplacers
  import opened Options

  const INVALID_PAGE_ID := -1

  datatype Frame<D> = Frame(pageId: int, pins: nat, dirty: bool, data: D)
  // The disk is the file, page after page; zero is a page of zero bytes.
  datatype Pool<D> = Pool(frames: seq<Frame<D>>, free: seq<int>, table: map<int, int>, order: seq<int>,
                          disk: seq<D>, nextPageId: int, zero: D)

  // A page written behind the end of the file leaves zeros in between.
  function WritePage<D>(disk: seq<D>, pid: int, d: D, zero: D): (r: seq<D>)
    requires pid >= 0
    ensures |r| == (if pid < |disk| then |disk| else pid + 1) && r[pid] == d
    ensures forall i :: 0 <= i < |r| && i != pid ==> r[i] == if i < |disk| then disk[i] else zero
  {
    if pid < |disk| then disk[pid := d] else disk + seq(pid - |disk|, _ => zero) + [d]
  }

  // A read that starts behind the end of the file leaves the frame as it is; one that starts at the
  // end gives zeros.
  function ReadPage<D>(disk: seq<D>, pid: int, was: D, zero: D): D {
    if 0 <= pid < |disk| then disk[pid] else if pid == |disk| then zero else was
  }

  // --- where a frame is ---

  // Free, or unpinned and in the replacement order, or pinned: exactly one of them.
  ghost predicate FrameOK<D>(p: Pool<D>, f: int)
    requires 0 <= f < |p.frames|
  {
    var r := p.frames[f];
    && (f in p.free <==> r.pageId == INVALID_PAGE_ID)
    && (f in p.order <==> r.pageId != INVALID_PAGE_ID && r.pins == 0)
    && (r.pageId == INVALID_PAGE_ID ==> r.pins == 0 && !r.dirty)
    && (r.pageId != INVALID_PAGE_ID ==> r.pageId in p.table && p.table[r.pageId] == f)
  }

  ghost predicate EntryOK<D>(p: Pool<D>, pid: int)
    requires pid in p.table
  {
    0 <= pid && 0 <= p.table[pid] < |p.frames| && p.frames[p.table[pid]].pageId == pid
  }

  ghost predicate Framed<D>(p: Pool<D>) {
    && Distinct(p.free) && Distinct(p.order)
    && (forall f :: f in p.free ==> 0 <= f < |p.frames|)
    && (forall f :: f in p.order ==> 0 <= f < |p.frames|)
    && (forall f {:trigger FrameOK(p, f)} :: 0 <= f < |p.frames| ==> FrameOK(p, f))
    && (forall pid {:trigger EntryOK(p, pid)} :: pid in p.table ==> EntryOK(p, pid))
  }

  // --- the steps ---

  // The frame to reuse: the first free one, else the least recently unpinned one.
  function Victim<D>(p: Pool<D>): Option<int> {
    if p.free != [] then Some(p.free[0])
    else if p.order != [] then Some(p.order[|p.order| - 1])
    else None
  }

  function Taken<D>(p: Pool<D>): Pool<D>
    requires Victim(p).Some?
  {
    if p.free != [] then p.(free := p.free[1..]) else p.(order := p.order[..|p.order| - 1])
  }

  // The file after the old page of frame f is written back, if it is dirty.
  function WrittenBack<D>(p: Pool<D>, f: int): seq<D>
    requires 0 <= f < |p.frames| && (p.frames[f].dirty ==> p.frames[f].pageId >= 0)
  {
    var r := p.frames[f];
    if r.dirty then WritePage(p.disk, r.pageId, r.data, p.zero) else p.disk
  }

  // Gives frame f to page pid.
  function Install<D>(p: Pool<D>, f: int, pid: int, data: D): Pool<D>
    requires 0 <= f < |p.frames| && (p.frames[f].dirty ==> p.frames[f].pageId >= 0)
  {
    p.(disk := WrittenBack(p, f),
       table := (p.table - {p.frames[f].pageId})[pid := f],
       frames := p.frames[f := Frame(pid, 1, false, data)])
  }

  function Read<D>(p: Pool<D>, pid: int, f: int): D
    requires 0 <= f < |p.frames| && (p.frames[f].dirty ==> p.frames[f].pageId >= 0)
  {
    ReadPage(WrittenBack(p, f), pid, p.frames[f].data, p.zero)
  }

  // The frame to reuse is there, and only a real page is dirty.
  lemma VictimFrame<D>(p: Pool<D>)
    requires Framed(p) && Victim(p).Some?
    ensures var f := Victim(p).value;
            0 <= f < |p.frames| && p.frames[f].pins == 0 && (p.frames[f].dirty ==> p.frames[f].pageId >= 0)
  {
    var f := Victim(p).value;
    assert f in p.free || f in p.order;
    assert FrameOK(p, f);
    assert p.frames[f].pageId in p.table ==> EntryOK(p, p.frames[f].pageId);
  }

  ghost function Pin<D>(p: Pool<D>, f: int): Pool<D>
    requires 0 <= f < |p.frames|
  {
    p.(frames := p.frames[f := p.frames[f].(pins := p.frames[f].pins + 1)], order := Drop(p.order, f))
  }

  ghost function Fetch<D>(p: Pool<D>, pid: int): Pool<D>
    requires Framed(p)
  {
    if pid in p.table then assert EntryOK(p, pid); Pin(p, p.table[pid])
    else if Victim(p).None? then p
    else
      VictimFrame(p);
      Install(Taken(p), Victim(p).value, pid, Read(p, pid, Victim(p).value))
  }

  ghost function New<D>(p: Pool<D>): Pool<D>
    requires Framed(p)
  {
    if Victim(p).None? then p
    else
      VictimFrame(p);
      Install(Taken(p), Victim(p).value, p.nextPageId, p.zero).(nextPageId := p.nextPageId + 1)
  }

  // The dirty flag is overwritten before the pin count is looked at.
  ghost function UnpinFrame<D>(p: Pool<D>, f: int, dirty: bool): Pool<D>
    requires 0 <= f < |p.frames|
  {
    var r := p.frames[f];
    if r.pins == 0 then p.(frames := p.frames[f := r.(dirty := dirty)])
    else p.(frames := p.frames[f := r.(dirty := dirty, pins := r.pins - 1)],
            order := if r.pins == 1 then [f] + Drop(p.order, f) else p.order)
  }

  ghost function Unpin<D>(p: Pool<D>, pid: int, dirty: bool): Pool<D>
    requires Framed(p)
  {
    if pid in p.table then assert EntryOK(p, pid); UnpinFrame(p, p.table[pid], dirty) else p
  }

  // Pins on page pid.
  ghost function Pins<D>(p: Pool<D>, pid: int): nat
    requires Framed(p)
  {
    if pid in p.table then assert EntryOK(p, pid); p.frames[p.table[pid]].pins else 0
  }

  ghost function Flush<D>(p: Pool<D>, pid: int): Pool<D>
    requires Framed(p)
  {
    if pid !in p.table then p
    else
      assert EntryOK(p, pid);
      var f := p.table[pid];
      if !p.frames[f].dirty then p
      else p.(disk := WritePage(p.disk, pid, p.frames[f].data, p.zero),
              frames := p.frames[f := p.frames[f].(dirty := false)])
  }

  // A client changes the bytes of a page that it has pinned.
  function Write<D>(p: Pool<D>, f: int, data: D): Pool<D>
    requires 0 <= f < |p.frames|
  {
    p.(frames := p.frames[f := p.frames[f].(data := data)])
  }

  // --- frames ---

  lemma VictimIff<D>(p: Pool<D>)
    requires Framed(p)
    ensures Victim(p).None? <==> forall f :: 0 <= f < |p.frames| ==> p.frames[f].pins > 0
    ensures Victim(p).Some? ==> 0 <= Victim(p).value < |p.frames| && p.frames[Victim(p).value].pins == 0
  {
    if Victim(p).Some? {
      var f := Victim(p).value;
      assert f in p.free || f in p.order;
      assert FrameOK(p, f);
    } else {
      forall f | 0 <= f < |p.frames| ensures p.frames[f].pins > 0 {
        assert FrameOK(p, f);
      }
    }
  }

  lemma TakenMembers<D>(p: Pool<D>)
    requires Framed(p) && Victim(p).Some?
    ensures var q, f := Taken(p), Victim(p).value;
            && Distinct(q.free) && Distinct(q.order) && f !in q.free && f !in q.order
            && forall g :: g != f ==> (g in q.free <==> g in p.free) && (g in q.order <==> g in p.order)
  {
    var f := Victim(p).value;
    assert f in p.free || f in p.order;
    if p.free != [] {
      assert FrameOK(p, f);
      assert p.free == [f] + p.free[1..];
    } else {
      assert p.order == p.order[..|p.order| - 1] + [f];
    }
  }

  lemma InstallFramed<D>(p: Pool<D>, pid: int, data: D)
    requires Framed(p) && Victim(p).Some? && 0 <= pid && (pid in p.table ==> p.table[pid] == Victim(p).value)
    ensures var f := Victim(p).value;
            && 0 <= f < |p.frames| && (p.frames[f].dirty ==> p.frames[f].pageId >= 0)
            && Framed(Install(Taken(p), f, pid, data))
  {
    VictimFrame(p);
    TakenMembers(p);
    var f := Victim(p).value;
    var q := Install(Taken(p), f, pid, data);
    assert FrameOK(p, f);
    forall g | 0 <= g < |q.frames| ensures FrameOK(q, g) {
      assert FrameOK(p, g);
    }
    forall x | x in q.table ensures EntryOK(q, x) {
      assert x in p.table ==> EntryOK(p, x);
    }
  }

  lemma FetchFramed<D>(p: Pool<D>, pid: int)
    requires Framed(p) && 0 <= pid
    ensures Framed(Fetch(p, pid))
  {
    if pid in p.table {
      assert EntryOK(p, pid);
      DropMembers(p.order, p.table[pid]);
      ChangedFramed(p, Fetch(p, pid), p.table[pid]);
    } else if Victim(p).Some? {
      VictimFrame(p);
      InstallFramed(p, pid, Read(p, pid, Victim(p).value));
    }
  }

  // The id that NewPage gives out is not that of a page held in another frame.
  predicate FreshId<D>(p: Pool<D>) {
    p.nextPageId in p.table ==> Victim(p) == Some(p.table[p.nextPageId])
  }

  lemma FramedCounter<D>(p: Pool<D>, next: int)
    ensures Framed(p.(nextPageId := next)) <==> Framed(p)
  {
    var q := p.(nextPageId := next);
    if Framed(p) {
      forall f | 0 <= f < |q.frames| ensures FrameOK(q, f) { assert FrameOK(p, f); }
      forall x | x in q.table ensures EntryOK(q, x) { assert EntryOK(p, x); }
    }
    if Framed(q) {
      forall f | 0 <= f < |p.frames| ensures FrameOK(p, f) { assert FrameOK(q, f); }
      forall x | x in p.table ensures EntryOK(p, x) { assert EntryOK(q, x); }
    }
  }

  // NewPage keeps the frames in order exactly when it finds no frame or its id is fresh.
  lemma NewFramedIff<D>(p: Pool<D>)
    requires Framed(p) && p.nextPageId >= 0
    ensures Framed(New(p)) <==> Victim(p).None? || FreshId(p)
  {
    if Victim(p).Some? {
      var pid, f := p.nextPageId, Victim(p).value;
      VictimFrame(p);
      FramedCounter(Install(Taken(p), f, pid, p.zero), pid + 1);
      if FreshId(p) {
        InstallFramed(p, pid, p.zero);
      } else {
        var q, g := New(p), p.table[pid];
        assert EntryOK(p, pid) && g != f;
        assert q.frames[g].pageId == pid && q.table[pid] == f;
        assert !FrameOK(q, g);
      }
    }
  }

  // Changing one frame that keeps its page, and its place in the order alone.
  lemma ChangedFramed<D>(p: Pool<D>, q: Pool<D>, f: int)
    requires Framed(p) && 0 <= f < |p.frames| && p.frames[f].pageId != INVALID_PAGE_ID
    requires q.free == p.free && q.table == p.table && q.nextPageId == p.nextPageId && |q.frames| == |p.frames|
    requires q.frames[f].pageId == p.frames[f].pageId && forall g :: 0 <= g < |p.frames| && g != f ==>
             q.frames[g] == p.frames[g]
    requires Distinct(q.order) && (f in q.order <==> q.frames[f].pins == 0)
    requires forall g :: g != f ==> (g in q.order <==> g in p.order)
    ensures Framed(q)
  {
    forall g | 0 <= g < |q.frames| ensures FrameOK(q, g) {
      assert FrameOK(p, g);
    }
    forall x | x in q.table ensures EntryOK(q, x) {
      assert EntryOK(p, x);
    }
  }

  lemma UnpinFramed<D>(p: Pool<D>, pid: int, dirty: bool)
    requires Framed(p)
    ensures Framed(Unpin(p, pid, dirty))
  {
    if pid in p.table {
      assert EntryOK(p, pid);
      var f := p.table[pid];
      assert FrameOK(p, f);
      DropMembers(p.order, f);
      ChangedFramed(p, Unpin(p, pid, dirty), f);
    }
  }

  lemma FlushFramed<D>(p: Pool<D>, pid: int)
    requires Framed(p)
    ensures Framed(Flush(p, pid))
  {
    if pid in p.table {
      assert EntryOK(p, pid);
      assert FrameOK(p, p.table[pid]);
      ChangedFramed(p, Flush(p, pid), p.table[pid]);
    }
  }

  lemma WriteFramed<D>(p: Pool<D>, f: int, data: D)
    requires Framed(p) && 0 <= f < |p.frames| && p.frames[f].pins > 0
    ensures Framed(Write(p, f, data))
  {
    assert FrameOK(p, f);
    ChangedFramed(p, Write(p, f, data), f);
  }

  // --- contents ---

  // A fetch of page pid, while it is not in the pool, shows d: the file has it, or d is zeros and the
  // page is the next one behind the end of the file. Page 1 behind an empty file counts too, because
  // frames that are not written back then hold zeros.
  ghost predicate FileGives<D>(p: Pool<D>, pid: int, d: D) {
    && 0 <= pid
    && if pid < |p.disk| then p.disk[pid] == d else d == p.zero && (pid == |p.disk| || pid == 1)
  }

  // A cached page shows the bytes last left in it, and the file gives them for an unpinned one that is
  // not dirty; it gives them for any other page.
  ghost predicate PageFaithful<D>(p: Pool<D>, last: map<int, D>, pid: int)
    requires Framed(p) && pid in last
  {
    if pid in p.table then
      assert EntryOK(p, pid);
      var r := p.frames[p.table[pid]];
      r.data == last[pid] && (r.pins == 0 && !r.dirty ==> FileGives(p, pid, last[pid]))
    else FileGives(p, pid, last[pid])
  }

  ghost predicate Faithful<D>(p: Pool<D>, last: map<int, D>) {
    && Framed(p) && (forall pid :: pid in last ==> 0 <= pid) && p.table.Keys <= last.Keys
    && (forall f :: f in p.free ==> p.frames[f].data == p.zero)
    && forall pid {:trigger PageFaithful(p, last, pid)} :: pid in last ==> PageFaithful(p, last, pid)
  }

  lemma InstallFaithful<D>(p: Pool<D>, last: map<int, D>, pid: int, data: D, x: int)
    requires Faithful(p, last) && Victim(p).Some? && x in last && x != pid
    requires 0 <= Victim(p).value < |p.frames|
    requires p.frames[Victim(p).value].dirty ==> p.frames[Victim(p).value].pageId >= 0
    requires Framed(Install(Taken(p), Victim(p).value, pid, data))
    ensures PageFaithful(Install(Taken(p), Victim(p).value, pid, data), last, x)
  {
    var f := Victim(p).value;
    VictimFrame(p);
    assert FrameOK(p, f) && PageFaithful(p, last, x);
    assert x in p.table ==> EntryOK(p, x);
    var r := p.frames[f];
    assert r.pageId in p.table ==> EntryOK(p, r.pageId);
  }

  // A page that no one has left bytes in counts with the bytes that its first fetch shows.
  ghost function Noted<D>(p: Pool<D>, last: map<int, D>, pid: int): map<int, D>
    requires Framed(p) && 0 <= pid
  {
    FetchFramed(p, pid);
    var q := Fetch(p, pid);
    if pid in last || pid !in q.table then last
    else assert EntryOK(q, pid); last[pid := q.frames[q.table[pid]].data]
  }

  // What a fetch of an absent page reads is what was last left in it.
  lemma ReadGives<D>(p: Pool<D>, last: map<int, D>, pid: int)
    requires Faithful(p, last) && Victim(p).Some? && pid in last && pid !in p.table
    ensures var f := Victim(p).value;
            && 0 <= f < |p.frames| && (p.frames[f].dirty ==> p.frames[f].pageId >= 0)
            && Read(p, pid, f) == last[pid]
  {
    VictimFrame(p);
    var f := Victim(p).value;
    var y := p.frames[f].pageId;
    assert FrameOK(p, f) && PageFaithful(p, last, pid);
    if y in p.table {
      assert EntryOK(p, y) && PageFaithful(p, last, y);
    }
  }

  lemma FetchFaithful<D>(p: Pool<D>, last: map<int, D>, pid: int)
    requires Faithful(p, last) && 0 <= pid
    ensures Faithful(Fetch(p, pid), Noted(p, last, pid))
  {
    FetchFramed(p, pid);
    var q, last2 := Fetch(p, pid), Noted(p, last, pid);
    if pid !in p.table && Victim(p).Some? {
      VictimFrame(p);
      TakenMembers(p);
    }
    assert pid in p.table ==> EntryOK(p, pid);
    assert forall f :: f in q.free ==> q.frames[f].data == q.zero;
    assert q.table.Keys <= last2.Keys;
    forall x | x in last2 ensures PageFaithful(q, last2, x) {
      if pid in p.table {
        assert PageFaithful(p, last, x) && EntryOK(p, pid);
        assert x in p.table ==> EntryOK(p, x);
      } else if Victim(p).Some? {
        MissFaithful(p, last, pid, x);
      } else {
        assert PageFaithful(p, last, x);
      }
    }
  }

  lemma MissFaithful<D>(p: Pool<D>, last: map<int, D>, pid: int, x: int)
    requires Faithful(p, last) && 0 <= pid && pid !in p.table && Victim(p).Some? && x in Noted(p, last, pid)
    ensures Framed(Fetch(p, pid)) && PageFaithful(Fetch(p, pid), Noted(p, last, pid), x)
  {
    FetchFramed(p, pid);
    VictimFrame(p);
    if x != pid {
      InstallFaithful(p, last, pid, Read(p, pid, Victim(p).value), x);
    } else {
      assert EntryOK(Fetch(p, pid), pid);
      if pid in last {
        ReadGives(p, last, pid);
      }
    }
  }

  // A fetched page shows the bytes last left in it.
  lemma FetchShows<D>(p: Pool<D>, last: map<int, D>, pid: int)
    requires Faithful(p, last) && 0 <= pid
    ensures var q := Fetch(p, pid);
            pid in q.table ==> 0 <= q.table[pid] < |q.frames| && q.frames[q.table[pid]].pins > 0
    ensures var q := Fetch(p, pid);
            pid in q.table && pid in last ==> q.frames[q.table[pid]].data == last[pid]
    ensures pid in Fetch(p, pid).table <==> pid in p.table || exists f :: 0 <= f < |p.frames| && p.frames[f].pins == 0
  {
    FetchFaithful(p, last, pid);
    VictimIff(p);
    var q := Fetch(p, pid);
    if pid in p.table {
      assert EntryOK(p, pid);
    }
    if pid in q.table {
      assert PageFaithful(q, Noted(p, last, pid), pid) && EntryOK(q, pid);
    }
  }

  lemma NewFaithful<D>(p: Pool<D>, last: map<int, D>)
    requires Faithful(p, last) && p.nextPageId >= 0 && (Victim(p).Some? ==> FreshId(p))
    ensures Faithful(New(p), if Victim(p).None? then last else last[p.nextPageId := p.zero])
  {
    NewFramedIff(p);
    if Victim(p).Some? {
      var pid, f := p.nextPageId, Victim(p).value;
      VictimFrame(p);
      var q, last2 := New(p), last[p.nextPageId := p.zero];
      var q0 := Install(Taken(p), f, pid, p.zero);
      FramedCounter(q0, pid + 1);
      forall x | x in last2 ensures PageFaithful(q, last2, x) {
        if x != pid {
          InstallFaithful(p, last, pid, p.zero, x);
          assert PageFaithful(q0, last, x);
        }
      }
    }
  }

  lemma WriteFaithful<D>(p: Pool<D>, last: map<int, D>, f: int, data: D)
    requires Faithful(p, last) && 0 <= f < |p.frames| && p.frames[f].pins > 0
    ensures Faithful(Write(p, f, data), last[p.frames[f].pageId := data])
  {
    WriteFramed(p, f, data);
    assert FrameOK(p, f);
    var q, pid := Write(p, f, data), p.frames[f].pageId;
    assert EntryOK(p, pid);
    var last2 := last[pid := data];
    forall x | x in last2 ensures PageFaithful(q, last2, x) {
      assert PageFaithful(p, last, x);
      assert x in p.table ==> EntryOK(p, x);
    }
  }

  lemma FlushFaithful<D>(p: Pool<D>, last: map<int, D>, pid: int)
    requires Faithful(p, last)
    ensures Faithful(Flush(p, pid), last)
  {
    FlushFramed(p, pid);
    var q := Flush(p, pid);
    forall x | x in last ensures PageFaithful(q, last, x) {
      assert PageFaithful(p, last, x);
      assert x in p.table ==> EntryOK(p, x);
      assert pid in p.table ==> EntryOK(p, pid);
    }
  }

  // The flag tells the truth whenever this call leaves the page unpinned.
  ghost predicate UnpinRule<D>(p: Pool<D>, pid: int, dirty: bool)
    requires Framed(p)
  {
    pid in p.table ==>
      assert EntryOK(p, pid);
      var r := p.frames[p.table[pid]];
      r.pins > 1 || dirty || FileGives(p, pid, r.data)
  }

  // Unpinning keeps the contents exactly under that rule.
  lemma UnpinFaithfulIff<D>(p: Pool<D>, last: map<int, D>, pid: int, dirty: bool)
    requires Faithful(p, last)
    ensures Faithful(Unpin(p, pid, dirty), last) <==> UnpinRule(p, pid, dirty)
  {
    UnpinFramed(p, pid, dirty);
    var q := Unpin(p, pid, dirty);
    if pid in p.table {
      assert EntryOK(p, pid) && PageFaithful(p, last, pid);
      forall x | x in last && x != pid ensures PageFaithful(q, last, x) {
        assert PageFaithful(p, last, x);
        assert x in p.table ==> EntryOK(p, x);
      }
      assert PageFaithful(q, last, pid) <==> UnpinRule(p, pid, dirty);
    }
  }

  // Page pid of the file has the bytes d, and every other page is as it was, zeros behind the old end.
  ghost predicate Written<D>(disk: seq<D>, pid: int, d: D, zero: D, disk2: seq<D>) {
    && 0 <= pid < |disk2| && disk2[pid] == d && |disk2| == (if pid < |disk| then |disk| else pid + 1)
    && forall i :: 0 <= i < |disk2| && i != pid ==> disk2[i] == if i < |disk| then disk[i] else zero
  }

  ghost predicate Dirty<D>(p: Pool<D>, pid: int)
    requires Framed(p)
  {
    pid in p.table && (assert EntryOK(p, pid); p.frames[p.table[pid]].dirty)
  }

  // The bytes of a page in the pool.
  ghost function Bytes<D>(p: Pool<D>, pid: int): D
    requires Framed(p) && pid in p.table
  {
    assert EntryOK(p, pid);
    p.frames[p.table[pid]].data
  }

  // A flush of a dirty page puts its bytes into the file and leaves it clean; any other flush does
  // nothing.
  lemma FlushWrites<D>(p: Pool<D>, pid: int)
    requires Framed(p)
    ensures var q := Flush(p, pid);
            && Framed(q) && q.table == p.table && q.order == p.order && q.free == p.free && !Dirty(q, pid)
            && (!Dirty(p, pid) ==> q == p)
            && (Dirty(p, pid) ==> Bytes(q, pid) == Bytes(p, pid) && Written(p.disk, pid, Bytes(p, pid), p.zero, q.disk))
            && forall x :: x != pid ==> (Dirty(q, x) <==> Dirty(p, x)) && (x in p.table ==> Bytes(q, x) == Bytes(p, x))
  {
    FlushFramed(p, pid);
    var q := Flush(p, pid);
    if pid in p.table {
      assert EntryOK(p, pid) && EntryOK(q, pid);
    }
    forall x | x != pid && x in p.table ensures (Dirty(q, x) <==> Dirty(p, x)) && Bytes(q, x) == Bytes(p, x) {
      assert EntryOK(p, x) && EntryOK(q, x);
      if pid in p.table {
        assert EntryOK(p, pid);
      }
    }
  }

  // The pages of the file.
  function OnFile<D>(disk: seq<D>): map<int, D> {
    map pid | 0 <= pid < |disk| :: disk[pid]
  }

  lemma EmptyPool<D>(p: Pool<D>)
    requires p.table == map[] && p.order == [] && |p.free| == |p.frames|
    requires forall f :: 0 <= f < |p.frames| ==>
               p.free[f] == f && p.frames[f] == Frame(INVALID_PAGE_ID, 0, false, p.zero)
    ensures Framed(p) && Faithful(p, OnFile(p.disk))
  {
    forall f | 0 <= f < |p.frames| ensures FrameOK(p, f) {
      assert p.free[f] == f;
    }
  }
}
