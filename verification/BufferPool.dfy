/**
 The buffer pool manager: frames changed in place, found through an extendible hash table and
 reused in the order of an LRU replacer.
 */
module BufferPools {
  import opened HashDirectory
  import opened ExtendibleHashing
  import opened LruReplacers
  import opened Options
  import opened PoolModel

  const BUCKET_SIZE := 50
  const PAGE_ID_LIMIT := 0x8000_0000

  class BufferPoolManager<D> {
    const zero: D
    const pageTable: ExtendibleHash<int>
    const replacer: LruReplacer<int>
    var frames: seq<Frame<D>>
    var freeList: seq<int>
    var disk: seq<D>
    var nextPageId: int

    ghost function State(): Pool<D>
      requires |replacer.nodes| >= 2
      reads this, pageTable, replacer
    {
      Pool(frames, freeList, pageTable.contents, replacer.Order(), disk, nextPageId, zero)
    }

    ghost predicate Valid()
      reads this, pageTable, pageTable.buckets, replacer, replacer.nodes
    {
      && pageTable.Valid() && replacer.Valid() && Framed(State())
      && 0 <= nextPageId <= PAGE_ID_LIMIT && (forall pid :: pid in pageTable.contents ==> pid < PAGE_ID_LIMIT)
    }

    twostate predicate Grown()
      reads this, pageTable, replacer
    {
      pageTable.Grown() && replacer.Grown()
    }

    // Opens a pool over a file. The page ids start at 0 whatever the file holds.
    constructor (size: nat, zero: D, file: seq<D>)
      ensures Valid() && |frames| == size && this.zero == zero && disk == file && nextPageId == 0
      ensures fresh(pageTable) && fresh(pageTable.buckets) && fresh(replacer) && fresh(replacer.nodes)
      ensures Faithful(State(), OnFile(file))
    {
      var hash := new ExtendibleHash<int>(BUCKET_SIZE);
      var lru := new LruReplacer<int>(0);
      this.zero := zero;
      pageTable, replacer := hash, lru;
      frames := seq(size, _ => Frame(INVALID_PAGE_ID, 0, false, zero));
      freeList := seq(size, i => i);
      disk, nextPageId := file, 0;
      new;
      EmptyPool(State());
    }

    // Takes the frame to reuse out of the free list or the replacer; none if all are pinned.
    method GetVictimPage() returns (f: Option<int>)
      requires Valid()
      modifies this`freeList, replacer, replacer.nodes
      ensures replacer.Valid() && replacer.Grown() && f == Victim(old(State()))
      ensures State() == if f.None? then old(State()) else Taken(old(State()))
    {
      if |freeList| == 0 {
        var n := replacer.Size();
        if n == 0 {
          return None;
        }
        f := replacer.Victim();
      } else {
        f := Some(freeList[0]);
        freeList := freeList[1..];
      }
    }

    // Parts of the pool that hold on their own.
    ghost predicate Parts()
      reads this, pageTable, pageTable.buckets, replacer, replacer.nodes
    {
      pageTable.Valid() && replacer.Valid()
    }

    // Maps page pid to frame f in place of page was.
    method Remap(was: int, pid: int, f: int)
      requires pageTable.Valid() && 0 <= pid < PAGE_ID_LIMIT && INVALID_PAGE_ID <= was < PAGE_ID_LIMIT
      modifies pageTable, pageTable.buckets
      ensures pageTable.Valid() && pageTable.Grown() && pageTable.contents ==
              (old(pageTable.contents) - {was})[pid := f]
    {
      var gone := pageTable.Remove(was);
      pageTable.Insert(pid, f);
    }

    // Writes the old page of frame f back if it is dirty, and gives the frame to page pid.
    method Replace(f: int, pid: int, data: D)
      requires Parts() && Reusable(f) && 0 <= pid < PAGE_ID_LIMIT
      modifies this`frames, this`disk, pageTable, pageTable.buckets
      ensures Parts() && pageTable.Grown() && State() == Install(old(State()), f, pid, data)
    {
      var was := frames[f];
      if was.dirty {
        disk := WritePage(disk, was.pageId, was.data, zero);
      }
      Remap(was.pageId, pid, f);
      frames := frames[f := Frame(pid, 1, false, data)];
    }

    // A page that is in the pool is pinned and leaves the replacer.
    method PinFrame(f: int)
      requires Parts() && 0 <= f < |frames|
      modifies this`frames, replacer, replacer.nodes
      ensures Parts() && replacer.Grown() && State() == Pin(old(State()), f)
    {
      frames := frames[f := frames[f].(pins := frames[f].pins + 1)];
      var ok := replacer.Erase(f);
    }

    ghost predicate Reusable(f: int)
      reads this
    {
      && 0 <= f < |frames| && INVALID_PAGE_ID <= frames[f].pageId < PAGE_ID_LIMIT
      && (frames[f].dirty ==> frames[f].pageId >= 0)
    }

    lemma VictimReusable()
      requires Valid() && Victim(State()).Some?
      ensures Reusable(Victim(State()).value)
    {
      var p := State();
      VictimFrame(p);
      var f := Victim(p).value;
      assert FrameOK(p, f);
      assert p.frames[f].pageId in p.table ==> EntryOK(p, p.frames[f].pageId);
    }

    // Brings page pid in from disk.
    method LoadPage(pid: int) returns (f: Option<int>)
      requires Valid() && 0 <= pid < PAGE_ID_LIMIT && pid !in pageTable.contents
      modifies this`frames, this`disk, this`freeList, pageTable, pageTable.buckets, replacer, replacer.nodes
      ensures Parts() && Grown() && State() == Fetch(old(State()), pid) && f == Victim(old(State()))
    {
      if Victim(State()).Some? {
        VictimReusable();
      }
      f := GetVictimPage();
      if f.Some? {
        var victim := frames[f.value];
        var file := if victim.dirty then WritePage(disk, victim.pageId, victim.data, zero) else disk;
        Replace(f.value, pid, ReadPage(file, pid, victim.data, zero));
      }
    }

    method FetchPage(pid: int) returns (f: Option<int>)
      requires Valid() && 0 <= pid < PAGE_ID_LIMIT
      modifies this, pageTable, pageTable.buckets, replacer, replacer.nodes
      ensures Valid() && Grown() && State() == Fetch(old(State()), pid)
      ensures f == if pid in State().table then Some(State().table[pid]) else None
    {
      FetchFramed(State(), pid);
      f := pageTable.Find(pid);
      if f.Some? {
        assert EntryOK(State(), pid);
        PinFrame(f.value);
      } else {
        f := LoadPage(pid);
      }
    }

    method PlaceNew(f: int) returns (pid: int)
      requires Parts() && Reusable(f) && 0 <= nextPageId < PAGE_ID_LIMIT
      modifies this`frames, this`disk, this`nextPageId, pageTable, pageTable.buckets
      ensures Parts() && pageTable.Grown() && pid == old(nextPageId)
      ensures State() == Install(old(State()), f, pid, zero).(nextPageId := pid + 1)
    {
      pid := nextPageId;
      Replace(f, pid, zero);
      nextPageId := nextPageId + 1;
    }

    // The pool stays in order exactly when the id is not that of a page held in another frame.
    method NewPage() returns (f: Option<int>, pid: int)
      requires Valid() && nextPageId < PAGE_ID_LIMIT
      modifies this, pageTable, pageTable.buckets, replacer, replacer.nodes
      ensures Parts() && Grown() && State() == New(old(State()))
      ensures Valid() <==> Victim(old(State())).None? || FreshId(old(State()))
      ensures f == Victim(old(State())) && (f.Some? ==> pid == old(nextPageId))
      ensures f.Some? ==> 0 <= f.value < |frames| && frames[f.value] == Frame(pid, 1, false, zero)
    {
      ghost var p := State();
      NewFramedIff(p);
      pid := INVALID_PAGE_ID;
      if Victim(p).Some? {
        VictimReusable();
      }
      f := GetVictimPage();
      if f.Some? {
        pid := PlaceNew(f.value);
      }
      assert State() == New(p);
    }

    method Release(f: int, isDirty: bool) returns (ok: bool)
      requires Parts() && 0 <= f < |frames|
      modifies this`frames, replacer, replacer.nodes
      ensures Parts() && replacer.Grown() && State() == UnpinFrame(old(State()), f, isDirty)
      ensures ok == (old(frames)[f].pins > 0)
    {
      frames := frames[f := frames[f].(dirty := isDirty)];
      if frames[f].pins <= 0 {
        return false;
      }
      frames := frames[f := frames[f].(pins := frames[f].pins - 1)];
      if frames[f].pins == 0 {
        replacer.Insert(f);
      }
      return true;
    }

    method UnpinPage(pid: int, isDirty: bool) returns (ok: bool)
      requires Valid() && INVALID_PAGE_ID <= pid < PAGE_ID_LIMIT
      modifies this`frames, replacer, replacer.nodes
      ensures Valid() && Grown() && State() == Unpin(old(State()), pid, isDirty) && ok == (Pins(old(State()), pid) > 0)
    {
      UnpinFramed(State(), pid, isDirty);
      var r := pageTable.Find(pid);
      if r.None? {
        return false;
      }
      assert EntryOK(State(), pid);
      ok := Release(r.value, isDirty);
    }

    method FlushPage(pid: int) returns (ok: bool)
      requires Valid() && INVALID_PAGE_ID <= pid < PAGE_ID_LIMIT
      modifies this`frames, this`disk
      ensures Valid() && State() == Flush(old(State()), pid) && ok == (pid in State().table) && !Dirty(State(), pid)
      ensures old(Dirty(State(), pid)) ==> Written(old(disk), pid, Bytes(State(), pid), zero, disk)
      ensures !old(Dirty(State(), pid)) ==> disk == old(disk) && frames == old(frames)
    {
      FlushWrites(State(), pid);
      var r := pageTable.Find(pid);
      if r.None? {
        return false;
      }
      assert EntryOK(State(), pid);
      var f := r.value;
      if frames[f].dirty {
        disk := WritePage(disk, pid, frames[f].data, zero);
        frames := frames[f := frames[f].(dirty := false)];
      }
      return true;
    }

    // What a client does with a page that it holds.
    method ChangeData(f: int, data: D)
      requires Valid() && 0 <= f < |frames| && frames[f].pins > 0
      modifies this`frames
      ensures Valid() && State() == Write(old(State()), f, data)
    {
      WriteFramed(State(), f, data);
      frames := frames[f := frames[f].(data := data)];
    }
  }
}
