/**
 The table page as one array of bytes, changed in place. The contracts speak of its cells.
 */
module TablePages {
  import opened SlottedPage
  import opened SlottedOps
  import opened PageBytes
  import opened CellPage
  import opened PageSteps

  class TablePage {
    const data: array<byte>
    ghost var page: Page

    // The bytes hold the layout.
    ghost predicate Encoded()
      reads this, data
    {
      data.Length == PAGE_SIZE && Layout(data[..], page)
    }

    ghost predicate Valid()
      reads this, data
    {
      Encoded() && SlottedPage.Valid(page)
    }

    ghost function Contents(): seq<Cell>
      requires Valid()
      reads this, data
    {
      Cells(page)
    }

    // --- raw access ---

    method CopyIn(at: nat, bytes: seq<byte>)
      requires at + |bytes| <= data.Length
      modifies data
      ensures data[..] == Write(old(data[..]), at, bytes)
    {
      var i := 0;
      while i < |bytes|
        invariant 0 <= i <= |bytes|
        invariant data[..] == Write(old(data[..]), at, bytes[..i])
      {
        data[at + i] := bytes[i];
        i := i + 1;
      }
      assert bytes[..i] == bytes;
    }

    method WriteInt(pos: nat, v: int)
      requires pos + 4 <= data.Length && MIN_INT <= v <= MAX_INT
      modifies data
      ensures data[..] == PutInt(old(data[..]), pos, v)
    {
      CopyIn(pos, Encode(v));
    }

    function ReadInt(pos: nat): int
      requires pos + 4 <= data.Length
      reads data
    {
      GetInt(data[..], pos)
    }

    // --- header and slot fields ---

    method SetFreeSpacePointer(v: int)
      requires Encoded() && MIN_INT <= v <= MAX_INT
      modifies this, data
      ensures Encoded() && page == old(page).(free := v)
    {
      WriteFree(data[..], page, v);
      WriteInt(FREE_AT, v);
      page := page.(free := v);
    }

    method SetTupleOffset(k: nat, v: int)
      requires Encoded() && k < |page.slots| && MIN_INT <= v <= MAX_INT
      modifies this, data
      ensures Encoded() && page == old(page).(slots := old(page).slots[k := old(page).slots[k].(off := v)])
    {
      ghost var s := page.slots[k].(off := v);
      WriteSlotField(data[..], page, k, v, s, OffsetAt(k));
      WriteInt(OffsetAt(k), v);
      page := page.(slots := page.slots[k := s]);
    }

    method SetTupleSize(k: nat, v: int)
      requires Encoded() && k < |page.slots| && MIN_INT <= v <= MAX_INT
      modifies this, data
      ensures Encoded() && page == old(page).(slots := old(page).slots[k := old(page).slots[k].(size := v)])
    {
      ghost var s := page.slots[k].(size := v);
      WriteSlotField(data[..], page, k, v, s, SizeAt(k));
      WriteInt(SizeAt(k), v);
      page := page.(slots := page.slots[k := s]);
    }

    method SetSlot(k: nat, off: int, size: int)
      requires Encoded() && k < |page.slots| && MIN_INT <= off <= MAX_INT && MIN_INT <= size <= MAX_INT
      modifies this, data
      ensures Encoded() && page == old(page).(slots := old(page).slots[k := Slot(off, size)])
    {
      ghost var ss := page.slots;
      SetTupleOffset(k, off);
      SetTupleSize(k, size);
      assert ss[k := ss[k].(off := off)][k := Slot(off, size)] == ss[k := Slot(off, size)];
    }

    // The fields of a slot one past the last, then the count.
    method AddSlot(n: nat, off: int, size: int)
      requires Encoded() && n == |page.slots| && OffsetAt(n + 1) <= PAGE_SIZE
      requires MIN_INT <= off <= MAX_INT && MIN_INT <= size <= MAX_INT
      modifies this, data
      ensures Encoded() && page == old(page).(slots := old(page).slots + [Slot(off, size)])
    {
      WriteNewSlot(data[..], page, Slot(off, size));
      WriteInt(OffsetAt(n), off);
      WriteInt(SizeAt(n), size);
      WriteInt(COUNT_AT, n + 1);
      page := page.(slots := page.slots + [Slot(off, size)]);
    }

    method WriteTuple(at: nat, bytes: seq<byte>)
      requires Encoded() && OffsetAt(|page.slots|) <= at && at + |bytes| <= PAGE_SIZE
      modifies this, data
      ensures Encoded() && page == old(page).(body := Write(old(page).body, at, bytes))
    {
      WriteBody(data[..], page, at, bytes);
      CopyIn(at, bytes);
      page := page.(body := Write(page.body, at, bytes));
    }

    // memmove behind the slots
    method MoveTuples(dst: nat, src: nat, n: nat)
      requires Encoded() && OffsetAt(|page.slots|) <= dst && OffsetAt(|page.slots|) <= src
      requires dst + n <= PAGE_SIZE && src + n <= PAGE_SIZE
      modifies this, data
      ensures Encoded() && page == old(page).(body := Move(old(page).body, dst, src, n))
    {
      var moved := data[src..src + n];
      assert moved == page.body[src..src + n] by {
        var k := OffsetAt(|page.slots|);
        assert data[..][k..PAGE_SIZE] == data[..][k..] && page.body[k..PAGE_SIZE] == page.body[k..];
        SubSlice(data[..], k, page.body, k, PAGE_SIZE - k, src - k, n);
      }
      WriteTuple(dst, moved);
    }

    method TupleCount() returns (n: nat)
      requires Encoded()
      ensures n == |page.slots|
    {
      n := ReadInt(COUNT_AT);
    }

    method TupleSize(k: nat) returns (v: int)
      requires Encoded() && k < |page.slots|
      ensures v == page.slots[k].size
    {
      assert SlotAt(data[..], k, page.slots[k]);
      v := ReadInt(SizeAt(k));
    }

    method TupleOffset(k: nat) returns (v: int)
      requires Encoded() && k < |page.slots|
      ensures v == page.slots[k].off
    {
      assert SlotAt(data[..], k, page.slots[k]);
      v := ReadInt(OffsetAt(k));
    }

    method FreeSpacePointer() returns (v: int)
      requires Encoded()
      ensures v == page.free
    {
      v := ReadInt(FREE_AT);
    }

    method FreeSpaceSize() returns (n: int)
      requires Encoded()
      ensures n == FreeSpace(page)
    {
      n := ReadInt(FREE_AT) - HEADER_SIZE - SLOT_SIZE * ReadInt(COUNT_AT);
    }

    method FindEmptySlot() returns (i: nat)
      requires Encoded()
      ensures i == FirstEmpty(page.slots)
    {
      var n := TupleCount();
      i := 0;
      while i < n
        invariant 0 <= i <= n && forall j :: 0 <= j < i ==> page.slots[j].size != 0
      {
        var size := TupleSize(i);
        if size == 0 {
          break;
        }
        i := i + 1;
      }
    }

    // --- the operations ---

    // An empty page.
    constructor ()
      ensures Valid() && Contents() == [] && fresh(data)
    {
      var bytes := new byte[PAGE_SIZE](_ => 0);
      data := bytes;
      page := Page(0, [], seq(PAGE_SIZE, _ => 0));
      new;
      assert data[..] == page.body;
      assert page.body[FREE_AT..FREE_AT + 4] == [0, 0, 0, 0] && page.body[COUNT_AT..COUNT_AT + 4] == [0, 0, 0, 0];
      ZeroInt();
      SetFreeSpacePointer(PAGE_SIZE);
      assert Contents() == [];
    }

    static lemma ZeroInt()
      ensures Decode([0, 0, 0, 0]) == 0
    {
      assert FromBytes([0]) == 0 && FromBytes([0, 0]) == 0 && FromBytes([0, 0, 0]) == 0 by {
        assert [0, 0][1..] == [0] && [0, 0, 0][1..] == [0, 0];
      }
      assert [0, 0, 0, 0][1..] == [0, 0, 0];
    }

    method InsertTuple(bytes: seq<byte>) returns (ok: bool, slot: nat)
      requires Valid() && |bytes| > 0
      modifies this, data
      ensures Valid() && ok == Accepts(old(Contents()), |bytes|) == (Room(Put(old(Contents()), bytes)) >= 0)
      ensures ok ==> slot == FirstFree(old(Contents())) && Contents() == Put(old(Contents()), bytes)
      ensures !ok ==> Contents() == old(Contents())
      ensures page == Step(old(page), InsertOp(bytes))
    {
      CellsDecide(page);
      AcceptsIff(Contents(), bytes);
      var space := FreeSpaceSize();
      slot := 0;
      if space < |bytes| {
        return false, slot;
      }
      slot := FindEmptySlot();
      var n := TupleCount();
      if slot == n && space < |bytes| + SLOT_SIZE {
        return false, slot;
      }
      ok := true;
      InsertCells(page, bytes);
      WriteInserted(slot, n, bytes);
    }

    method WriteInserted(slot: nat, n: nat, bytes: seq<byte>)
      requires Valid() && |bytes| > 0 && Fits(page, |bytes|) && slot == FirstEmpty(page.slots) && n == |page.slots|
      modifies this, data
      ensures Encoded() && page == Insert(old(page), bytes)
    {
      ghost var p := page;
      var pointer := FreeSpacePointer();
      var free := pointer - |bytes|;
      SetFreeSpacePointer(free);
      WriteTuple(free, bytes);
      if slot == n {
        AddSlot(n, free, |bytes|);
      } else {
        SetSlot(slot, free, |bytes|);
      }
    }

    method MarkDelete(slot: nat) returns (ok: bool)
      requires Valid()
      modifies this, data
      ensures Valid() && ok == (slot < |old(Contents())| && !old(Contents())[slot].Marked?)
      ensures Contents() == Delete(old(Contents()), slot) && page == Step(old(page), MarkDeleteOp(slot))
    {
      var n := TupleCount();
      CellsDecide(page);
      if slot >= n {
        return false;
      }
      CellKinds(page, slot);
      var size := TupleSize(slot);
      if size < 0 {
        return false;
      }
      if size > 0 {
        Flip(slot, size);
      }
      ok := true;
    }

    method RollbackDelete(slot: nat)
      requires Valid() && slot < |Contents()|
      modifies this, data
      ensures Valid() && Contents() == Undelete(old(Contents()), slot) &&
              page == Step(old(page), RollbackDeleteOp(slot))
    {
      CellKinds(page, slot);
      var size := TupleSize(slot);
      if size < 0 {
        Flip(slot, size);
      }
    }

    // Turns the sign of a slot's size around.
    method Flip(slot: nat, size: int)
      requires Valid() && slot < |page.slots| && size == page.slots[slot].size != 0
      modifies this, data
      ensures Valid() && page == if size > 0 then Mark(old(page), slot) else Unmark(old(page), slot)
      ensures Contents() == if size > 0 then Delete(old(Contents()), slot) else Undelete(old(Contents()), slot)
    {
      ghost var p := page;
      CellKinds(p, slot);
      assert InRange(p.slots[slot], p.free);
      SetTupleSize(slot, -size);
      FlipCells(p, slot, page);
    }

    // Adds gap to the offsets of the tuples below a limit.
    method MoveOffsets(limit: int, gap: int, markedToo: bool)
      requires Encoded() && -PAGE_SIZE <= gap <= PAGE_SIZE
      requires OnPage(page.slots)
      modifies this, data
      ensures Encoded() && page == old(page).(slots := MoveSlots(old(page).slots, limit, gap, markedToo))
    {
      ghost var p := page;
      var n := TupleCount();
      var i := 0;
      PartlyEnds(p.slots, limit, gap, markedToo);
      while i < n
        invariant 0 <= i <= n == |p.slots| && Encoded()
        invariant page == p.(slots := Partly(p.slots, i, limit, gap, markedToo))
      {
        MoveNth(i, limit, gap, markedToo, p);
        i := i + 1;
      }
    }

    static lemma PartlyEnds(ss: seq<Slot>, limit: int, gap: int, markedToo: bool)
      ensures Partly(ss, 0, limit, gap, markedToo) == ss
      ensures Partly(ss, |ss|, limit, gap, markedToo) == MoveSlots(ss, limit, gap, markedToo)
    {}

    static ghost predicate OnPage(ss: seq<Slot>) {
      forall i :: 0 <= i < |ss| && ss[i].size != 0 ==> 0 <= ss[i].off <= PAGE_SIZE
    }

    // The first i offsets have been moved.
    static ghost function Partly(ss: seq<Slot>, i: nat, limit: int, gap: int, markedToo: bool): seq<Slot>
      requires i <= |ss|
    {
      MoveSlots(ss, limit, gap, markedToo)[..i] + ss[i..]
    }

    method MoveNth(i: nat, limit: int, gap: int, markedToo: bool, ghost p: Page)
      requires Encoded() && -PAGE_SIZE <= gap <= PAGE_SIZE && i < |p.slots|
      requires OnPage(p.slots)
      requires page == p.(slots := Partly(p.slots, i, limit, gap, markedToo))
      modifies this, data
      ensures Encoded() && page == p.(slots := Partly(p.slots, i + 1, limit, gap, markedToo))
    {
      assert page.slots[i] == p.slots[i];
      MoveOffset(i, limit, gap, markedToo);
      Advance(p.slots, i, limit, gap, markedToo);
    }

    static lemma Advance(ss: seq<Slot>, i: nat, limit: int, gap: int, markedToo: bool)
      requires i < |ss|
      ensures Partly(ss, i, limit, gap, markedToo)[i := MoveSlot(ss[i], limit, gap, markedToo)]
           == Partly(ss, i + 1, limit, gap, markedToo)
    {}

    method MoveOffset(i: nat, limit: int, gap: int, markedToo: bool)
      requires Encoded() && -PAGE_SIZE <= gap <= PAGE_SIZE && i < |page.slots|
      requires page.slots[i].size != 0 ==> 0 <= page.slots[i].off <= PAGE_SIZE
      modifies this, data
      ensures Encoded()
      ensures page == old(page).(slots := old(page).slots[i := MoveSlot(old(page).slots[i], limit, gap, markedToo)])
    {
      var off := TupleOffset(i);
      var size := TupleSize(i);
      if (size > 0 || (markedToo && size != 0)) && off < limit {
        SetTupleOffset(i, off + gap);
      }
    }

    method UpdateTuple(slot: nat, bytes: seq<byte>) returns (ok: bool, was: seq<byte>)
      requires Valid()
      modifies this, data
      ensures Encoded() && ok == CanReplace(old(Contents()), slot, |bytes|)
      ensures ok <==> var cs := old(Contents()); slot < |cs| && cs[slot].Live? && Room(cs[slot := Live(bytes)]) >= 0
      ensures !ok ==> Valid() && Contents() == old(Contents())
      ensures ok ==> Live(was) == old(Contents())[slot]
      ensures ok ==> (Valid() <==> |bytes| == |was| || !MarkedBelow(old(page), slot))
      ensures ok && Valid() ==> Contents() == old(Contents())[slot := Holding(bytes)]
      ensures page == Step(old(page), UpdateOp(slot, bytes))
    {
      ghost var p := page;
      CellsDecide(p);
      ReplaceIff(Contents(), slot, bytes);
      was := [];
      var n := TupleCount();
      if slot >= n {
        return false, was;
      }
      CellKinds(p, slot);
      var size := TupleSize(slot);
      if size <= 0 {
        return false, was;
      }
      var space := FreeSpaceSize();
      if space < |bytes| - size {
        return false, was;
      }
      was := ReadTuple(slot);
      WriteUpdated(slot, size, bytes);
      ok := true;
      UpdateKeepsLayout(p, slot, bytes);
      if |bytes| == size || !MarkedBelow(p, slot) {
        UpdateCells(p, slot, bytes);
      }
    }

    method ReadTuple(slot: nat) returns (bytes: seq<byte>)
      requires Valid() && slot < |page.slots| && page.slots[slot].size != 0
      ensures !Contents()[slot].Empty? && bytes == Contents()[slot].bytes
    {
      ghost var s := page.slots[slot];
      assert InRange(s, page.free);
      var off := TupleOffset(slot);
      var size := TupleSize(slot);
      var length := if size < 0 then -size else size;
      bytes := data[off..off + length];
      ghost var k := OffsetAt(|page.slots|);
      assert data[..][k..PAGE_SIZE] == data[..][k..] && page.body[k..PAGE_SIZE] == page.body[k..];
      SubSlice(data[..], k, page.body, k, PAGE_SIZE - k, off - k, length);
    }

    // Moves the bytes below a tuple by the change of its size, and writes the new ones.
    method WriteResized(slot: nat, off: nat, length: nat, bytes: seq<byte>)
      requires Encoded() && slot < |page.slots| && page.slots[slot].size != 0
      requires off == page.slots[slot].off && length == page.slots[slot].Length()
      requires OffsetAt(|page.slots|) <= page.free <= off && off + length <= PAGE_SIZE &&
               FreeSpace(page) >= |bytes| - length
      modifies this, data
      ensures Encoded() && page == old(page).(
              free := old(page).free + length - |bytes|, body := Resize(old(page), slot, bytes))
    {
      ghost var p := page;
      var free := FreeSpacePointer();
      var gap := length - |bytes|;
      ghost var moved := Move(p.body, free + gap, free, off - free);
      assert Resize(p, slot, bytes) == Write(moved, off + gap, bytes);
      MoveTuples(free + gap, free, off - free);
      assert page == p.(body := moved);
      SetFreeSpacePointer(free + gap);
      WriteTuple(off + gap, bytes);
    }

    method WriteUpdated(slot: nat, size: int, bytes: seq<byte>)
      requires Valid() && Updatable(page, slot, |bytes|) && size == page.slots[slot].size
      modifies this, data
      ensures InRange(old(page).slots[slot], old(page).free)
      ensures Encoded() && page == Update(old(page), slot, bytes)
    {
      ghost var p := page;
      assert InRange(p.slots[slot], p.free);
      var off := TupleOffset(slot);
      WriteResized(slot, off, size, bytes);
      SetTupleSize(slot, |bytes|);
      forall i | 0 <= i < |page.slots| && page.slots[i].size != 0 ensures 0 <= page.slots[i].off <= PAGE_SIZE {
        assert InRange(p.slots[i], p.free);
      }
      MoveOffsets(off + size, size - |bytes|, false);
      UpdateParts(p, slot, bytes);
    }

    method ApplyDelete(slot: nat)
      requires Valid() && slot < |Contents()| && !Contents()[slot].Empty?
      modifies this, data
      ensures Valid() && Contents() == old(Contents())[slot := Empty] && page == Step(old(page), ApplyDeleteOp(slot))
    {
      CellKinds(page, slot);
      DeleteCells(page, slot);
      WriteDeleted(slot);
    }

    method WriteDeleted(slot: nat)
      requires Valid() && slot < |page.slots| && page.slots[slot].size != 0
      modifies this, data
      ensures InRange(old(page).slots[slot], old(page).free)
      ensures Encoded() && page == SlottedOps.ApplyDelete(old(page), slot)
    {
      ghost var p := page;
      assert InRange(p.slots[slot], p.free);
      var off := TupleOffset(slot);
      var size := TupleSize(slot);
      var length := if size < 0 then -size else size;
      WriteResized(slot, off, length, []);
      SetSlot(slot, 0, 0);
      forall i | 0 <= i < |page.slots| && page.slots[i].size != 0 ensures 0 <= page.slots[i].off <= PAGE_SIZE {
        assert InRange(p.slots[i], p.free);
      }
      MoveOffsets(off, length, true);
    }

    method GetTuple(slot: nat) returns (ok: bool, bytes: seq<byte>)
      requires Valid()
      ensures ok == (slot < |Contents()| && Contents()[slot].Live?)
      ensures ok ==> bytes == Contents()[slot].bytes
    {
      var n := TupleCount();
      bytes := [];
      if slot >= n {
        return false, bytes;
      }
      CellKinds(page, slot);
      var size := TupleSize(slot);
      if size <= 0 {
        return false, bytes;
      }
      bytes := ReadTuple(slot);
      ok := true;
    }

    // Slot of the first live tuple.
    method GetFirstTuple() returns (found: bool, slot: nat)
      requires Valid()
      ensures slot == NextLive(Contents(), 0) && found == (slot < |Contents()|)
    {
      found, slot := NextFrom(0);
    }

    // Slot of the next live tuple after cur.
    method GetNextTuple(cur: nat) returns (found: bool, slot: nat)
      requires Valid() && cur < |Contents()|
      ensures slot == NextLive(Contents(), cur + 1) && found == (slot < |Contents()|)
    {
      found, slot := NextFrom(cur + 1);
    }

    method NextFrom(k: nat) returns (found: bool, slot: nat)
      requires Valid() && k <= |Contents()|
      ensures slot == NextLive(Contents(), k) && found == (slot < |Contents()|)
    {
      var n := TupleCount();
      slot := k;
      while slot < n
        invariant k <= slot <= n == |page.slots|
        invariant NextLive(Contents(), k) == NextLive(Contents(), slot)
      {
        CellKinds(page, slot);
        var size := TupleSize(slot);
        if size > 0 {
          return true, slot;
        }
        slot := slot + 1;
      }
      found := false;
    }
  }
}
