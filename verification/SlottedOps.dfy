/**
 The operations of a table page on its slotted layout, and what each does to the cells. Every
 operation changes one cell; all other tuples read back the same bytes after the move.
 */
module SlottedOps {
  import opened SlottedPage

  function FirstEmpty(ss: seq<Slot>): (i: nat)
    ensures i <= |ss|
    ensures i < |ss| ==> ss[i].size == 0
    ensures forall j :: 0 <= j < i ==> ss[j].size != 0
  {
    if ss == [] || ss[0].size == 0 then 0 else 1 + FirstEmpty(ss[1..])
  }

  function Write(b: seq<byte>, at: nat, bytes: seq<byte>): (r: seq<byte>)
    requires at + |bytes| <= |b|
    ensures |r| == |b|
  {
    b[..at] + bytes + b[at + |bytes|..]
  }

  function Move(b: seq<byte>, dst: nat, src: nat, n: nat): (r: seq<byte>)
    requires dst + n <= |b| && src + n <= |b|
    ensures |r| == |b|
  {
    Write(b, dst, b[src..src + n])
  }

  // --- insert ---

  predicate Fits(p: Page, n: nat) {
    FreeSpace(p) >= n && (FirstEmpty(p.slots) < |p.slots| || FreeSpace(p) >= n + SLOT_SIZE)
  }

  function Insert(p: Page, bytes: seq<byte>): Page
    requires |p.body| == PAGE_SIZE && |bytes| <= p.free <= PAGE_SIZE
  {
    var free := p.free - |bytes|;
    var i := FirstEmpty(p.slots);
    var s := Slot(free, |bytes|);
    Page(free, if i < |p.slots| then p.slots[i := s] else p.slots + [s], Write(p.body, free, bytes))
  }

  lemma InsertValid(p: Page, bytes: seq<byte>)
    requires Valid(p) && |bytes| > 0 && Fits(p, |bytes|)
    ensures Valid(Insert(p, bytes))
  {
    var i, s := FirstEmpty(p.slots), Slot(p.free - |bytes|, |bytes|);
    if i < |p.slots| {
      TotalUpdate(p.slots, i, s);
    } else {
      TotalAppend(p.slots, s);
    }
    var p2 := Insert(p, bytes);
    forall j | 0 <= j < |p2.slots|
      ensures if j == i then p2.slots[j] == s else p2.slots[j] == p.slots[j] && InRange(p.slots[j], p.free)
    {}
    forall j, k | 0 <= j < k < |p2.slots| ensures Disjoint(p2.slots[j], p2.slots[k]) {
      assert j != i && k != i ==> Disjoint(p.slots[j], p.slots[k]);
    }
  }

  lemma InsertCells(p: Page, bytes: seq<byte>)
    requires Valid(p) && |bytes| > 0 && Fits(p, |bytes|)
    ensures Valid(Insert(p, bytes))
    ensures var i := FirstEmpty(p.slots);
            Cells(Insert(p, bytes)) == if i < |p.slots| then Cells(p)[i := Live(bytes)] else Cells(p) + [Live(bytes)]
  {
    InsertValid(p, bytes);
    var p2, i := Insert(p, bytes), FirstEmpty(p.slots);
    var want := if i < |p.slots| then Cells(p)[i := Live(bytes)] else Cells(p) + [Live(bytes)];
    forall j | 0 <= j < |p2.slots| ensures Cells(p2)[j] == want[j] {
      InsertedCell(p, bytes, j);
    }
    assert Cells(p2) == want;
  }

  lemma InsertedCell(p: Page, bytes: seq<byte>, j: nat)
    requires Valid(p) && |bytes| > 0 && Fits(p, |bytes|) && Valid(Insert(p, bytes)) && j < |Insert(p, bytes).slots|
    ensures Cells(Insert(p, bytes))[j] == if j == FirstEmpty(p.slots) then Live(bytes)
            else if j < |p.slots| then Cells(p)[j] else Empty
  {
    var p2 := Insert(p, bytes);
    assert InRange(p2.slots[j], p2.free);
    if j != FirstEmpty(p.slots) {
      assert InRange(p.slots[j], p.free);
    }
  }

  // --- moving tuples up or down when one changes its size ---

  // Offsets below a limit are moved. An update leaves out the marked tuples; a delete does not.
  function MoveSlot(s: Slot, limit: int, gap: int, markedToo: bool): Slot {
    if (s.size > 0 || (markedToo && s.size != 0)) && s.off < limit then s.(off := s.off + gap) else s
  }

  function MoveSlots(ss: seq<Slot>, limit: int, gap: int, markedToo: bool): (r: seq<Slot>)
    ensures |r| == |ss|
    ensures forall i :: 0 <= i < |ss| ==> r[i] == MoveSlot(ss[i], limit, gap, markedToo)
  {
    seq(|ss|, i requires 0 <= i < |ss| => MoveSlot(ss[i], limit, gap, markedToo))
  }

  // The bytes after slot k's tuple has been replaced: those below it move along.
  function Resize(p: Page, k: nat, bytes: seq<byte>): (r: seq<byte>)
    requires |p.body| == PAGE_SIZE && k < |p.slots| && p.slots[k].size != 0
    requires 0 <= p.free <= p.slots[k].off && p.slots[k].off + p.slots[k].Length() <= PAGE_SIZE
    requires |bytes| <= p.free + p.slots[k].Length()
  {
    var s := p.slots[k];
    var gap := s.Length() - |bytes|;
    Write(Move(p.body, p.free + gap, p.free, s.off - p.free), s.off + gap, bytes)
  }

  // Tuple k has bytes and lies above the free space pointer.
  ghost predicate Resizable(p: Page, k: nat, n: nat) {
    && |p.body| == PAGE_SIZE && k < |p.slots| && p.slots[k].size != 0 && 0 <= p.free
    && InRange(p.slots[k], p.free) && n <= p.free + p.slots[k].Length()
  }

  lemma ResizeBytes(p: Page, k: nat, bytes: seq<byte>)
    requires Resizable(p, k, |bytes|)
    ensures var s, b := p.slots[k], Resize(p, k, bytes);
            var gap := s.Length() - |bytes|;
            && |b| == PAGE_SIZE
            && b[p.free + gap..s.off + gap] == p.body[p.free..s.off]
            && b[s.off + gap..s.off + s.Length()] == bytes
            && b[s.off + s.Length()..] == p.body[s.off + s.Length()..]
  {}

  lemma SubSlice<T>(a: seq<T>, x: nat, b: seq<T>, y: nat, n: nat, d: nat, m: nat)
    requires x + n <= |a| && y + n <= |b| && a[x..x + n] == b[y..y + n] && d + m <= n
    ensures a[x + d..x + d + m] == b[y + d..y + d + m]
  {
    var p, q := a[x + d..x + d + m], b[y + d..y + d + m];
    forall j | 0 <= j < m ensures p[j] == q[j] {
      assert a[x..x + n][d + j] == b[y..y + n][d + j];
    }
  }

  lemma TailSlice<T>(a: seq<T>, b: seq<T>, x: nat, lo: nat, hi: nat)
    requires |a| == |b| && x <= lo <= hi <= |a| && a[x..] == b[x..]
    ensures a[lo..hi] == b[lo..hi]
  {
    var p, q := a[lo..hi], b[lo..hi];
    forall j | 0 <= j < hi - lo ensures p[j] == q[j] {
      assert a[x..][lo - x + j] == b[x..][lo - x + j];
    }
  }

  lemma ResizeKeepsBelow(p: Page, k: nat, bytes: seq<byte>, s: Slot)
    requires Resizable(p, k, |bytes|) && s.size != 0 && p.free <= s.off && s.off + s.Length() <= p.slots[k].off
    ensures var b, off := Resize(p, k, bytes), s.off + p.slots[k].Length() - |bytes|;
            0 <= off && off + s.Length() <= |b| && b[off..off + s.Length()] == p.body[s.off..s.off + s.Length()]
  {
    ResizeBytes(p, k, bytes);
    var c, b := p.slots[k], Resize(p, k, bytes);
    SubSlice(b, p.free + c.Length() - |bytes|, p.body, p.free, c.off - p.free, s.off - p.free, s.Length());
  }

  lemma ResizeKeepsAbove(p: Page, k: nat, bytes: seq<byte>, s: Slot)
    requires Resizable(p, k, |bytes|) && s.size != 0 && p.slots[k].off + p.slots[k].Length() <= s.off &&
             s.off + s.Length() <= PAGE_SIZE
    ensures var b := Resize(p, k, bytes);
            s.off + s.Length() <= |b| && b[s.off..s.off + s.Length()] == p.body[s.off..s.off + s.Length()]
  {
    ResizeBytes(p, k, bytes);
    var b, top := Resize(p, k, bytes), p.slots[k].off + p.slots[k].Length();
    TailSlice(b, p.body, top, s.off, s.off + s.Length());
  }

  // The bytes of a tuple below, or above, the resized one.
  lemma ResizeKeeps(p: Page, k: nat, bytes: seq<byte>, s: Slot)
    requires Resizable(p, k, |bytes|) && s.size != 0 && InRange(s, p.free)
    requires s.off + s.Length() <= p.slots[k].off || p.slots[k].off + p.slots[k].Length() <= s.off
    ensures var b, off := Resize(p, k, bytes), if s.off < p.slots[k].off then s.off + p.slots[k].Length() - |bytes|
            else s.off;
            0 <= off && off + s.Length() <= |b| && b[off..off + s.Length()] == p.body[s.off..s.off + s.Length()]
  {
    if s.off < p.slots[k].off {
      ResizeKeepsBelow(p, k, bytes, s);
    } else {
      ResizeKeepsAbove(p, k, bytes, s);
    }
  }

  // --- update ---

  function Update(p: Page, k: nat, bytes: seq<byte>): Page
    requires |p.body| == PAGE_SIZE && k < |p.slots| && p.slots[k].size != 0
    requires 0 <= p.free <= p.slots[k].off && p.slots[k].off + p.slots[k].Length() <= PAGE_SIZE
    requires |bytes| <= p.free + p.slots[k].Length()
  {
    var s := p.slots[k];
    var gap := s.Length() - |bytes|;
    Page(p.free + gap,
         MoveSlots(p.slots[k := s.(size := |bytes|)], s.off + s.Length(), gap, false),
         Resize(p, k, bytes))
  }

  lemma UpdateParts(p: Page, k: nat, bytes: seq<byte>)
    requires Updatable(p, k, |bytes|)
    ensures InRange(p.slots[k], p.free)
    ensures var s := p.slots[k];
            Update(p, k, bytes) == Page(p.free + s.size - |bytes|,
                                        MoveSlots(p.slots[k := s.(size := |bytes|)], s.off + s.size,
                                          s.size - |bytes|, false),
                                        Resize(p, k, bytes))
  {
    assert InRange(p.slots[k], p.free);
  }

  // A size of 0 is an empty slot.
  function Holding(bytes: seq<byte>): Cell {
    if bytes == [] then Empty else Live(bytes)
  }

  // The page may be updated in slot k with n bytes.
  ghost predicate Updatable(p: Page, k: nat, n: nat) {
    Valid(p) && k < |p.slots| && p.slots[k].size > 0 && FreeSpace(p) >= n - p.slots[k].size
  }

  ghost predicate MarkedBelow(p: Page, k: nat)
    requires k < |p.slots|
  {
    exists i :: 0 <= i < |p.slots| && p.slots[i].size < 0 && p.slots[i].off < p.slots[k].off
  }

  // Where the slots are after an update.
  lemma UpdatedSlot(p: Page, k: nat, bytes: seq<byte>, i: nat)
    requires Updatable(p, k, |bytes|) && i < |p.slots|
    ensures InRange(p.slots[k], p.free) && InRange(p.slots[i], p.free)
    ensures var s, gap, t := p.slots[i], p.slots[k].size - |bytes|, Update(p, k, bytes).slots[i];
            if i == k then t == Slot(if bytes == [] then s.off else s.off + gap, |bytes|)
            else if s.size > 0 && s.off < p.slots[k].off then t == s.(off := s.off + gap)
            else t == s && ((s.size < 0 && s.off < p.slots[k].off) || s.size == 0 ||
                          s.off >= p.slots[k].off + p.slots[k].size)
  {
    assert InRange(p.slots[k], p.free) && InRange(p.slots[i], p.free);
    assert i < k ==> Disjoint(p.slots[i], p.slots[k]);
    assert k < i ==> Disjoint(p.slots[k], p.slots[i]);
  }

  lemma UpdateTotal(p: Page, k: nat, bytes: seq<byte>)
    requires Updatable(p, k, |bytes|)
    ensures InRange(p.slots[k], p.free)
    ensures Total(Update(p, k, bytes).slots) == Total(p.slots) - p.slots[k].size + |bytes|
  {
    assert InRange(p.slots[k], p.free);
    var mid := p.slots[k := p.slots[k].(size := |bytes|)];
    TotalUpdate(p.slots, k, mid[k]);
    TotalSameLengths(mid, Update(p, k, bytes).slots);
  }

  lemma UpdateValid(p: Page, k: nat, bytes: seq<byte>)
    requires Updatable(p, k, |bytes|) && (|bytes| == p.slots[k].size || !MarkedBelow(p, k))
    ensures InRange(p.slots[k], p.free) && Valid(Update(p, k, bytes))
  {
    assert InRange(p.slots[k], p.free);
    var p2, gap := Update(p, k, bytes), p.slots[k].size - |bytes|;
    UpdateTotal(p, k, bytes);
    forall i | 0 <= i < |p2.slots| ensures InRange(p2.slots[i], p2.free) {
      UpdatedSlot(p, k, bytes, i);
    }
    forall i, j | 0 <= i < j < |p2.slots| ensures Disjoint(p2.slots[i], p2.slots[j]) {
      UpdatedSlot(p, k, bytes, i);
      UpdatedSlot(p, k, bytes, j);
      assert Disjoint(p.slots[i], p.slots[j]);
      assert i < k ==> Disjoint(p.slots[i], p.slots[k]);
      assert k < i ==> Disjoint(p.slots[k], p.slots[i]);
      assert j < k ==> Disjoint(p.slots[j], p.slots[k]);
      assert k < j ==> Disjoint(p.slots[k], p.slots[j]);
    }
  }

  lemma Apart(p: Page, i: nat, k: nat)
    requires Valid(p) && i < |p.slots| && k < |p.slots| && i != k
    ensures Disjoint(p.slots[i], p.slots[k]) && InRange(p.slots[i], p.free) && InRange(p.slots[k], p.free)
  {
    assert i < k ==> Disjoint(p.slots[i], p.slots[k]);
    assert k < i ==> Disjoint(p.slots[k], p.slots[i]);
  }

  // Slot i shows the same bytes on p and on q.
  ghost predicate SameBytes(p: Page, q: Page, i: nat)
    requires i < |p.slots| && i < |q.slots|
  {
    var s, t := p.slots[i], q.slots[i];
    && t.size == s.size && 0 <= s.off && s.off + s.Length() <= |p.body| && 0 <= t.off && t.off + s.Length() <= |q.body|
    && q.body[t.off..t.off + s.Length()] == p.body[s.off..s.off + s.Length()]
  }

  lemma SameCell(p: Page, q: Page, i: nat)
    requires i < |p.slots| && i < |q.slots| && SameBytes(p, q, i)
    ensures CellAt(q, i) == CellAt(p, i)
  {}

  lemma UpdatedOther(p: Page, k: nat, bytes: seq<byte>, i: nat)
    requires Updatable(p, k, |bytes|) && (|bytes| == p.slots[k].size || !MarkedBelow(p, k))
    requires i < |p.slots| && i != k && p.slots[i].size != 0
    ensures InRange(p.slots[k], p.free) && SameBytes(p, Update(p, k, bytes), i)
  {
    UpdatedSlot(p, k, bytes, i);
    Apart(p, i, k);
    ResizeKeeps(p, k, bytes, p.slots[i]);
  }

  lemma UpdatedCell(p: Page, k: nat, bytes: seq<byte>, i: nat)
    requires Updatable(p, k, |bytes|) && (|bytes| == p.slots[k].size || !MarkedBelow(p, k)) && i < |p.slots|
    ensures InRange(p.slots[k], p.free) && InRange(p.slots[i], p.free)
    ensures var p2 := Update(p, k, bytes);
            && (p2.slots[i].size != 0 ==> 0 <= p2.slots[i].off && p2.slots[i].off + p2.slots[i].Length() <= |p2.body|)
            && CellAt(p2, i) == if i == k then Holding(bytes) else CellAt(p, i)
  {
    UpdatedSlot(p, k, bytes, i);
    if i == k {
      ResizeBytes(p, k, bytes);
    } else if p.slots[i].size != 0 {
      UpdatedOther(p, k, bytes, i);
      SameCell(p, Update(p, k, bytes), i);
    }
  }

  lemma UpdateCells(p: Page, k: nat, bytes: seq<byte>)
    requires Updatable(p, k, |bytes|) && (|bytes| == p.slots[k].size || !MarkedBelow(p, k))
    ensures InRange(p.slots[k], p.free) && Valid(Update(p, k, bytes))
    ensures Cells(Update(p, k, bytes)) == Cells(p)[k := Holding(bytes)]
  {
    UpdateValid(p, k, bytes);
    forall i | 0 <= i < |p.slots| ensures Cells(Update(p, k, bytes))[i] == Cells(p)[k := Holding(bytes)][i] {
      UpdatedCell(p, k, bytes, i);
    }
  }

  // A marked tuple below the updated one is moved but keeps its offset. If the size changes, the
  // layout is then broken, always: shown here at the marked byte nearest to where bytes move to.
  lemma UpdateBreaks(p: Page, k: nat, bytes: seq<byte>)
    requires Updatable(p, k, |bytes|) && |bytes| != p.slots[k].size && MarkedBelow(p, k)
    ensures InRange(p.slots[k], p.free) && !Valid(Update(p, k, bytes))
  {
    assert InRange(p.slots[k], p.free);
    var up := |bytes| < p.slots[k].size;
    var i := ExtremeMarked(p, k, up);
    BreaksAt(p, k, bytes, i);
  }

  // The lowest, or the highest, of the marked tuples below slot k.
  lemma ExtremeMarked(p: Page, k: nat, lowest: bool) returns (i: nat)
    requires Valid(p) && k < |p.slots| && MarkedBelow(p, k)
    ensures i < |p.slots| && p.slots[i].size < 0 && p.slots[i].off < p.slots[k].off
    ensures Extreme(p, k, i, lowest)
  {
    i :| 0 <= i < |p.slots| && p.slots[i].size < 0 && p.slots[i].off < p.slots[k].off;
    while !Extreme(p, k, i, lowest)
      invariant i < |p.slots| && p.slots[i].size < 0 && p.slots[i].off < p.slots[k].off
      decreases if lowest then p.slots[i].off - p.free else p.slots[k].off - p.slots[i].off
    {
      var j :| 0 <= j < |p.slots| && p.slots[j].size < 0 && p.slots[j].off < p.slots[k].off
               && (if lowest then p.slots[j].off < p.slots[i].off else p.slots[i].off < p.slots[j].off);
      assert InRange(p.slots[i], p.free) && InRange(p.slots[j], p.free);
      i := j;
    }
  }

  ghost predicate Extreme(p: Page, k: nat, i: nat, lowest: bool)
    requires k < |p.slots| && i < |p.slots|
  {
    forall j :: 0 <= j < |p.slots| && p.slots[j].size < 0 && p.slots[j].off < p.slots[k].off ==>
      if lowest then p.slots[i].off <= p.slots[j].off else p.slots[j].off <= p.slots[i].off
  }

  lemma BreaksAt(p: Page, k: nat, bytes: seq<byte>, i: nat)
    requires Updatable(p, k, |bytes|) && |bytes| != p.slots[k].size && i < |p.slots|
    requires p.slots[i].size < 0 && p.slots[i].off < p.slots[k].off && Extreme(p, k, i, |bytes| < p.slots[k].size)
    ensures InRange(p.slots[k], p.free) && !Valid(Update(p, k, bytes))
  {
    assert InRange(p.slots[k], p.free) && InRange(p.slots[i], p.free);
    var p2, gap := Update(p, k, bytes), p.slots[k].size - |bytes|;
    // a byte of the marked tuple, and the byte that the move puts there
    var x := if gap > 0 then p.slots[i].off else p.slots[i].off + p.slots[i].Length() - 1;
    UpdatedSlot(p, k, bytes, i);
    assert p2.slots[i] == p.slots[i] && Holds(p2.slots[i], x);
    if Valid(p2) {
      assert InRange(p2.slots[i], p2.free);
      UpdatedSlot(p, k, bytes, k);
      var j: nat;
      if x - gap >= p.slots[k].off {
        j := k;
      } else {
        NoGap(p, x - gap);
        j :| 0 <= j < |p.slots| && Holds(p.slots[j], x - gap);
        UpdatedSlot(p, k, bytes, j);
      }
      Tiles(p2, x);
      assert Holds(p2.slots[j], x);
      Tiles(p, x - gap);
      assert false;
    }
  }

  // An update that the page accepts keeps the layout exactly when the size stays the same or no
  // marked tuple lies below.
  lemma UpdateKeepsLayout(p: Page, k: nat, bytes: seq<byte>)
    requires Updatable(p, k, |bytes|)
    ensures InRange(p.slots[k], p.free)
    ensures Valid(Update(p, k, bytes)) <==> |bytes| == p.slots[k].size || !MarkedBelow(p, k)
  {
    if |bytes| == p.slots[k].size || !MarkedBelow(p, k) {
      UpdateValid(p, k, bytes);
    } else {
      UpdateBreaks(p, k, bytes);
    }
  }

  // --- delete: mark, take back, carry out ---

  function Mark(p: Page, k: nat): Page
    requires k < |p.slots|
  {
    var s := p.slots[k];
    if s.size > 0 then p.(slots := p.slots[k := s.(size := -s.size)]) else p
  }

  function Unmark(p: Page, k: nat): Page
    requires k < |p.slots|
  {
    var s := p.slots[k];
    if s.size < 0 then p.(slots := p.slots[k := s.(size := -s.size)]) else p
  }

  // Changing the sign of a size changes nothing but that cell's mark.
  lemma FlipValid(p: Page, k: nat, p2: Page)
    requires Valid(p) && k < |p.slots| && p.slots[k].size != 0
    requires p2 == p.(slots := p.slots[k := p.slots[k].(size := -p.slots[k].size)])
    ensures Valid(p2)
  {
    TotalUpdate(p.slots, k, p2.slots[k]);
    assert InRange(p.slots[k], p.free);
    forall i | 0 <= i < |p2.slots| ensures InRange(p2.slots[i], p2.free) {
      assert InRange(p.slots[i], p.free);
    }
    forall i, j | 0 <= i < j < |p2.slots| ensures Disjoint(p2.slots[i], p2.slots[j]) {
      assert Disjoint(p.slots[i], p.slots[j]);
    }
  }

  lemma FlipCells(p: Page, k: nat, p2: Page)
    requires Valid(p) && k < |p.slots| && p.slots[k].size != 0
    requires p2 == p.(slots := p.slots[k := p.slots[k].(size := -p.slots[k].size)])
    ensures Valid(p2)
    ensures Cells(p)[k] == Live(Cells(p)[k].bytes) ==> Cells(p2) == Cells(p)[k := Marked(Cells(p)[k].bytes)]
    ensures Cells(p)[k] == Marked(Cells(p)[k].bytes) ==> Cells(p2) == Cells(p)[k := Live(Cells(p)[k].bytes)]
  {
    FlipValid(p, k, p2);
    forall i | 0 <= i < |p.slots| && i != k ensures Cells(p2)[i] == Cells(p)[i] {
      assert InRange(p.slots[i], p.free);
    }
    assert InRange(p.slots[k], p.free);
  }

  function ApplyDelete(p: Page, k: nat): Page
    requires |p.body| == PAGE_SIZE && k < |p.slots| && p.slots[k].size != 0
    requires 0 <= p.free <= p.slots[k].off && p.slots[k].off + p.slots[k].Length() <= PAGE_SIZE
  {
    var s := p.slots[k];
    Page(p.free + s.Length(),
         MoveSlots(p.slots[k := Slot(0, 0)], s.off, s.Length(), true),
         Resize(p, k, []))
  }

  lemma DeletedSlot(p: Page, k: nat, i: nat)
    requires Valid(p) && k < |p.slots| && p.slots[k].size != 0 && i < |p.slots|
    ensures InRange(p.slots[k], p.free) && InRange(p.slots[i], p.free)
    ensures var s, t := p.slots[i], ApplyDelete(p, k).slots[i];
            if i == k then t == Slot(0, 0)
            else if s.size != 0 && s.off < p.slots[k].off then t == s.(off := s.off + p.slots[k].Length())
            else t == s && (s.size != 0 ==> s.off >= p.slots[k].off + p.slots[k].Length())
  {
    assert InRange(p.slots[k], p.free) && InRange(p.slots[i], p.free);
    if i != k {
      Apart(p, i, k);
    }
  }

  lemma DeleteValid(p: Page, k: nat)
    requires Valid(p) && k < |p.slots| && p.slots[k].size != 0
    ensures InRange(p.slots[k], p.free) && Valid(ApplyDelete(p, k))
  {
    assert InRange(p.slots[k], p.free);
    var p2, mid := ApplyDelete(p, k), p.slots[k := Slot(0, 0)];
    TotalUpdate(p.slots, k, Slot(0, 0));
    TotalSameLengths(mid, p2.slots);
    forall i | 0 <= i < |p2.slots| ensures InRange(p2.slots[i], p2.free) {
      DeletedSlot(p, k, i);
    }
    forall i, j | 0 <= i < j < |p2.slots| ensures Disjoint(p2.slots[i], p2.slots[j]) {
      DeletedSlot(p, k, i);
      DeletedSlot(p, k, j);
      assert Disjoint(p.slots[i], p.slots[j]);
    }
  }

  lemma DeletedOther(p: Page, k: nat, i: nat)
    requires Valid(p) && k < |p.slots| && p.slots[k].size != 0 && i < |p.slots| && i != k && p.slots[i].size != 0
    ensures InRange(p.slots[k], p.free) && SameBytes(p, ApplyDelete(p, k), i)
  {
    DeletedSlot(p, k, i);
    Apart(p, i, k);
    ResizeKeeps(p, k, [], p.slots[i]);
  }

  lemma DeletedCell(p: Page, k: nat, i: nat)
    requires Valid(p) && k < |p.slots| && p.slots[k].size != 0 && i < |p.slots|
    ensures InRange(p.slots[k], p.free) && InRange(p.slots[i], p.free)
    ensures var p2 := ApplyDelete(p, k);
            && (p2.slots[i].size != 0 ==> 0 <= p2.slots[i].off && p2.slots[i].off + p2.slots[i].Length() <= |p2.body|)
            && CellAt(p2, i) == if i == k then Empty else CellAt(p, i)
  {
    DeletedSlot(p, k, i);
    if i != k && p.slots[i].size != 0 {
      DeletedOther(p, k, i);
      SameCell(p, ApplyDelete(p, k), i);
    }
  }

  lemma DeleteCells(p: Page, k: nat)
    requires Valid(p) && k < |p.slots| && p.slots[k].size != 0
    ensures InRange(p.slots[k], p.free) && Valid(ApplyDelete(p, k))
    ensures Cells(ApplyDelete(p, k)) == Cells(p)[k := Empty]
  {
    DeleteValid(p, k);
    forall i | 0 <= i < |p.slots| ensures Cells(ApplyDelete(p, k))[i] == Cells(p)[k := Empty][i] {
      DeletedCell(p, k, i);
    }
  }
}
