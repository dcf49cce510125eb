/**
 The slotted layout of a table page, as values: a free space pointer, a slot for every tuple
 with its offset and its size, and the bytes. A size of 0 is an empty slot; a negative size is
 a tuple marked as deleted, whose bytes are still there.
 */
module SlottedPage {

  type byte = x: int | 0 <= x < 256

  const PAGE_SIZE := 512
  const HEADER_SIZE := 24
  const SLOT_SIZE := 8

  datatype Slot = Slot(off: int, size: int)
  {
    function Length(): nat {
      if size < 0 then -size else size
    }
  }

  datatype Page = Page(free: int, slots: seq<Slot>, body: seq<byte>)

  // What a slot stands for.
  datatype Cell = Empty | Live(bytes: seq<byte>) | Marked(bytes: seq<byte>)

  function FreeSpace(p: Page): int {
    p.free - HEADER_SIZE - SLOT_SIZE * |p.slots|
  }

  function Total(ss: seq<Slot>): nat {
    if ss == [] then 0 else ss[0].Length() + Total(ss[1..])
  }

  ghost predicate Disjoint(a: Slot, b: Slot) {
    a.size == 0 || b.size == 0 || a.off + a.Length() <= b.off || b.off + b.Length() <= a.off
  }

  ghost predicate InRange(s: Slot, free: int) {
    s.size != 0 ==> free <= s.off && s.off + s.Length() <= PAGE_SIZE
  }

  // The tuples lie between the free space pointer and the end of the page, do not overlap, and
  // take up all of that space.
  ghost predicate Valid(p: Page) {
    && |p.body| == PAGE_SIZE
    && HEADER_SIZE + SLOT_SIZE * |p.slots| <= p.free <= PAGE_SIZE
    && (forall i :: 0 <= i < |p.slots| ==> InRange(p.slots[i], p.free))
    && (forall i, j :: 0 <= i < j < |p.slots| ==> Disjoint(p.slots[i], p.slots[j]))
    && Total(p.slots) == PAGE_SIZE - p.free
  }

  function CellAt(p: Page, i: nat): Cell
    requires i < |p.slots| && (p.slots[i].size != 0 ==>
               0 <= p.slots[i].off && p.slots[i].off + p.slots[i].Length() <= |p.body|)
  {
    var s := p.slots[i];
    if s.size == 0 then Empty
    else if s.size > 0 then Live(p.body[s.off..s.off + s.Length()])
    else Marked(p.body[s.off..s.off + s.Length()])
  }

  ghost function Cells(p: Page): seq<Cell>
    requires Valid(p)
  {
    seq(|p.slots|, i requires 0 <= i < |p.slots| => assert InRange(p.slots[i], p.free); CellAt(p, i))
  }

  // --- totals ---

  lemma {:induction false} TotalUpdate(ss: seq<Slot>, i: nat, s: Slot)
    requires i < |ss|
    ensures Total(ss[i := s]) == Total(ss) - ss[i].Length() + s.Length()
  {
    if i == 0 {
      assert ss[0 := s][1..] == ss[1..];
    } else {
      assert ss[i := s][1..] == ss[1..][i - 1 := s];
      TotalUpdate(ss[1..], i - 1, s);
    }
  }

  lemma {:induction false} TotalAppend(ss: seq<Slot>, s: Slot)
    ensures Total(ss + [s]) == Total(ss) + s.Length()
  {
    if ss == [] {
      assert ss + [s] == [s];
    } else {
      assert (ss + [s])[1..] == ss[1..] + [s];
      TotalAppend(ss[1..], s);
    }
  }

  lemma {:induction false} TotalSameLengths(ss: seq<Slot>, tt: seq<Slot>)
    requires |ss| == |tt| && forall i :: 0 <= i < |ss| ==> ss[i].Length() == tt[i].Length()
    ensures Total(ss) == Total(tt)
  {
    if ss != [] {
      TotalSameLengths(ss[1..], tt[1..]);
    }
  }

  // --- every byte of the tuple area belongs to exactly one tuple ---

  ghost predicate Holds(s: Slot, x: int) {
    s.size != 0 && s.off <= x < s.off + s.Length()
  }

  ghost function Bytes(lo: int, hi: int): (s: set<int>)
    requires lo <= hi
    ensures forall x :: x in s <==> lo <= x < hi
    ensures |s| == hi - lo
    decreases hi - lo
  {
    if lo == hi then {} else Bytes(lo, hi - 1) + {hi - 1}
  }

  ghost function Area(s: Slot): (a: set<int>)
    ensures forall x :: x in a <==> Holds(s, x)
    ensures |a| == s.Length()
  {
    if s.size == 0 then {} else Bytes(s.off, s.off + s.Length())
  }

  ghost function Taken(ss: seq<Slot>, n: nat): set<int>
    requires n <= |ss|
  {
    if n == 0 then {} else Taken(ss, n - 1) + Area(ss[n - 1])
  }

  lemma {:induction false} TakenBy(ss: seq<Slot>, n: nat, x: int) returns (i: nat)
    requires n <= |ss| && x in Taken(ss, n)
    ensures i < n && Holds(ss[i], x)
  {
    if x in Area(ss[n - 1]) {
      i := n - 1;
    } else {
      i := TakenBy(ss, n - 1, x);
    }
  }

  lemma {:induction false} TakenCount(ss: seq<Slot>, n: nat)
    requires n <= |ss| && forall i, j :: 0 <= i < j < |ss| ==> Disjoint(ss[i], ss[j])
    ensures |Taken(ss, n)| == Total(ss[..n])
  {
    if n > 0 {
      TakenCount(ss, n - 1);
      var s := ss[n - 1];
      assert ss[..n] == ss[..n - 1] + [s];
      TotalAppend(ss[..n - 1], s);
      forall x | x in Taken(ss, n - 1) ensures x !in Area(s) {
        var i := TakenBy(ss, n - 1, x);
      }
      assert Taken(ss, n - 1) !! Area(s);
    }
  }

  lemma SubsetFills(a: set<int>, b: set<int>)
    requires a <= b && |a| == |b|
    ensures a == b
  {
    assert |b - a| == |b| - |a|;
    assert b == a + (b - a);
  }

  // The tuples leave no gap.
  lemma NoGap(p: Page, x: int)
    requires Valid(p) && p.free <= x < PAGE_SIZE
    ensures exists i :: 0 <= i < |p.slots| && Holds(p.slots[i], x)
  {
    var n := |p.slots|;
    var all := Bytes(p.free, PAGE_SIZE);
    TakenCount(p.slots, n);
    assert p.slots[..n] == p.slots;
    forall y | y in Taken(p.slots, n) ensures y in all {
      var i := TakenBy(p.slots, n, y);
      assert InRange(p.slots[i], p.free);
    }
    SubsetFills(Taken(p.slots, n), all);
    var i := TakenBy(p.slots, n, x);
  }

  // Tiling, both ways: each byte from the free space pointer on is in exactly one tuple, and no
  // byte before it is in any.
  lemma Tiles(p: Page, x: int)
    requires Valid(p)
    ensures p.free <= x < PAGE_SIZE <==> exists i :: 0 <= i < |p.slots| && Holds(p.slots[i], x)
    ensures forall i, j :: 0 <= i < |p.slots| && 0 <= j < |p.slots| && Holds(p.slots[i], x) && Holds(p.slots[j], x) ==>
            i == j
  {
    if p.free <= x < PAGE_SIZE {
      NoGap(p, x);
    }
    if i :| 0 <= i < |p.slots| && Holds(p.slots[i], x) {
      assert InRange(p.slots[i], p.free);
    }
  }

  // Header, slots, free space and tuples make up the page.
  lemma SpaceAccount(p: Page)
    requires Valid(p)
    ensures HEADER_SIZE + SLOT_SIZE * |p.slots| + FreeSpace(p) + Total(p.slots) == PAGE_SIZE
    ensures FreeSpace(p) >= 0
  {}
}
