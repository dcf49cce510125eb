/**
 A table page as its cells. Free space and the choice of a slot depend on the cells alone, so
 the cells are all a caller needs to know of a page.
 */
module CellPage {
  import opened SlottedPage
  import opened SlottedOps

  function CellLength(c: Cell): nat {
    if c.Empty? then 0 else |c.bytes|
  }

  function Load(cs: seq<Cell>): nat {
    if cs == [] then 0 else CellLength(cs[0]) + Load(cs[1..])
  }

  // Free space left on a page with these cells.
  function Room(cs: seq<Cell>): int {
    PAGE_SIZE - HEADER_SIZE - SLOT_SIZE * |cs| - Load(cs)
  }

  function FirstFree(cs: seq<Cell>): (i: nat)
    ensures i <= |cs|
    ensures i < |cs| ==> cs[i].Empty?
    ensures forall j :: 0 <= j < i ==> !cs[j].Empty?
  {
    if cs == [] || cs[0].Empty? then 0 else 1 + FirstFree(cs[1..])
  }

  predicate Accepts(cs: seq<Cell>, n: nat) {
    Room(cs) >= n && (FirstFree(cs) < |cs| || Room(cs) >= n + SLOT_SIZE)
  }

  function Put(cs: seq<Cell>, bytes: seq<byte>): seq<Cell> {
    var i := FirstFree(cs);
    if i < |cs| then cs[i := Live(bytes)] else cs + [Live(bytes)]
  }

  function Delete(cs: seq<Cell>, k: nat): seq<Cell> {
    if k < |cs| && cs[k].Live? then cs[k := Marked(cs[k].bytes)] else cs
  }

  function Undelete(cs: seq<Cell>, k: nat): seq<Cell> {
    if k < |cs| && cs[k].Marked? then cs[k := Live(cs[k].bytes)] else cs
  }

  predicate CanReplace(cs: seq<Cell>, k: nat, n: nat) {
    k < |cs| && cs[k].Live? && Room(cs) >= n - |cs[k].bytes|
  }

  // The first live cell from k on, or the number of cells.
  function NextLive(cs: seq<Cell>, k: nat): (i: nat)
    requires k <= |cs|
    ensures k <= i <= |cs| && (i < |cs| ==> cs[i].Live?)
    ensures forall j :: k <= j < i ==> !cs[j].Live?
    decreases |cs| - k
  {
    if k == |cs| || cs[k].Live? then k else NextLive(cs, k + 1)
  }

  // --- a page is determined by its cells ---

  lemma {:induction false} LoadUpdate(cs: seq<Cell>, i: nat, c: Cell)
    requires i < |cs|
    ensures Load(cs[i := c]) == Load(cs) - CellLength(cs[i]) + CellLength(c)
  {
    if i == 0 {
      assert cs[0 := c][1..] == cs[1..];
    } else {
      assert cs[i := c][1..] == cs[1..][i - 1 := c];
      LoadUpdate(cs[1..], i - 1, c);
    }
  }

  lemma {:induction false} LoadAppend(cs: seq<Cell>, more: seq<Cell>)
    ensures Load(cs + more) == Load(cs) + Load(more)
  {
    if cs == [] {
      assert cs + more == more;
    } else {
      assert (cs + more)[1..] == cs[1..] + more;
      LoadAppend(cs[1..], more);
    }
  }

  lemma {:induction false} LoadIsTotal(cs: seq<Cell>, ss: seq<Slot>)
    requires |cs| == |ss| && forall i :: 0 <= i < |cs| ==> CellLength(cs[i]) == ss[i].Length()
    ensures Load(cs) == Total(ss)
  {
    if cs != [] {
      LoadIsTotal(cs[1..], ss[1..]);
    }
  }

  lemma CellKinds(p: Page, i: nat)
    requires Valid(p) && i < |p.slots|
    ensures var c, s := Cells(p)[i], p.slots[i];
            && CellLength(c) == s.Length()
            && (c.Empty? <==> s.size == 0) && (c.Live? <==> s.size > 0) && (c.Marked? <==> s.size < 0)
  {
    assert InRange(p.slots[i], p.free);
  }

  lemma CellsDecide(p: Page)
    requires Valid(p)
    ensures FreeSpace(p) == Room(Cells(p)) && FirstEmpty(p.slots) == FirstFree(Cells(p))
    ensures |Cells(p)| == |p.slots|
    ensures forall n: nat :: Fits(p, n) == Accepts(Cells(p), n)
  {
    var cs := Cells(p);
    forall i | 0 <= i < |cs|
      ensures CellLength(cs[i]) == p.slots[i].Length() && (cs[i].Empty? <==> p.slots[i].size == 0)
    {
      CellKinds(p, i);
    }
    LoadIsTotal(cs, p.slots);
  }

  // --- what the operations of a page keep and undo, on cells ---

  // A cell that is not empty is never given to an insert.
  lemma PutKeepsOthers(cs: seq<Cell>, bytes: seq<byte>, k: nat)
    requires k < |cs| && !cs[k].Empty?
    ensures k < |Put(cs, bytes)| && Put(cs, bytes)[k] == cs[k] && FirstFree(cs) != k
  {}

  // A page takes a tuple exactly when it is not over its size with the tuple in it.
  lemma AcceptsIff(cs: seq<Cell>, bytes: seq<byte>)
    ensures Accepts(cs, |bytes|) <==> Room(Put(cs, bytes)) >= 0
  {
    var i := FirstFree(cs);
    if i < |cs| {
      LoadUpdate(cs, i, Live(bytes));
    } else {
      LoadAppend(cs, [Live(bytes)]);
      assert [Live(bytes)][1..] == [];
    }
  }

  // A live tuple can be replaced exactly when the page is not over its size with the new one; an empty
  // slot or a marked tuple cannot.
  lemma ReplaceIff(cs: seq<Cell>, k: nat, bytes: seq<byte>)
    ensures CanReplace(cs, k, |bytes|) <==> k < |cs| && cs[k].Live? && Room(cs[k := Live(bytes)]) >= 0
  {
    if k < |cs| {
      LoadUpdate(cs, k, Live(bytes));
    }
  }

  lemma {:induction false} EmptyLoad(cs: seq<Cell>)
    requires forall i :: 0 <= i < |cs| ==> cs[i].Empty?
    ensures Load(cs) == 0
  {
    if cs != [] {
      EmptyLoad(cs[1..]);
    }
  }
}
