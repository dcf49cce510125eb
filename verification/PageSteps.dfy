/**
 The operations of a table page as steps of its layout, and what they do to its cells.
 */
module PageSteps {
  import opened SlottedPage
  import opened SlottedOps
  import opened CellPage

  datatype PageOp =
    | InsertOp(bytes: seq<byte>)
    | MarkDeleteOp(slot: nat)
    | RollbackDeleteOp(slot: nat)
    | UpdateOp(slot: nat, bytes: seq<byte>)
    | ApplyDeleteOp(slot: nat)

  ghost function Step(p: Page, op: PageOp): Page
    requires Valid(p)
  {
    match op
    case InsertOp(b) => if Fits(p, |b|) then Insert(p, b) else p
    case MarkDeleteOp(k) => if k < |p.slots| then Mark(p, k) else p
    case RollbackDeleteOp(k) => if k < |p.slots| then Unmark(p, k) else p
    case UpdateOp(k, b) => if Updatable(p, k, |b|) then assert InRange(p.slots[k], p.free); Update(p, k, b) else p
    case ApplyDeleteOp(k) =>
      if k < |p.slots| && p.slots[k].size != 0 then assert InRange(p.slots[k], p.free); ApplyDelete(p, k) else p
  }

  function Change(cs: seq<Cell>, op: PageOp): seq<Cell> {
    match op
    case InsertOp(b) => if Accepts(cs, |b|) then Put(cs, b) else cs
    case MarkDeleteOp(k) => Delete(cs, k)
    case RollbackDeleteOp(k) => Undelete(cs, k)
    case UpdateOp(k, b) => if CanReplace(cs, k, |b|) then cs[k := Live(b)] else cs
    case ApplyDeleteOp(k) => if k < |cs| then cs[k := Empty] else cs
  }

  // What the callers of a page see to: tuples have bytes, a removed slot holds a tuple, and an update
  // keeps the size or finds no marked tuple below.
  ghost predicate Legal(p: Page, op: PageOp)
    requires Valid(p)
  {
    match op
    case InsertOp(b) => b != []
    case MarkDeleteOp(_) => true
    case RollbackDeleteOp(k) => k < |p.slots|
    case UpdateOp(k, b) => b != [] && (Updatable(p, k, |b|) ==> |b| == p.slots[k].size || !MarkedBelow(p, k))
    case ApplyDeleteOp(k) => k < |p.slots| && p.slots[k].size != 0
  }

  lemma FlipKeeps(p: Page, k: nat)
    requires Valid(p) && k < |p.slots|
    ensures Valid(Mark(p, k)) && Cells(Mark(p, k)) == Delete(Cells(p), k)
    ensures Valid(Unmark(p, k)) && Cells(Unmark(p, k)) == Undelete(Cells(p), k)
  {
    CellKinds(p, k);
    if p.slots[k].size > 0 {
      FlipCells(p, k, Mark(p, k));
    } else if p.slots[k].size < 0 {
      FlipCells(p, k, Unmark(p, k));
    }
  }

  lemma UpdateChanges(p: Page, k: nat, b: seq<byte>)
    requires Valid(p) && Legal(p, UpdateOp(k, b))
    ensures Valid(Step(p, UpdateOp(k, b))) && Cells(Step(p, UpdateOp(k, b))) == Change(Cells(p), UpdateOp(k, b))
  {
    CellsDecide(p);
    if k < |p.slots| {
      CellKinds(p, k);
    }
    if Updatable(p, k, |b|) {
      UpdateCells(p, k, b);
    }
  }

  // Every legal step keeps the layout and changes the cells as the slots of a map would change.
  lemma StepChanges(p: Page, op: PageOp)
    requires Valid(p) && Legal(p, op)
    ensures Valid(Step(p, op)) && Cells(Step(p, op)) == Change(Cells(p), op)
  {
    match op
    case InsertOp(b) =>
      CellsDecide(p);
      if Fits(p, |b|) {
        InsertCells(p, b);
      }
    case MarkDeleteOp(k) => if k < |p.slots| { FlipKeeps(p, k); }
    case RollbackDeleteOp(k) => FlipKeeps(p, k);
    case UpdateOp(k, b) => UpdateChanges(p, k, b);
    case ApplyDeleteOp(k) => DeleteCells(p, k);
  }

  lemma NoneMarked(p: Page, slot: nat)
    requires Valid(p) && slot < |p.slots|
    requires forall k :: 0 <= k < |Cells(p)| ==> !Cells(p)[k].Marked?
    ensures !MarkedBelow(p, slot)
  {
    forall k | 0 <= k < |p.slots| ensures p.slots[k].size >= 0 {
      CellKinds(p, k);
    }
  }

  // A marked slot keeps its tuple until it is unmarked or removed.
  lemma MarkedStays(cs: seq<Cell>, op: PageOp, k: nat)
    requires k < |cs| && cs[k].Marked?
    ensures k < |Change(cs, op)|
    ensures Change(cs, op)[k] == cs[k] <==> !(op == RollbackDeleteOp(k) || op == ApplyDeleteOp(k))
  {}

  // Every slot but the one an operation is about keeps its tuple.
  lemma OthersKept(cs: seq<Cell>, op: PageOp, k: nat)
    requires k < |cs| && k != if op.InsertOp? then FirstFree(cs) else op.slot
    ensures k < |Change(cs, op)| && Change(cs, op)[k] == cs[k]
  {}

  // A page on which two tuples were inserted and the lower one, inserted last, was marked: updating
  // the upper one to another size breaks the layout.
  lemma MarkedBelowBreaks(p: Page, a: seq<byte>, b: seq<byte>, c: seq<byte>)
    requires Valid(p) && p.slots == [] && a != [] && b != [] && c != [] && |a| != |c|
    requires |a| + |b| + 2 * SLOT_SIZE <= FreeSpace(p) && |c| + |b| + 2 * SLOT_SIZE <= FreeSpace(p)
    ensures var p1 := Step(p, InsertOp(a));
            && Valid(p1)
            && var p2 := Step(p1, InsertOp(b));
            && Valid(p2)
            && var p3 := Step(p2, MarkDeleteOp(1));
            && Valid(p3) && Updatable(p3, 0, |c|) && !Valid(Step(p3, UpdateOp(0, c)))
  {
    StepChanges(p, InsertOp(a));
    var p1 := Step(p, InsertOp(a));
    assert p1.slots == [Slot(p.free - |a|, |a|)];
    StepChanges(p1, InsertOp(b));
    var p2 := Step(p1, InsertOp(b));
    assert FirstEmpty(p1.slots) == 1;
    assert p2.slots == [Slot(p.free - |a|, |a|), Slot(p.free - |a| - |b|, |b|)];
    StepChanges(p2, MarkDeleteOp(1));
    var p3 := Step(p2, MarkDeleteOp(1));
    assert p3.slots[1].size < 0 && p3.slots[1].off < p3.slots[0].off;
    UpdateKeepsLayout(p3, 0, c);
  }
}
