/**
 One step of the climb after a removal: a page that lacks a pair is joined with a sibling, or
 borrows from it, or is the root and gives way. At most its parent then lacks a slot, and only
 latched pages have been written.
 */
module TreeRemove {
  import opened TreeTypes
  import opened TreeShape
  import opened TreeSplit
  import opened TreeMerge
  import opened TreeBorrow
  import opened TreeEntries
  import opened TreeLatch
  import opened TreeInsert

  // Sound but for page u, which may have too few pairs. Internal pages are treated already when
  // they are down to the minimum.
  ghost predicate Underflowed(t: Tree, lim: Limits, u: PageId, m: map<Key, RID>) {
    && lim.Valid() && WellFormed(t) && SizesOK(t, lim, u) && Represents(t, m) && u in t.nodes
    && if u == t.root then (if t.nodes[u].Leaf? then t.nodes[u].Size() == 0 else 1 <= t.nodes[u].Size() <= 2)
       else lim.MinSize(t.nodes[u]) - 1 <= t.nodes[u].Size() <= lim.MinSize(t.nodes[u])
  }

  // The latches that a removal still needs when it has climbed to page u.
  ghost predicate Holding(t: Tree, lim: Limits, u: PageId, ps: seq<PageId>, rootLocked: bool, freed: set<PageId>,
      next: PageId) {
    && WellFormed(t) && u in t.nodes && u in ps
    && LatchedAbove(t, u, ps, rootLocked, lim, DELETE)
    && LatchSet(ps, next) && OnePerLevel(t, ps, t.span[u].level) && FreedAbove(t, freed, ps)
  }

  // The pages that are merged or share a pair when u is short: u and the child before it, or the one
  // behind it when u is the first child.
  ghost function LeftOf(t: Tree, u: PageId): PageId
    requires u in t.nodes && t.nodes[u].parent in t.nodes && HasChild(t.nodes[t.nodes[u].parent], u)
  {
    var ss := t.nodes[t.nodes[u].parent].slots;
    var j := IndexOf(ss, u);
    if j == 0 then u else ss[j - 1].child
  }

  ghost function RightOf(t: Tree, u: PageId): PageId
    requires u in t.nodes && t.nodes[u].parent in t.nodes && HasChild(t.nodes[t.nodes[u].parent], u)
  {
    var ss := t.nodes[t.nodes[u].parent].slots;
    var j := IndexOf(ss, u);
    if j == 0 && |ss| > 1 then ss[1].child else u
  }

  // The pairs of the two pages fit into one.
  ghost predicate FitInOne(t: Tree, lim: Limits, l: PageId, r: PageId)
    requires l in t.nodes && r in t.nodes
  {
    t.nodes[l].Size() + t.nodes[r].Size() <= lim.MaxSize(t.nodes[l])
  }

  // The pair left a leaf that stays half full, or a root that stays filled, and nothing else changed.
  ghost predicate LeavesInPlace(t: Tree, lim: Limits, p: PageId, k: Key, t2: Tree)
    requires p in t.nodes && t.nodes[p].Leaf?
  {
    var es := RemoveKey(t.nodes[p].entries, k);
    (if p == t.root then es != [] else 2 * |es| + 1 >= lim.leafMax) ==> t2 == SetEntries(t, p, es)
  }

  // Pages are merged or share pairs only when the leaf that covers the key is left less than half full.
  ghost predicate MergesOnlyShort(t: Tree, lim: Limits, k: Key, t2: Tree) {
    forall p :: p in t.nodes && p in t.span && t.nodes[p].Leaf? && Covers(t.span[p], k) ==>
      LeavesInPlace(t, lim, p, k, t2)
  }

  lemma OnlyShortLeaf(t: Tree, lim: Limits, p: PageId, k: Key, t1: Tree, short: bool, t2: Tree)
    requires WellFormed(t) && p in t.nodes && t.nodes[p].Leaf? && Covers(t.span[p], k)
    requires t1 == SetEntries(t, p, RemoveKey(t.nodes[p].entries, k)) && (!short ==> t2 == t1)
    requires short <==> t1.nodes[p].Size() < lim.MinSize(t1.nodes[p])
    ensures MergesOnlyShort(t, lim, k, t2)
  {
    RootKnown(t, p);
    assert 2 * (lim.leafMax / 2) <= lim.leafMax <= 2 * (lim.leafMax / 2) + 1;
    forall q | q in t.nodes && q in t.span && t.nodes[q].Leaf? && Covers(t.span[q], k)
      ensures LeavesInPlace(t, lim, q, k, t2)
    {
      assert PageOK(t, p) && PageOK(t, q);
      UniqueCover(t, p, q, k);
    }
  }

  // Page u takes the nearest pair of its sibling.
  ghost predicate Borrows(t: Tree, p: PageId, i: nat, l: PageId, r: PageId, u: PageId, t2: Tree) {
    && Siblings(t, p, i, l, r) && t.nodes[l].Leaf? == t.nodes[r].Leaf?
    && (u == l ==> t.nodes[r].Size() > 1 && t2 == BorrowFromRight(t, p, i, l, r))
    && (u == r ==> t.nodes[l].Size() > 1 && t2 == BorrowFromLeft(t, p, i, l, r))
  }

  // The removal itself, at the bottom of the descent.
  lemma LeafRemoval(t: Tree, lim: Limits, p: PageId, k: Key, m: map<Key, RID>)
    requires Sound(t, lim, m) && lim.Valid() && p in t.nodes && t.nodes[p].Leaf? && Covers(t.span[p], k)
    ensures var t2 := SetEntries(t, p, RemoveKey(t.nodes[p].entries, k));
            if t2.nodes[p].Size() >= lim.MinSize(t2.nodes[p]) then Sound(t2, lim, m - {k})
            else Underflowed(t2, lim, p, m - {k}) && !lim.IsSafe(t.nodes[p], DELETE)
  {
    RemoveInLeaf(t, p, k, m);
    var t2 := SetEntries(t, p, RemoveKey(t.nodes[p].entries, k));
    assert SizesOK(t2, lim, p);
    LeafSizes(t, lim, m, p, k);
  }

  lemma LeafSizes(t: Tree, lim: Limits, m: map<Key, RID>, p: PageId, k: Key)
    requires Sound(t, lim, m) && p in t.nodes && t.nodes[p].Leaf?
    ensures var n := t.nodes[p].(entries := RemoveKey(t.nodes[p].entries, k));
            && n.Size() <= t.nodes[p].Size() <= lim.leafMax && lim.MinSize(n) == lim.MinSize(t.nodes[p]) <= n.Size() + 1
            && (n.Size() < lim.MinSize(n) ==> !lim.IsSafe(t.nodes[p], DELETE))
            && (p == t.root <==> n.parent == INVALID_PAGE_ID)
  {
    assert lim.SizeOK(t.nodes[p]) && PageOK(t, p);
    RemoveKeySorted(t.nodes[p].entries, k);
    RootKnown(t, p);
  }

  lemma LeafRemovalHolding(t: Tree, lim: Limits, p: PageId, k: Key, ps: seq<PageId>, rootLocked: bool,
                           freed: set<PageId>, next: PageId, t2: Tree)
    requires Descended(t, p, k, ps, freed, next) && t.nodes[p].Leaf?
    requires t2 == SetEntries(t, p, RemoveKey(t.nodes[p].entries, k)) && WellFormed(t2)
    requires LatchedAbove(t, p, ps, rootLocked, lim, DELETE)
    ensures Holding(t2, lim, p, ps, rootLocked, freed, next)
  {
    assert PageOK(t, p);
    LatchedAboveStays(t, t2, p, ps, ps, rootLocked, lim, DELETE);
  }

  // --- the sibling ---

  // u's slot in its parent p, and the slots of the sibling: the next one for the first child,
  // else the one before.
  lemma SiblingOf(t: Tree, lim: Limits, u: PageId, m: map<Key, RID>)
    requires Underflowed(t, lim, u, m) && u != t.root
    ensures var p := t.nodes[u].parent;
            && p in t.nodes && HasChild(t.nodes[p], u) && |t.nodes[p].slots| >= 2
            && lim.MinSize(t.nodes[p]) <= t.nodes[p].Size() <= lim.internalMax
            && var j := IndexOf(t.nodes[p].slots, u);
               var l, r, i := if j == 0 then u else t.nodes[p].slots[j - 1].child,
                              if j == 0 then t.nodes[p].slots[1].child else u,
                              if j == 0 then 1 else j;
               Siblings(t, p, i, l, r)
  {
    assert PageOK(t, u);
    var p := t.nodes[u].parent;
    assert PageOK(t, p) && p != u;
    assert lim.SizeOK(t.nodes[p]);
    ChildrenOf(t, p);
  }

  // The sibling is not latched yet, and latching it keeps what is known of the latches above.
  lemma SiblingLatch(t: Tree, lim: Limits, p: PageId, i: nat, l: PageId, r: PageId, u: PageId, s: PageId,
                     ps: seq<PageId>, rootLocked: bool, freed: set<PageId>, next: PageId)
    requires Siblings(t, p, i, l, r) && ((u == l && s == r) || (u == r && s == l)) && s < next
    requires Holding(t, lim, u, ps, rootLocked, freed, next)
    ensures s !in ps && LatchSet(ps + [s], next) && FreedAbove(t, freed, ps + [s])
    ensures OnePerLevel(t, ps + [s], t.span[p].level) && p in ps + [s]
    ensures !lim.IsSafe(t.nodes[p], DELETE) ==> LatchedAbove(t, p, ps + [s], rootLocked, lim, DELETE)
  {
    SiblingFacts(t, p, i, l, r);
    assert Latched(t, p, ps, rootLocked, lim, DELETE);
    if !lim.IsSafe(t.nodes[p], DELETE) {
      LatchedAboveStays(t, t, p, ps, ps + [s], rootLocked, lim, DELETE);
    }
  }

  // --- joining ---

  lemma MergeStep(t: Tree, lim: Limits, p: PageId, i: nat, l: PageId, r: PageId, u: PageId, m: map<Key, RID>)
    requires Siblings(t, p, i, l, r) && (u == l || u == r) && Underflowed(t, lim, u, m)
    requires t.nodes[l].Size() + t.nodes[r].Size() <= lim.MaxSize(t.nodes[l])
    ensures var t2 := Merge(t, p, i, l, r);
            && WellFormed(t2) && t2.root == t.root && p in t2.nodes && t2.nodes[p].Internal?
            && t2.nodes[p].Size() == t.nodes[p].Size() - 1 && t2.nodes[p].parent == t.nodes[p].parent
            && t2.span[p] == t.span[p] && t2.nodes.Keys == t.nodes.Keys - {r}
            && (if t2.nodes[p].Size() <= lim.MinSize(t2.nodes[p]) then Underflowed(t2, lim, p, m)
                 else Sound(t2, lim, m))
  {
    SiblingFacts(t, p, i, l, r);
    MergeWellFormed(t, p, i, l, r);
    MergeRepresents(t, p, i, l, r, m);
    MergeSizes(t, lim, p, i, l, r, u);
    assert lim.SizeOK(t.nodes[p]);
    RootKnown(t, p);
  }

  lemma MergeChanges(t: Tree, p: PageId, i: nat, l: PageId, r: PageId, ps: seq<PageId>)
    requires Siblings(t, p, i, l, r) && l in ps && r in ps && p in ps
    ensures Untouched(t, Merge(t, p, i, l, r), ps)
    ensures SameAbove(t, Merge(t, p, i, l, r), t.span[p].level)
    ensures forall x :: x in Merge(t, p, i, l, r).span ==>
              x in t.span && Merge(t, p, i, l, r).span[x].level == t.span[x].level
  {
    SiblingFacts(t, p, i, l, r);
    if t.nodes[r].Internal? { ChildrenOf(t, r); }
  }

  lemma MergeHolding(t: Tree, lim: Limits, p: PageId, i: nat, l: PageId, r: PageId, ps: seq<PageId>, rootLocked: bool,
                     freed: set<PageId>, next: PageId)
    requires Siblings(t, p, i, l, r) && l in ps && r in ps && p in ps
    requires WellFormed(Merge(t, p, i, l, r)) && p in Merge(t, p, i, l, r).nodes
    requires Merge(t, p, i, l, r).nodes[p].parent == t.nodes[p].parent
    requires Merge(t, p, i, l, r).nodes.Keys == t.nodes.Keys - {r}
    requires LatchSet(ps, next) && FreedAbove(t, freed, ps) && OnePerLevel(t, ps, t.span[p].level)
    requires LatchedAbove(t, p, ps, rootLocked, lim, DELETE)
    ensures Holding(Merge(t, p, i, l, r), lim, p, ps, rootLocked, freed, next)
  {
    MergeChanges(t, p, i, l, r, ps);
    LatchedAboveStays(t, Merge(t, p, i, l, r), p, ps, ps, rootLocked, lim, DELETE);
  }

  // --- borrowing ---

  // There is a pair to spare, and after the borrow both pages are legal.
  lemma BorrowStep(t: Tree, lim: Limits, p: PageId, i: nat, l: PageId, r: PageId, u: PageId, m: map<Key, RID>)
    requires Siblings(t, p, i, l, r) && (u == l || u == r) && Underflowed(t, lim, u, m) && u != t.root
    requires t.nodes[l].Size() + t.nodes[r].Size() > lim.MaxSize(t.nodes[l])
    ensures t.nodes[l].Leaf? == t.nodes[r].Leaf?
    ensures u == l ==> t.nodes[r].Size() > 1 && Sound(BorrowFromRight(t, p, i, l, r), lim, m)
    ensures u == r ==> t.nodes[l].Size() > 1 && Sound(BorrowFromLeft(t, p, i, l, r), lim, m)
    ensures t.nodes[u].Size() + 1 < lim.MaxSize(t.nodes[u])
  {
    SiblingFacts(t, p, i, l, r);
    assert lim.SizeOK(t.nodes[if u == l then r else l]);
    if u == l {
      BorrowFromRightIsRecut(t, p, i, l, r);
    } else {
      BorrowFromLeftIsRecut(t, p, i, l, r);
    }
    var c := if u == l then t.nodes[l].Size() + 1 else t.nodes[l].Size() - 1;
    RecutWellFormed(t, p, i, l, r, c);
    RecutRepresents(t, p, i, l, r, c, m);
    BorrowSizes(t, lim, p, i, l, r, u, c);
  }

  lemma BorrowChanges(t: Tree, p: PageId, i: nat, l: PageId, r: PageId, ps: seq<PageId>)
    requires Siblings(t, p, i, l, r) && l in ps && r in ps && p in ps && t.nodes[l].Leaf? == t.nodes[r].Leaf?
    ensures t.nodes[r].Size() > 1 ==> Untouched(t, BorrowFromRight(t, p, i, l, r), ps)
    ensures t.nodes[l].Size() > 1 ==> Untouched(t, BorrowFromLeft(t, p, i, l, r), ps)
  {}

  // --- the root ---

  lemma CollapseStep(t: Tree, lim: Limits, m: map<Key, RID>, ps: seq<PageId>)
    requires Underflowed(t, lim, t.root, m) && t.nodes[t.root].Internal? && t.nodes[t.root].Size() == 1 && t.root in ps
    ensures var c := t.nodes[t.root].slots[0].child;
            && c in t.nodes && c != t.root
            && Sound(Collapse(t, c), lim, m) && Untouched(t, Collapse(t, c), ps)
  {
    var c := t.nodes[t.root].slots[0].child;
    CollapseSizes(t, lim, c);
    CollapseWellFormed(t);
    CollapseRepresents(t, c, m);
  }

  lemma EmptyStep(t: Tree, lim: Limits, m: map<Key, RID>)
    requires Underflowed(t, lim, t.root, m) && t.nodes[t.root].Leaf?
    ensures m == map[] && t.nodes.Keys == {t.root}
  {
    assert PageOK(t, t.root);
    forall q | q in t.nodes
      ensures q == t.root
    {
      assert PageOK(t, q);
    }
    assert forall k :: k in m ==> exists q :: HoldsEntry(t, q, Entry(k, m[k]));
    assert forall k :: k !in m;
  }

  lemma KeepRootStep(t: Tree, lim: Limits, m: map<Key, RID>)
    requires Underflowed(t, lim, t.root, m) && t.nodes[t.root].Internal? && t.nodes[t.root].Size() == 2
    ensures Sound(t, lim, m)
  {
    RootKnown(t, t.root);
  }

  // Page u lacks a pair, and its sibling and its parent are latched as well.
  ghost predicate Paired(t: Tree, lim: Limits, p: PageId, i: nat, l: PageId, r: PageId, u: PageId, m: map<Key, RID>,
                         ps: seq<PageId>, rootLocked: bool, freed: set<PageId>, next: PageId)
  {
    && Siblings(t, p, i, l, r) && (u == l || u == r) && Underflowed(t, lim, u, m) && u != t.root
    && l in ps && r in ps && p in ps && LatchSet(ps, next) && FreedAbove(t, freed, ps)
    && OnePerLevel(t, ps, t.span[p].level)
    && (!lim.IsSafe(t.nodes[p], DELETE) ==> LatchedAbove(t, p, ps, rootLocked, lim, DELETE))
  }

  // The parent is treated next exactly when it was not safe for a removal.
  lemma MergedParent(t: Tree, lim: Limits, p: PageId, i: nat, l: PageId, r: PageId, u: PageId, m: map<Key, RID>,
                     ps: seq<PageId>, rootLocked: bool, freed: set<PageId>, next: PageId)
    requires Paired(t, lim, p, i, l, r, u, m, ps, rootLocked, freed, next)
    requires t.nodes[l].Size() + t.nodes[r].Size() <= lim.MaxSize(t.nodes[l])
    ensures var t2 := Merge(t, p, i, l, r);
            && Untouched(t, t2, ps) && t2.root == t.root && p in t2.nodes && t2.nodes[p].Internal?
            && (if t2.nodes[p].Size() <= lim.MinSize(t2.nodes[p])
                then Underflowed(t2, lim, p, m) && Holding(t2, lim, p, ps, rootLocked, freed, next)
                else Sound(t2, lim, m))
            && Height(t2) == Height(t) && p in t2.span && t2.span[p].level == t.span[u].level + 1 <= Height(t)
  {
    SiblingFacts(t, p, i, l, r);
    MergeStep(t, lim, p, i, l, r, u, m);
    MergeChanges(t, p, i, l, r, ps);
    assert PageOK(t, p) && PageOK(t, u);
    if Merge(t, p, i, l, r).nodes[p].Size() <= lim.MinSize(Merge(t, p, i, l, r).nodes[p]) {
      MergeHolding(t, lim, p, i, l, r, ps, rootLocked, freed, next);
    }
  }

  lemma PairUp(t: Tree, lim: Limits, u: PageId, m: map<Key, RID>, p: PageId, i: nat, l: PageId, r: PageId, s: PageId,
               ps: seq<PageId>, rootLocked: bool, freed: set<PageId>, next: PageId)
    requires Underflowed(t, lim, u, m) && Holding(t, lim, u, ps, rootLocked, freed, next) && u != t.root
    requires Siblings(t, p, i, l, r) && ((u == l && s == r) || (u == r && s == l)) && s < next
    ensures Paired(t, lim, p, i, l, r, u, m, ps + [s], rootLocked, freed, next)
  {
    SiblingLatch(t, lim, p, i, l, r, u, s, ps, rootLocked, freed, next);
  }
}
