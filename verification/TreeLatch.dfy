/**
 Latch crabbing. A descent keeps the latches of the pages it may still have to change: going
 up from the leaf, every page is latched until one is safe for the operation, or until the
 root, whose id is then locked too.
 */
module TreeLatch {
  import opened TreeTypes
  import opened TreeShape
  import opened TreeSplit
  import opened TreeMerge
  import opened TreeBorrow

  ghost predicate Latched(t: Tree, q: PageId, held: seq<PageId>, rootLocked: bool, lim: Limits, op: OpType)
    requires WellFormed(t) && q in t.nodes
    decreases t.span[t.root].level - t.span[q].level
  {
    && q in held
    && (lim.IsSafe(t.nodes[q], op) || LatchedAbove(t, q, held, rootLocked, lim, op))
  }

  ghost predicate LatchedAbove(t: Tree, q: PageId, held: seq<PageId>, rootLocked: bool, lim: Limits, op: OpType)
    requires WellFormed(t) && q in t.nodes
    decreases t.span[t.root].level - t.span[q].level, 0
  {
    assert PageOK(t, q);
    if q == t.root then rootLocked else Latched(t, t.nodes[q].parent, held, rootLocked, lim, op)
  }

  // Above level lvl the two trees agree, page for page.
  ghost predicate SameAbove(t: Tree, t2: Tree, lvl: nat) {
    && t2.root == t.root
    && forall x :: x in t.nodes && x in t.span && t.span[x].level > lvl ==>
         x in t2.nodes && x in t2.span && t2.nodes[x] == t.nodes[x] && t2.span[x].level == t.span[x].level
  }

  lemma {:induction false} LatchedStays(t: Tree, t2: Tree, lvl: nat, q: PageId, held: seq<PageId>, held2: seq<PageId>,
                                        rootLocked: bool, lim: Limits, op: OpType)
    requires WellFormed(t) && WellFormed(t2) && SameAbove(t, t2, lvl) && q in t.nodes && t.span[q].level > lvl
    requires forall x :: x in held ==> x in held2
    requires Latched(t, q, held, rootLocked, lim, op)
    ensures Latched(t2, q, held2, rootLocked, lim, op)
    decreases t.span[t.root].level - t.span[q].level
  {
    if !lim.IsSafe(t.nodes[q], op) && q != t.root {
      assert PageOK(t, q);
      LatchedStays(t, t2, lvl, t.nodes[q].parent, held, held2, rootLocked, lim, op);
    }
  }

  // The page itself may have changed, as long as its parent id has not.
  lemma LatchedAboveStays(t: Tree, t2: Tree, q: PageId, held: seq<PageId>, held2: seq<PageId>,
                          rootLocked: bool, lim: Limits, op: OpType)
    requires WellFormed(t) && WellFormed(t2) && q in t.nodes && q in t2.nodes
    requires SameAbove(t, t2, t.span[q].level) && t2.nodes[q].parent == t.nodes[q].parent
    requires forall x :: x in held ==> x in held2
    requires LatchedAbove(t, q, held, rootLocked, lim, op)
    ensures LatchedAbove(t2, q, held2, rootLocked, lim, op)
  {
    if q != t.root {
      assert PageOK(t, q);
      LatchedStays(t, t2, t.span[q].level, t.nodes[q].parent, held, held2, rootLocked, lim, op);
    }
  }

  // --- what the latched and the released pages are ---

  ghost predicate NoDup(ps: seq<PageId>) {
    forall i, j :: 0 <= i < j < |ps| ==> ps[i] != ps[j]
  }

  // Each page is latched once, and all of them have been allocated.
  ghost predicate LatchSet(ps: seq<PageId>, next: PageId) {
    NoDup(ps) && forall i :: 0 <= i < |ps| ==> ps[i] < next
  }

  // Latches are only added, and only on pages from next on.
  ghost predicate AddsFresh(ps: seq<PageId>, ps2: seq<PageId>, next: PageId) {
    ps <= ps2 && forall i :: |ps| <= i < |ps2| ==> ps2[i] >= next
  }

  lemma LatchFresh(ps: seq<PageId>, next: PageId)
    requires LatchSet(ps, next)
    ensures LatchSet(ps + [next], next + 1) && AddsFresh(ps, ps + [next], next)
    ensures forall x :: x in ps ==> x in ps + [next]
  {}

  ghost predicate OnePerLevel(t: Tree, ps: seq<PageId>, lvl: nat) {
    forall a, b | a in ps && b in ps && a in t.span && b in t.span ::
      t.span[a].level == t.span[b].level >= lvl ==> a == b
  }

  // Released pages are above every page still latched.
  ghost predicate FreedAbove(t: Tree, freed: set<PageId>, ps: seq<PageId>) {
    forall f :: f in freed ==>
      f in t.nodes && f in t.span && f !in ps && forall a :: a in ps && a in t.span ==>
        t.span[a].level < t.span[f].level
  }

  // Only latched pages have had their pairs changed, and only they have been deleted.
  ghost predicate Untouched(t: Tree, t2: Tree, ps: seq<PageId>) {
    forall q :: q in t.nodes && q !in ps ==> q in t2.nodes && t.nodes[q].SameEntries(t2.nodes[q])
  }

  lemma UntouchedJoin(t: Tree, t2: Tree, t3: Tree, ps: seq<PageId>, ps2: seq<PageId>)
    requires Untouched(t, t2, ps) && Untouched(t2, t3, ps2) && forall x :: x in ps ==> x in ps2
    ensures Untouched(t, t3, ps2)
  {
    forall q | q in t.nodes && q !in ps2
      ensures q in t3.nodes && t.nodes[q].SameEntries(t3.nodes[q])
    {
      assert t.nodes[q].SameEntries(t2.nodes[q]);
    }
  }

  // A split changes the divided page and its parent, and nothing above them.
  lemma SplitChanges(t: Tree, o: PageId, n: PageId, h: nat, p: PageId, t2: Tree, ps: seq<PageId>)
    requires CanDivide(t, o, n, h) && SplitResult(t, o, n, h, p, t2) && o in ps
    requires p in t.nodes ==> p in ps
    ensures Untouched(t, t2, ps)
    ensures t2.root == t.root ==> SameAbove(t, t2, t.span[o].level + 1)
  {
    if t.nodes[o].Internal? { ChildrenOf(t, o); }
  }

  // --- the way down ---

  // The descent for a key has reached page q: its latches and its released pages lie on the path.
  ghost predicate Descended(t: Tree, q: PageId, key: Key, ps: seq<PageId>, freed: set<PageId>, next: PageId) {
    && WellFormed(t) && q in t.nodes && q in ps && Covers(t.span[q], key)
    && LatchSet(ps, next) && OnePerLevel(t, ps, 0) && FreedAbove(t, freed, ps)
    && forall a :: a in ps ==> a in t.nodes && t.span[a].level >= t.span[q].level
  }

  lemma DescendRoot(t: Tree, key: Key, next: PageId)
    requires WellFormed(t) && t.root < next
    ensures Descended(t, t.root, key, [t.root], {}, next)
  {
    assert PageOK(t, t.root);
  }

  // The child that a search picks covers the key.
  lemma ChildCovers(t: Tree, q: PageId, key: Key, i: nat)
    requires WellFormed(t) && q in t.nodes && t.nodes[q].Internal? && Covers(t.span[q], key)
    requires i < |t.nodes[q].slots|
    requires i > 0 ==> t.nodes[q].slots[i].key <= key
    requires i + 1 < |t.nodes[q].slots| ==> key < t.nodes[q].slots[i + 1].key
    ensures var c := t.nodes[q].slots[i].child;
            && c in t.nodes && t.nodes[c].parent == q && c != t.root
            && Covers(t.span[c], key) && t.span[c].level + 1 == t.span[q].level
  {
    assert PageOK(t, q);
    assert ChildOK(t, q, t.nodes[q].slots, i);
    assert PageOK(t, t.root);
  }

  lemma DescendKeeping(t: Tree, q: PageId, c: PageId, key: Key, ps: seq<PageId>, freed: set<PageId>, next: PageId)
    requires Descended(t, q, key, ps, freed, next) && c in t.nodes && c < next
    requires Covers(t.span[c], key) && t.span[c].level + 1 == t.span[q].level
    ensures Descended(t, c, key, ps + [c], freed, next)
  {}

  lemma DescendReleasing(t: Tree, q: PageId, c: PageId, key: Key, ps: seq<PageId>, freed: set<PageId>, next: PageId)
    requires Descended(t, q, key, ps, freed, next) && c in t.nodes && c < next
    requires Covers(t.span[c], key) && t.span[c].level + 1 == t.span[q].level
    ensures Descended(t, c, key, [c], freed + (set a | a in ps), next)
  {}

  lemma LatchedDown(t: Tree, q: PageId, c: PageId, ps: seq<PageId>, rootLocked: bool, lim: Limits, op: OpType)
    requires WellFormed(t) && q in t.nodes && c in t.nodes && t.nodes[c].parent == q && c != t.root
    requires Latched(t, q, ps, rootLocked, lim, op)
    ensures Latched(t, c, ps + [c], rootLocked, lim, op)
  {
    assert PageOK(t, c);
    LatchedStays(t, t, t.span[c].level, q, ps, ps + [c], rootLocked, lim, op);
  }
}
