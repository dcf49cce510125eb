/**
 One step of the climb after an insert: the split of an overfull page leaves a tree in which
 at most its parent is overfull, and only latched pages have been written.
 */
module TreeInsert {
  import opened TreeTypes
  import opened TreeShape
  import opened TreeSplit
  import opened TreeLatch
  import opened TreeEntries

  // A tree between operations: well formed, with legal page sizes, standing for the map m.
  ghost predicate Sound(t: Tree, lim: Limits, m: map<Key, RID>) {
    WellFormed(t) && SizesOK(t, lim, INVALID_PAGE_ID) && Represents(t, m)
  }

  // The same, but for page o, which has one pair too many.
  ghost predicate Overflowed(t: Tree, lim: Limits, o: PageId, m: map<Key, RID>) {
    && lim.Valid() && WellFormed(t) && SizesOK(t, lim, o) && Represents(t, m)
    && o in t.nodes && t.nodes[o].Size() == lim.MaxSize(t.nodes[o]) + 1
  }

  ghost function Half(lim: Limits, n: Node): nat {
    (lim.MaxSize(n) + 1) / 2
  }

  // The tree while the fresh page n is still without a slot in the parent of o.
  ghost predicate Pending(t0: Tree, lim: Limits, o: PageId, n: PageId, key: Key, m: map<Key, RID>, t1: Tree) {
    && Overflowed(t0, lim, o, m) && n !in t0.nodes && n != INVALID_PAGE_ID
    && t1 == Divide(t0, o, n, Half(lim, t0.nodes[o]))
    && key == KeyAt(t0.nodes[o], Half(lim, t0.nodes[o]))
  }

  lemma RootKnown(t: Tree, o: PageId)
    requires WellFormed(t) && o in t.nodes
    ensures o == t.root <==> t.nodes[o].parent == INVALID_PAGE_ID
  {
    assert PageOK(t, o);
  }

  lemma PendingPages(t0: Tree, lim: Limits, o: PageId, n: PageId, key: Key, m: map<Key, RID>, t1: Tree)
    requires Pending(t0, lim, o, n, key, m, t1)
    ensures o in t1.nodes && n in t1.nodes && o in t1.span && o != n
    ensures t1.nodes[o].parent == t1.nodes[n].parent == t0.nodes[o].parent
    ensures t1.root == t0.root
    ensures o == t0.root <==> t1.nodes[o].parent == INVALID_PAGE_ID
  {
    RootKnown(t0, o);
  }

  lemma RootSplit(t0: Tree, lim: Limits, o: PageId, n: PageId, key: Key, m: map<Key, RID>, t1: Tree,
                  r: PageId, unset: Key, ps: seq<PageId>)
    requires Pending(t0, lim, o, n, key, m, t1) && o == t0.root && o in ps
    requires r !in t1.nodes && r != INVALID_PAGE_ID && o in t1.nodes && n in t1.nodes && o in t1.span
    ensures var t2 := LinkRoot(t1, o, key, n, r, unset);
            Sound(t2, lim, m) && Untouched(t0, t2, ps)
  {
    var h := Half(lim, t0.nodes[o]);
    var t2 := LinkRoot(t1, o, key, n, r, unset);
    SplitUnderRoot(t0, o, n, h, r, unset);
    LinkedRootResult(t0, o, n, h, r, unset);
    SplitSizes(t0, lim, o, n, h, r, t2);
    SplitRepresents(t0, o, n, h, r, t2, m);
    SplitChanges(t0, o, n, h, r, t2, ps);
  }

  lemma ParentOfPending(t0: Tree, lim: Limits, o: PageId, n: PageId, key: Key, m: map<Key, RID>, t1: Tree)
    requires Pending(t0, lim, o, n, key, m, t1) && o != t0.root
    ensures var p := t0.nodes[o].parent;
            && o in t1.nodes && t1.nodes[o].parent == p && p in t1.nodes && p in t0.nodes && t1.nodes[p] == t0.nodes[p]
            && HasChild(t0.nodes[p], o) && t0.nodes[p].Size() <= lim.internalMax
            && n in t1.nodes && t1.nodes[n].parent == p
  {
    DivideKeepsParent(t0, o, n, Half(lim, t0.nodes[o]));
    assert lim.SizeOK(t0.nodes[t0.nodes[o].parent]);
  }

  lemma ParentSplit(t0: Tree, lim: Limits, o: PageId, n: PageId, key: Key, m: map<Key, RID>, t1: Tree, t2: Tree)
    requires Pending(t0, lim, o, n, key, m, t1) && o != t0.root && t0.nodes[o].parent in t0.nodes
    requires o in t1.nodes && t1.nodes[o].parent in t1.nodes && HasChild(t1.nodes[t1.nodes[o].parent], o)
    requires t2 == LinkParent(t1, o, key, n)
    ensures var p := t0.nodes[o].parent;
            && WellFormed(t2) && p in t2.nodes && t2.nodes[p].Internal?
            && t2.nodes[p].Size() == t0.nodes[p].Size() + 1
            && SplitResult(t0, o, n, Half(lim, t0.nodes[o]), p, t2) && t2.root == t0.root
            && (if t2.nodes[p].Size() <= lim.internalMax then Sound(t2, lim, m) else Overflowed(t2, lim, p, m))
  {
    var h, p := Half(lim, t0.nodes[o]), t0.nodes[o].parent;
    DivideKeepsParent(t0, o, n, h);
    assert lim.SizeOK(t0.nodes[p]);
    SplitUnderParent(t0, o, n, h, t2);
    LinkedSplitResult(t0, o, n, h, p, t2);
    SplitSizes(t0, lim, o, n, h, p, t2);
    SplitRepresents(t0, o, n, h, p, t2, m);
  }

  // One level of the climb. Only a full parent overflows, and then the latches reach further up.
  lemma ParentStep(t0: Tree, lim: Limits, o: PageId, n: PageId, key: Key, m: map<Key, RID>, t1: Tree, t2: Tree,
                   ps: seq<PageId>, rootLocked: bool)
    requires Pending(t0, lim, o, n, key, m, t1) && o != t0.root && t0.nodes[o].parent in t0.nodes
    requires o in t1.nodes && t1.nodes[o].parent in t1.nodes && HasChild(t1.nodes[t1.nodes[o].parent], o)
    requires t2 == LinkParent(t1, o, key, n)
    requires o in ps && LatchedAbove(t0, o, ps, rootLocked, lim, INSERT)
    ensures var p := t0.nodes[o].parent;
            && Untouched(t0, t2, ps) && p in t2.nodes && t2.nodes[p].Internal? && p in ps
            && (if t2.nodes[p].Size() <= lim.internalMax then Sound(t2, lim, m)
                else Overflowed(t2, lim, p, m) && LatchedAbove(t2, p, ps, rootLocked, lim, INSERT))
            && Height(t2) == Height(t0) && p in t2.span && t2.span[p].level == t0.span[o].level + 1 <= Height(t2)
  {
    var p := t0.nodes[o].parent;
    assert PageOK(t0, o);
    ParentSplit(t0, lim, o, n, key, m, t1, t2);
    SplitChanges(t0, o, n, Half(lim, t0.nodes[o]), p, t2, ps);
    if t0.nodes[p].Size() >= lim.internalMax {
      LatchedAboveStays(t0, t2, p, ps, ps, rootLocked, lim, INSERT);
    }
  }

  ghost function Height(t: Tree): nat {
    if t.root in t.span then t.span[t.root].level else 0
  }

  // The pair went into a leaf with room, and nothing else changed.
  ghost predicate InPlace(t: Tree, lim: Limits, p: PageId, e: Entry, t2: Tree)
    requires p in t.nodes && t.nodes[p].Leaf?
  {
    |t.nodes[p].entries| < lim.leafMax ==> t2 == SetEntries(t, p, InsertEntry(t.nodes[p].entries, e))
  }

  // A split happens only when the leaf that covers the key is full.
  ghost predicate SplitsOnlyFull(t: Tree, lim: Limits, e: Entry, t2: Tree) {
    forall p :: p in t.nodes && p in t.span && t.nodes[p].Leaf? && Covers(t.span[p], e.key) ==>
      InPlace(t, lim, p, e, t2)
  }

  lemma OnlyLeaf(t: Tree, lim: Limits, p: PageId, e: Entry, t2: Tree)
    requires WellFormed(t) && p in t.nodes && t.nodes[p].Leaf? && Covers(t.span[p], e.key) && InPlace(t, lim, p, e, t2)
    ensures SplitsOnlyFull(t, lim, e, t2)
  {
    forall q | q in t.nodes && q in t.span && t.nodes[q].Leaf? && Covers(t.span[q], e.key)
      ensures InPlace(t, lim, q, e, t2)
    {
      assert PageOK(t, p) && PageOK(t, q);
      UniqueCover(t, p, q, e.key);
    }
  }

  // The insert itself, at the bottom of the descent.
  lemma LeafStep(t: Tree, lim: Limits, p: PageId, e: Entry, m: map<Key, RID>, ps: seq<PageId>, rootLocked: bool)
    requires Sound(t, lim, m) && lim.Valid() && p in t.nodes && t.nodes[p].Leaf? && Covers(t.span[p], e.key) &&
             e.key !in m
    requires Latched(t, p, ps, rootLocked, lim, INSERT)
    ensures var t2, m2 := SetEntries(t, p, InsertEntry(t.nodes[p].entries, e)), m[e.key := e.value];
            && Untouched(t, t2, ps) && t2.nodes[p].Size() == t.nodes[p].Size() + 1
            && (if t2.nodes[p].Size() <= lim.leafMax then Sound(t2, lim, m2)
                else Overflowed(t2, lim, p, m2) && LatchedAbove(t2, p, ps, rootLocked, lim, INSERT))
  {
    InsertInLeaf(t, p, e, m);
    assert lim.SizeOK(t.nodes[p]) && PageOK(t, p);
    var t2 := SetEntries(t, p, InsertEntry(t.nodes[p].entries, e));
    if t2.nodes[p].Size() > lim.leafMax {
      LatchedAboveStays(t, t2, p, ps, ps, rootLocked, lim, INSERT);
    }
  }

  // Pages released on the way down are as they were.
  lemma FreedUntouched(t: Tree, t2: Tree, freed: set<PageId>, ps: seq<PageId>, ps2: seq<PageId>, next: PageId)
    requires FreedAbove(t, freed, ps) && Untouched(t, t2, ps2) && AddsFresh(ps, ps2, next)
    requires forall p :: p in t.nodes ==> p < next
    ensures forall f :: f in freed ==> f in t.nodes && f in t2.nodes && t.nodes[f].SameEntries(t2.nodes[f])
  {
    forall f | f in freed
      ensures f !in ps2
    {}
  }
}
