/**
 What a well-formed tree says in terms of the pages alone: parent ids lead from every leaf to
 the root in the same number of steps, and the span of a page, with it the unused key of its
 slot 0, is what the separators of its ancestors leave to it.
 */
module TreeMeaning {
  import opened TreeTypes
  import opened TreeShape
  import opened TreeSplit
  import opened TreeInsert
  import opened TreeEntries

  // The number of parent ids to follow from page p to a page without one.
  ghost function Depth(t: Tree, p: PageId): nat
    requires WellFormed(t) && p in t.nodes
    decreases Height(t) - t.span[p].level
  {
    assert PageOK(t, p);
    if t.nodes[p].parent == INVALID_PAGE_ID then 0 else 1 + Depth(t, t.nodes[p].parent)
  }

  lemma {:induction false} DepthAndLevel(t: Tree, p: PageId)
    requires WellFormed(t) && p in t.nodes
    ensures Depth(t, p) + t.span[p].level == Height(t)
    decreases Height(t) - t.span[p].level
  {
    assert PageOK(t, p);
    RootKnown(t, p);
    if p != t.root {
      DepthAndLevel(t, t.nodes[p].parent);
    }
  }

  // All leaves are at the same depth.
  lemma LeavesAreLevel(t: Tree, p: PageId, q: PageId)
    requires WellFormed(t) && p in t.nodes && q in t.nodes && t.nodes[p].Leaf?
    ensures Depth(t, p) >= Depth(t, q)
    ensures t.nodes[q].Leaf? <==> Depth(t, p) == Depth(t, q)
  {
    DepthAndLevel(t, p);
    DepthAndLevel(t, q);
    assert PageOK(t, p) && PageOK(t, q);
  }

  // The nearest separator to the left of page p among its ancestors.
  ghost function NearestLeft(t: Tree, p: PageId): Bound
    requires WellFormed(t) && p in t.nodes
    decreases Height(t) - t.span[p].level
  {
    assert PageOK(t, p);
    if t.nodes[p].parent == INVALID_PAGE_ID then Open
    else
      var ss := t.nodes[t.nodes[p].parent].slots;
      var i := IndexOf(ss, p);
      if i > 0 then At(ss[i].key) else NearestLeft(t, t.nodes[p].parent)
  }

  // The nearest separator to the right.
  ghost function NearestRight(t: Tree, p: PageId): Bound
    requires WellFormed(t) && p in t.nodes
    decreases Height(t) - t.span[p].level
  {
    assert PageOK(t, p);
    if t.nodes[p].parent == INVALID_PAGE_ID then Open
    else
      var ss := t.nodes[t.nodes[p].parent].slots;
      var i := IndexOf(ss, p);
      if i + 1 < |ss| then At(ss[i + 1].key) else NearestRight(t, t.nodes[p].parent)
  }

  lemma {:induction false} SpanFromAncestors(t: Tree, p: PageId)
    requires WellFormed(t) && p in t.nodes
    ensures t.span[p].lo == NearestLeft(t, p) && t.span[p].hi == NearestRight(t, p)
    decreases Height(t) - t.span[p].level
  {
    assert PageOK(t, p);
    RootKnown(t, p);
    if p != t.root {
      var q := t.nodes[p].parent;
      assert PageOK(t, q);
      assert ChildOK(t, q, t.nodes[q].slots, IndexOf(t.nodes[q].slots, p));
      SpanFromAncestors(t, q);
    }
  }

  // Off the leftmost path the key in slot 0 is the nearest separator to the left.
  lemma SlotZeroKey(t: Tree, p: PageId)
    requires WellFormed(t) && p in t.nodes && t.nodes[p].Internal?
    ensures |t.nodes[p].slots| > 0
    ensures NearestLeft(t, p).At? ==> t.nodes[p].slots[0].key == NearestLeft(t, p).key
  {
    assert PageOK(t, p);
    SpanFromAncestors(t, p);
  }

  // Every key of a leaf lies between the separators around the leaf.
  lemma EntriesBetweenSeparators(t: Tree, p: PageId, e: Entry)
    requires WellFormed(t) && HoldsEntry(t, p, e)
    ensures NearestLeft(t, p).At? ==> NearestLeft(t, p).key <= e.key
    ensures NearestRight(t, p).At? ==> e.key < NearestRight(t, p).key
  {
    assert PageOK(t, p);
    SpanFromAncestors(t, p);
    var es := t.nodes[p].entries;
    var i :| 0 <= i < |es| && es[i] == e;
    assert Covers(t.span[p], es[i].key);
  }

  // A leaf leads to the leaf whose left separator is its own right one.
  lemma ChainFollowsSeparators(t: Tree, p: PageId)
    requires WellFormed(t) && p in t.nodes && t.nodes[p].Leaf?
    ensures var n := t.nodes[p].next;
            if NearestRight(t, p).Open? then n == INVALID_PAGE_ID
            else n in t.nodes && t.nodes[n].Leaf? && NearestLeft(t, n) == NearestRight(t, p)
  {
    assert PageOK(t, p);
    SpanFromAncestors(t, p);
    if t.span[p].hi.At? {
      SpanFromAncestors(t, t.nodes[p].next);
    }
  }

  // Begin(key) can stop one past the last pair of its leaf: a tree with the single key 1, and key 5.
  lemma BeginPastTheEnd()
    ensures exists t: Tree, p, key, m ::
              && Sound(t, Limits(3, 4), m) && p in t.nodes && t.nodes[p].Leaf? && Covers(t.span[p], key)
              && LowerBound(t.nodes[p].entries, key) == |t.nodes[p].entries|
  {
    var e := Entry(1, RID(0, 0));
    var t := Tree(map[1 := Leaf(INVALID_PAGE_ID, [e], INVALID_PAGE_ID)], 1, map[1 := Span(Open, Open, 0)]);
    var m := map[1 := RID(0, 0)];
    assert HoldsEntry(t, 1, e);
    assert PageOK(t, 1);
    assert Sound(t, Limits(3, 4), m);
    assert LowerBound([e], 5) == 1;
    assert Covers(t.span[1], 5);
  }
}
