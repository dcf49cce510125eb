/**
 Borrowing one pair across the boundary of two siblings, and replacing a root that has a
 single child. A borrow is shown to be a join of the two pages followed by a split at the
 new boundary, so that it inherits what is known of both.
 */
module TreeBorrow {
  import opened TreeTypes
  import opened TreeShape
  import opened TreeSplit
  import opened TreeMerge

  ghost function SetKeyAt(ss: seq<Slot>, i: nat, k: Key): seq<Slot>
    requires i < |ss|
  {
    ss[i := ss[i].(key := k)]
  }

  // All pairs of two siblings dealt out again, c of them to the left page; the boundary key
  // moves with them.
  ghost function Recut(t: Tree, p: PageId, i: nat, l: PageId, r: PageId, c: nat): Tree
    requires Siblings(t, p, i, l, r) && 0 < c < Pairs(t, p, i, l, r).Size()
  {
    var j := Pairs(t, p, i, l, r);
    var lower, upper, key := LowerHalf(j, c, r), UpperHalf(j, c), KeyAt(j, c);
    Tree(Reparent(Reparent(t.nodes, Children(lower), l), Children(upper), r)
           [l := lower][r := upper.WithParent(p)]
           [p := Internal(t.nodes[p].parent, SetKeyAt(t.nodes[p].slots, i, key))],
         t.root,
         t.span[l := t.span[l].(hi := At(key))][r := t.span[r].(lo := At(key))])
  }

  ghost function Pairs(t: Tree, p: PageId, i: nat, l: PageId, r: PageId): Node
    requires Siblings(t, p, i, l, r)
  {
    Joined(t.nodes[l], t.nodes[r], t.nodes[p].slots[i].key)
  }

  lemma RecutParts(t: Tree, p: PageId, i: nat, l: PageId, r: PageId)
    requires Siblings(t, p, i, l, r)
    ensures Pairs(t, p, i, l, r).Size() == t.nodes[l].Size() + t.nodes[r].Size()
    ensures Pairs(t, p, i, l, r).parent == p
    ensures l in Merge(t, p, i, l, r).nodes && Merge(t, p, i, l, r).nodes[l] == Pairs(t, p, i, l, r)
    ensures r !in Merge(t, p, i, l, r).nodes && l != t.root && r != INVALID_PAGE_ID
  {
    SiblingFacts(t, p, i, l, r);
    if t.nodes[l].Internal? { JoinedSlots(t, p, i, l, r); }
  }

  lemma RecutWellFormed(t: Tree, p: PageId, i: nat, l: PageId, r: PageId, c: nat)
    requires Siblings(t, p, i, l, r) && 0 < c < Pairs(t, p, i, l, r).Size()
    ensures WellFormed(Recut(t, p, i, l, r, c))
  {
    MergeWellFormed(t, p, i, l, r);
    RecutParts(t, p, i, l, r);
    var t1 := Merge(t, p, i, l, r);
    DivideKeepsParent(t1, l, r, c);
    var d := Divide(t1, l, r, c);
    var t2 := LinkParent(d, l, KeyAt(t1.nodes[l], c), r);
    SplitUnderParent(t1, l, r, c, t2);
    RecutIsMergeThenSplit(t, p, i, l, r, c, t2);
  }

  lemma RecutIsMergeThenSplit(t: Tree, p: PageId, i: nat, l: PageId, r: PageId, c: nat, t2: Tree)
    requires Siblings(t, p, i, l, r) && 0 < c < Pairs(t, p, i, l, r).Size()
    requires l in Merge(t, p, i, l, r).nodes && Merge(t, p, i, l, r).nodes[l] == Pairs(t, p, i, l, r)
    requires var d := Divide(Merge(t, p, i, l, r), l, r, c);
             && d.nodes[l].parent in d.nodes && HasChild(d.nodes[d.nodes[l].parent], l)
             && t2 == LinkParent(d, l, KeyAt(Pairs(t, p, i, l, r), c), r)
    ensures t2 == Recut(t, p, i, l, r, c)
  {
    SiblingFacts(t, p, i, l, r);
    RecutParts(t, p, i, l, r);
    var t3 := Recut(t, p, i, l, r, c);
    RecutParentSlots(t, p, i, l, r, c, t2);
    forall q | q in t3.nodes
      ensures q in t2.nodes && t2.nodes[q] == t3.nodes[q]
    {
      if q != p && q != l && q != r {
        RecutOther(t, p, i, l, r, c, q);
      }
    }
    assert t2.nodes == t3.nodes;
    assert t2.span == t3.span;
  }

  // Children that stay on their side keep the parent they had.
  lemma RecutOther(t: Tree, p: PageId, i: nat, l: PageId, r: PageId, c: nat, q: PageId)
    requires Siblings(t, p, i, l, r) && 0 < c < Pairs(t, p, i, l, r).Size()
    requires q in t.nodes && q != p && q != l && q != r
    ensures var j := Pairs(t, p, i, l, r);
            var a, b := Children(LowerHalf(j, c, r)), Children(UpperHalf(j, c));
            && (q in Children(t.nodes[r]) ==> q in a || q in b)
            && (q in a && q !in b && q !in Children(t.nodes[r]) ==> t.nodes[q].WithParent(l) == t.nodes[q])
  {
    SiblingFacts(t, p, i, l, r);
    if t.nodes[l].Internal? {
      JoinedSlots(t, p, i, l, r);
      ChildrenOf(t, l);
      ChildrenOf(t, r);
      var j := Pairs(t, p, i, l, r);
      var ls, rs := t.nodes[l].slots, t.nodes[r].slots;
      var lo, up := LowerHalf(j, c, r), UpperHalf(j, c);
      if q in Children(t.nodes[r]) {
        var k :| 0 <= k < |rs| && rs[k].child == q;
        var x := |ls| + k;
        assert x < c ==> lo.slots[x].child == q;
        assert x >= c ==> up.slots[x - c].child == q;
      }
      if q in Children(lo) {
        var x :| 0 <= x < |lo.slots| && lo.slots[x].child == q;
        assert x >= |ls| ==> rs[x - |ls|].child == q;
        assert x < |ls| ==> ls[x].child == q;
      }
    }
  }

  lemma RecutParentSlots(t: Tree, p: PageId, i: nat, l: PageId, r: PageId, c: nat, t2: Tree)
    requires Siblings(t, p, i, l, r) && 0 < c < Pairs(t, p, i, l, r).Size()
    requires l in Merge(t, p, i, l, r).nodes && Merge(t, p, i, l, r).nodes[l] == Pairs(t, p, i, l, r)
    requires var d := Divide(Merge(t, p, i, l, r), l, r, c);
             && d.nodes[l].parent in d.nodes && HasChild(d.nodes[d.nodes[l].parent], l)
             && t2 == LinkParent(d, l, KeyAt(Pairs(t, p, i, l, r), c), r)
    ensures p in t2.nodes
    ensures t2.nodes[p] == Internal(t.nodes[p].parent, SetKeyAt(t.nodes[p].slots, i, KeyAt(Pairs(t, p, i, l, r), c)))
  {
    SiblingFacts(t, p, i, l, r);
    RecutParts(t, p, i, l, r);
    MergeWellFormed(t, p, i, l, r);
    var t1 := Merge(t, p, i, l, r);
    DivideKeepsParent(t1, l, r, c);
    ChildrenOf(t, p);
    RemovedAndBack(t.nodes[p].slots, i, KeyAt(Pairs(t, p, i, l, r), c));
  }

  // Taking out the slot of r and putting it back behind l leaves its new key.
  lemma RemovedAndBack(ss: seq<Slot>, i: nat, key: Key)
    requires 0 < i < |ss| && forall a, b :: 0 <= a < b < |ss| ==> ss[a].child != ss[b].child
    ensures IndexOf(RemoveAt(ss, i), ss[i - 1].child) == i - 1
    ensures InsertAfter(RemoveAt(ss, i), i - 1, Slot(key, ss[i].child)) == SetKeyAt(ss, i, key)
  {
    var ss1 := RemoveAt(ss, i);
    assert forall a {:trigger ss1[a]} :: 0 <= a < |ss1| ==> ss1[a] == ss[if a < i then a else a + 1];
    IndexOfUnique(ss1, i - 1);
  }

  // --- the two borrows, as the pages carry them out ---

  ghost function FirstChild(n: Node): set<PageId>
    requires n.Size() > 0
  {
    if n.Leaf? then {} else {n.slots[0].child}
  }

  ghost function LastChild(n: Node): set<PageId>
    requires n.Size() > 0
  {
    if n.Leaf? then {} else {n.slots[|n.slots| - 1].child}
  }

  // r's first pair goes to the end of l, and r's new first key to the parent.
  ghost function BorrowFromRight(t: Tree, p: PageId, i: nat, l: PageId, r: PageId): Tree
    requires Siblings(t, p, i, l, r) && t.nodes[r].Size() > 1 && t.nodes[l].Leaf? == t.nodes[r].Leaf?
  {
    var ln, rn, key := t.nodes[l], t.nodes[r], KeyAt(t.nodes[r], 1);
    var l2 := if ln.Leaf? then Leaf(ln.parent, ln.entries + rn.entries[..1], ln.next)
              else Internal(ln.parent, ln.slots + rn.slots[..1]);
    var r2 := if rn.Leaf? then Leaf(rn.parent, rn.entries[1..], rn.next) else Internal(rn.parent, rn.slots[1..]);
    Tree(Reparent(t.nodes, FirstChild(rn), l)[l := l2][r := r2]
           [p := Internal(t.nodes[p].parent, SetKeyAt(t.nodes[p].slots, i, key))],
         t.root,
         t.span[l := t.span[l].(hi := At(key))][r := t.span[r].(lo := At(key))])
  }

  // l's last pair goes to the front of r, and its key to the parent.
  ghost function BorrowFromLeft(t: Tree, p: PageId, i: nat, l: PageId, r: PageId): Tree
    requires Siblings(t, p, i, l, r) && t.nodes[l].Size() > 1 && t.nodes[l].Leaf? == t.nodes[r].Leaf?
  {
    var ln, rn, m := t.nodes[l], t.nodes[r], t.nodes[l].Size() - 1;
    var key := KeyAt(ln, m);
    var l2 := if ln.Leaf? then Leaf(ln.parent, ln.entries[..m], ln.next) else Internal(ln.parent, ln.slots[..m]);
    var r2 := if rn.Leaf? then Leaf(rn.parent, ln.entries[m..] + rn.entries, rn.next)
              else Internal(rn.parent, ln.slots[m..] + rn.slots);
    Tree(Reparent(t.nodes, LastChild(ln), r)[l := l2][r := r2]
           [p := Internal(t.nodes[p].parent, SetKeyAt(t.nodes[p].slots, i, key))],
         t.root,
         t.span[l := t.span[l].(hi := At(key))][r := t.span[r].(lo := At(key))])
  }

  // Dealing the pairs out again changes the parent only of the one child that crosses.
  lemma RecutMoves(t: Tree, p: PageId, i: nat, l: PageId, r: PageId, c: nat, to: PageId, q: PageId)
    requires Siblings(t, p, i, l, r) && t.nodes[l].Internal? && t.nodes[r].Internal?
    requires 0 < c < Pairs(t, p, i, l, r).Size()
    requires Pairs(t, p, i, l, r) == Internal(p, t.nodes[l].slots + t.nodes[r].slots)
    requires t.nodes[r].Size() > 0 && t.nodes[l].Size() > 0
    requires (to == l && c == |t.nodes[l].slots| + 1) || (to == r && c == |t.nodes[l].slots| - 1)
    requires q in t.nodes && q != p && q != l && q != r
    ensures var moved := if to == l then FirstChild(t.nodes[r]) else LastChild(t.nodes[l]);
            Recut(t, p, i, l, r, c).nodes[q] == Reparent(t.nodes, moved, to)[q]
  {
    SiblingFacts(t, p, i, l, r);
    ChildrenOf(t, l);
    ChildrenOf(t, r);
    var j := Pairs(t, p, i, l, r);
    var lo, up, ls, rs := LowerHalf(j, c, r).slots, UpperHalf(j, c).slots, t.nodes[l].slots, t.nodes[r].slots;
    if to == l {
      assert lo == ls + rs[..1] && up == rs[1..];
      assert lo[c - 1].child == rs[0].child;
    } else {
      assert lo == ls[..c] && up == ls[c..] + rs;
      assert up[0].child == ls[c].child;
    }
  }

  lemma BorrowFromRightIsRecut(t: Tree, p: PageId, i: nat, l: PageId, r: PageId)
    requires Siblings(t, p, i, l, r) && t.nodes[r].Size() > 1
    ensures t.nodes[l].Leaf? == t.nodes[r].Leaf?
    ensures 0 < t.nodes[l].Size() + 1 < Pairs(t, p, i, l, r).Size()
    ensures BorrowFromRight(t, p, i, l, r) == Recut(t, p, i, l, r, t.nodes[l].Size() + 1)
  {
    SiblingFacts(t, p, i, l, r);
    RecutParts(t, p, i, l, r);
    var c := t.nodes[l].Size() + 1;
    var t2, t3 := BorrowFromRight(t, p, i, l, r), Recut(t, p, i, l, r, c);
    forall q | q in t.nodes ensures t2.nodes[q] == t3.nodes[q] {
      if t.nodes[l].Leaf? {
        LeafRightRecut(t, p, i, l, r, q);
      } else {
        InternalRightRecut(t, p, i, l, r, q);
      }
    }
    assert t2.nodes == t3.nodes;
  }

  lemma LeafRightRecut(t: Tree, p: PageId, i: nat, l: PageId, r: PageId, q: PageId)
    requires Siblings(t, p, i, l, r) && t.nodes[r].Size() > 1 && t.nodes[l].Leaf? && t.nodes[r].Leaf? && q in t.nodes
    ensures var c := t.nodes[l].Size() + 1;
            && 0 < c < Pairs(t, p, i, l, r).Size()
            && q in BorrowFromRight(t, p, i, l, r).nodes && q in Recut(t, p, i, l, r, c).nodes
            && BorrowFromRight(t, p, i, l, r).nodes[q] == Recut(t, p, i, l, r, c).nodes[q]
  {
    SiblingFacts(t, p, i, l, r);
    RecutParts(t, p, i, l, r);
  }

  lemma InternalRightRecut(t: Tree, p: PageId, i: nat, l: PageId, r: PageId, q: PageId)
    requires Siblings(t, p, i, l, r) && t.nodes[r].Size() > 1 && t.nodes[l].Internal? && t.nodes[r].Internal?
    requires q in t.nodes
    ensures var c := t.nodes[l].Size() + 1;
            && 0 < c < Pairs(t, p, i, l, r).Size()
            && q in BorrowFromRight(t, p, i, l, r).nodes && q in Recut(t, p, i, l, r, c).nodes
            && BorrowFromRight(t, p, i, l, r).nodes[q] == Recut(t, p, i, l, r, c).nodes[q]
  {
    SiblingFacts(t, p, i, l, r);
    RecutParts(t, p, i, l, r);
    JoinedSlots(t, p, i, l, r);
    if q != p && q != l && q != r {
      RecutMoves(t, p, i, l, r, t.nodes[l].Size() + 1, l, q);
    }
  }


  lemma BorrowFromLeftIsRecut(t: Tree, p: PageId, i: nat, l: PageId, r: PageId)
    requires Siblings(t, p, i, l, r) && t.nodes[l].Size() > 1
    ensures t.nodes[l].Leaf? == t.nodes[r].Leaf?
    ensures 0 < t.nodes[l].Size() - 1 < Pairs(t, p, i, l, r).Size()
    ensures BorrowFromLeft(t, p, i, l, r) == Recut(t, p, i, l, r, t.nodes[l].Size() - 1)
  {
    SiblingFacts(t, p, i, l, r);
    RecutParts(t, p, i, l, r);
    var c := t.nodes[l].Size() - 1;
    var t2, t3 := BorrowFromLeft(t, p, i, l, r), Recut(t, p, i, l, r, c);
    forall q | q in t.nodes ensures t2.nodes[q] == t3.nodes[q] {
      if t.nodes[l].Leaf? {
        LeafLeftRecut(t, p, i, l, r, q);
      } else {
        InternalLeftRecut(t, p, i, l, r, q);
      }
    }
    assert t2.nodes == t3.nodes;
  }

  lemma LeafLeftRecut(t: Tree, p: PageId, i: nat, l: PageId, r: PageId, q: PageId)
    requires Siblings(t, p, i, l, r) && t.nodes[l].Size() > 1 && t.nodes[l].Leaf? && t.nodes[r].Leaf? && q in t.nodes
    ensures var c := t.nodes[l].Size() - 1;
            && 0 < c < Pairs(t, p, i, l, r).Size()
            && q in BorrowFromLeft(t, p, i, l, r).nodes && q in Recut(t, p, i, l, r, c).nodes
            && BorrowFromLeft(t, p, i, l, r).nodes[q] == Recut(t, p, i, l, r, c).nodes[q]
  {
    SiblingFacts(t, p, i, l, r);
    RecutParts(t, p, i, l, r);
  }

  lemma InternalLeftRecut(t: Tree, p: PageId, i: nat, l: PageId, r: PageId, q: PageId)
    requires Siblings(t, p, i, l, r) && t.nodes[l].Size() > 1 && t.nodes[l].Internal? && t.nodes[r].Internal?
    requires q in t.nodes
    ensures var c := t.nodes[l].Size() - 1;
            && 0 < c < Pairs(t, p, i, l, r).Size()
            && q in BorrowFromLeft(t, p, i, l, r).nodes && q in Recut(t, p, i, l, r, c).nodes
            && BorrowFromLeft(t, p, i, l, r).nodes[q] == Recut(t, p, i, l, r, c).nodes[q]
  {
    SiblingFacts(t, p, i, l, r);
    RecutParts(t, p, i, l, r);
    JoinedSlots(t, p, i, l, r);
    if q != p && q != l && q != r {
      RecutMoves(t, p, i, l, r, t.nodes[l].Size() - 1, r, q);
    }
  }


  // --- a root left with one child gives way to it ---

  ghost function Collapse(t: Tree, c: PageId): Tree
    requires c in t.nodes
  {
    Tree(t.nodes[c := t.nodes[c].WithParent(INVALID_PAGE_ID)] - {t.root}, c, t.span - {t.root})
  }

  lemma CollapseWellFormed(t: Tree)
    requires WellFormed(t) && t.nodes[t.root].Internal? && |t.nodes[t.root].slots| == 1
    ensures t.nodes[t.root].slots[0].child in t.nodes
    ensures WellFormed(Collapse(t, t.nodes[t.root].slots[0].child))
  {
    var r := t.root;
    var ss := t.nodes[r].slots;
    var c := ss[0].child;
    assert PageOK(t, r);
    ChildrenOf(t, r);
    assert ChildOK(t, r, ss, 0);
    var t2 := Collapse(t, c);
    forall q | q in t2.nodes
      ensures PageOK(t2, q)
    {
      assert PageOK(t, q);
      if t.nodes[q].Internal? {
        ChildrenOf(t, q);
        var qs := t.nodes[q].slots;
        forall j | 0 <= j < |qs|
          ensures ChildOK(t2, q, qs, j)
        {
          assert ChildOK(t, q, qs, j);
        }
      }
      if q != c {
        var qq := t.nodes[q].parent;
        assert PageOK(t, qq);
        if qq == r {
          assert false;
        }
      }
    }
  }

  // --- contents and sizes ---

  lemma MergeRepresents(t: Tree, p: PageId, i: nat, l: PageId, r: PageId, m: map<Key, RID>)
    requires Siblings(t, p, i, l, r) && Represents(t, m)
    ensures Represents(Merge(t, p, i, l, r), m)
  {
    SiblingFacts(t, p, i, l, r);
    var t2 := Merge(t, p, i, l, r);
    if t.nodes[l].Internal? { JoinedSlots(t, p, i, l, r); }
    forall q, e | HoldsEntry(t2, q, e)
      ensures e.key in m && m[e.key] == e.value
    {
      assert HoldsEntry(t, q, e) || (q == l && HoldsEntry(t, r, e));
    }
    forall k | k in m
      ensures exists q :: HoldsEntry(t2, q, Entry(k, m[k]))
    {
      var e := Entry(k, m[k]);
      var q :| HoldsEntry(t, q, e);
      assert HoldsEntry(t2, if q == r then l else q, e);
    }
  }

  lemma RecutRepresents(t: Tree, p: PageId, i: nat, l: PageId, r: PageId, c: nat, m: map<Key, RID>)
    requires Siblings(t, p, i, l, r) && 0 < c < Pairs(t, p, i, l, r).Size() && Represents(t, m)
    ensures Represents(Recut(t, p, i, l, r, c), m)
  {
    MergeRepresents(t, p, i, l, r, m);
    MergeWellFormed(t, p, i, l, r);
    SiblingFacts(t, p, i, l, r);
    RecutParts(t, p, i, l, r);
    var t1 := Merge(t, p, i, l, r);
    DivideKeepsParent(t1, l, r, c);
    var t2 := LinkParent(Divide(t1, l, r, c), l, KeyAt(t1.nodes[l], c), r);
    LinkedSplitResult(t1, l, r, c, p, t2);
    SplitRepresents(t1, l, r, c, p, t2, m);
    RecutIsMergeThenSplit(t, p, i, l, r, c, t2);
  }

  lemma MergeSizes(t: Tree, lim: Limits, p: PageId, i: nat, l: PageId, r: PageId, u: PageId)
    requires Siblings(t, p, i, l, r) && lim.Valid() && SizesOK(t, lim, u) && (u == l || u == r)
    requires t.nodes[l].Size() + t.nodes[r].Size() <= lim.MaxSize(t.nodes[l])
    ensures SizesOK(Merge(t, p, i, l, r), lim, p)
    ensures p in Merge(t, p, i, l, r).nodes && Merge(t, p, i, l, r).nodes[p].Size() == t.nodes[p].Size() - 1
  {
    SiblingFacts(t, p, i, l, r);
    RecutParts(t, p, i, l, r);
    var t2 := Merge(t, p, i, l, r);
    forall q | q in t2.nodes && q != p
      ensures lim.SizeOK(t2.nodes[q])
    {
      assert q != u ==> lim.SizeOK(t.nodes[q]);
      assert lim.SizeOK(t.nodes[if u == l then r else l]);
      if t.nodes[r].Internal? { ChildrenOf(t, r); }
    }
  }

  // After a borrow the page that lacked a pair has enough, and its sibling still does.
  lemma BorrowSizes(t: Tree, lim: Limits, p: PageId, i: nat, l: PageId, r: PageId, u: PageId, c: nat)
    requires Siblings(t, p, i, l, r) && lim.Valid() && SizesOK(t, lim, u)
    requires t.nodes[l].Size() + t.nodes[r].Size() > lim.MaxSize(t.nodes[l])
    requires (u == l && c == t.nodes[l].Size() + 1) || (u == r && c == t.nodes[l].Size() - 1)
    requires lim.MinSize(t.nodes[u]) - 1 <= t.nodes[u].Size() <= lim.MinSize(t.nodes[u])
    requires 0 < c < Pairs(t, p, i, l, r).Size()
    ensures SizesOK(Recut(t, p, i, l, r, c), lim, INVALID_PAGE_ID)
  {
    SiblingFacts(t, p, i, l, r);
    RecutParts(t, p, i, l, r);
    var t2 := Recut(t, p, i, l, r, c);
    assert lim.SizeOK(t.nodes[p]) && lim.SizeOK(t.nodes[if u == l then r else l]);
    forall q | q in t2.nodes
      ensures lim.SizeOK(t2.nodes[q])
    {
      if q != p && q != l && q != r {
        assert lim.SizeOK(t.nodes[q]);
        RecutKeepsSize(t, p, i, l, r, c, q);
      }
    }
  }

  lemma RecutKeepsSize(t: Tree, p: PageId, i: nat, l: PageId, r: PageId, c: nat, q: PageId)
    requires Siblings(t, p, i, l, r) && 0 < c < Pairs(t, p, i, l, r).Size()
    requires q in t.nodes && q != p && q != l && q != r
    ensures var n, n2 := t.nodes[q], Recut(t, p, i, l, r, c).nodes[q];
            n.SameEntries(n2) && (n2.parent == INVALID_PAGE_ID <==> n.parent == INVALID_PAGE_ID)
  {
    SiblingFacts(t, p, i, l, r);
    if t.nodes[l].Internal? {
      ChildrenOf(t, l);
      ChildrenOf(t, r);
      JoinedSlots(t, p, i, l, r);
      var j := Pairs(t, p, i, l, r);
      var ls, rs := t.nodes[l].slots, t.nodes[r].slots;
      if q in Children(LowerHalf(j, c, r)) || q in Children(UpperHalf(j, c)) {
        var x :| 0 <= x < |j.slots| && j.slots[x].child == q;
        assert if x < |ls| then ls[x].child == q else rs[x - |ls|].child == q;
      }
    }
  }

  lemma CollapseRepresents(t: Tree, c: PageId, m: map<Key, RID>)
    requires WellFormed(t) && t.nodes[t.root].Internal? && c in t.nodes && c != t.root && Represents(t, m)
    ensures Represents(Collapse(t, c), m)
  {
    var t2 := Collapse(t, c);
    forall q, e | HoldsEntry(t2, q, e)
      ensures e.key in m && m[e.key] == e.value
    {
      assert HoldsEntry(t, q, e);
    }
    forall k | k in m
      ensures exists q :: HoldsEntry(t2, q, Entry(k, m[k]))
    {
      var q :| HoldsEntry(t, q, Entry(k, m[k]));
      assert HoldsEntry(t2, q, Entry(k, m[k]));
    }
  }

  lemma CollapseSizes(t: Tree, lim: Limits, c: PageId)
    requires WellFormed(t) && lim.Valid() && SizesOK(t, lim, t.root)
    requires t.nodes[t.root].Internal? && |t.nodes[t.root].slots| == 1 && c == t.nodes[t.root].slots[0].child
    ensures c in t.nodes && c != t.root
    ensures SizesOK(Collapse(t, c), lim, INVALID_PAGE_ID)
  {
    assert PageOK(t, t.root);
    ChildrenOf(t, t.root);
    assert lim.SizeOK(t.nodes[c]) && t.nodes[c].parent == t.root;
    assert forall q :: q in t.nodes && q != t.root ==> lim.SizeOK(t.nodes[q]);
  }
}
