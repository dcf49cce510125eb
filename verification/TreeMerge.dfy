/**
 Taking pages out of the tree: a page is joined onto its left sibling, a borrow moves one
 pair across the boundary of two siblings, and a root with a single child gives way to it.
 */
module TreeMerge {
  import opened TreeTypes
  import opened TreeShape
  import opened TreeSplit

  ghost function RemoveAt(ss: seq<Slot>, i: nat): seq<Slot>
    requires i < |ss|
  {
    ss[..i] + ss[i + 1..]
  }

  // The pairs of l followed by those of r. An internal page first writes the separator that
  // stood between the two over its unused slot 0 key.
  ghost function Joined(l: Node, r: Node, sep: Key): Node {
    if l.Leaf? && r.Leaf? then Leaf(l.parent, l.entries + r.entries, r.next)
    else if l.Internal? && r.Internal? && |r.slots| > 0 then
      Internal(l.parent, l.slots + [r.slots[0].(key := sep)] + r.slots[1..])
    else l
  }

  // l and r are neighbouring children of p, r in slot i.
  ghost predicate Siblings(t: Tree, p: PageId, i: nat, l: PageId, r: PageId) {
    && WellFormed(t) && p in t.nodes && t.nodes[p].Internal?
    && 0 < i < |t.nodes[p].slots|
    && t.nodes[p].slots[i - 1].child == l && t.nodes[p].slots[i].child == r
    && l in t.nodes && r in t.nodes && l in t.span && r in t.span
  }

  ghost function Merge(t: Tree, p: PageId, i: nat, l: PageId, r: PageId): Tree
    requires Siblings(t, p, i, l, r)
  {
    var ss := t.nodes[p].slots;
    Tree(Reparent(t.nodes, Children(t.nodes[r]), l)
           [l := Joined(t.nodes[l], t.nodes[r], ss[i].key)]
           [p := Internal(t.nodes[p].parent, RemoveAt(ss, i))] - {r},
         t.root,
         t.span[l := t.span[l].(hi := t.span[r].hi)] - {r})
  }

  // What being neighbours says about the two spans and the two pages.
  lemma SiblingFacts(t: Tree, p: PageId, i: nat, l: PageId, r: PageId)
    requires Siblings(t, p, i, l, r)
    ensures l != r && l != p && r != p && l != t.root && r != t.root
    ensures t.span[l].level == t.span[r].level && t.span[l].level + 1 == t.span[p].level
    ensures t.nodes[l].parent == p && t.nodes[r].parent == p
    ensures t.span[l].hi == t.span[r].lo == At(t.nodes[p].slots[i].key)
    ensures t.nodes[l].Leaf? == t.nodes[r].Leaf?
    ensures t.nodes[r].Internal? ==> |t.nodes[r].slots| > 0 && t.nodes[r].slots[0].key == t.nodes[p].slots[i].key
    ensures t.nodes[l].Internal? ==> |t.nodes[l].slots| > 0
    ensures t.nodes[l].Leaf? ==> t.nodes[l].next == r
  {
    var ss := t.nodes[p].slots;
    assert PageOK(t, p) && PageOK(t, l) && PageOK(t, r);
    ChildrenOf(t, p);
    assert ChildOK(t, p, ss, i - 1) && ChildOK(t, p, ss, i);
    if t.nodes[l].Leaf? {
      var next := t.nodes[l].next;
      assert PageOK(t, next);
      UniqueCover(t, next, r, ss[i].key);
    }
  }

  // No leaf but l leads to r.
  lemma OnlyLeftLeadsTo(t: Tree, p: PageId, i: nat, l: PageId, r: PageId, q: PageId)
    requires Siblings(t, p, i, l, r) && q in t.nodes && t.nodes[q].Leaf? && t.nodes[r].Leaf?
    requires t.nodes[q].next == r
    ensures q == l
  {
    SiblingFacts(t, p, i, l, r);
    assert PageOK(t, q) && PageOK(t, l) && PageOK(t, r);
    UniqueCover(t, q, l, t.nodes[p].slots[i].key - 1);
  }

  lemma KeysOfJoin(ls: seq<Slot>, rs: seq<Slot>, a: Span, b: Span)
    requires KeysOK(ls, a) && KeysOK(rs, b) && a.hi == b.lo && a.hi.At? && NonEmpty(a) && NonEmpty(b)
    ensures KeysOK(ls + rs, a.(hi := b.hi))
  {
    var ss, s := ls + rs, a.(hi := b.hi);
    forall i | 1 <= i < |ss|
      ensures Inside(s, ss[i].key)
    {
      if i >= |ls| {
        assert ss[i] == rs[i - |ls|];
      }
    }
    forall i, j | 1 <= i < j < |ss|
      ensures ss[i].key < ss[j].key
    {
      if i < |ls| <= j {
        assert ss[j] == rs[j - |ls|] && Inside(a, ls[i].key);
      }
    }
  }

  lemma KeysAfterRemove(ss: seq<Slot>, s: Span, i: nat)
    requires KeysOK(ss, s) && 0 < i < |ss|
    ensures KeysOK(RemoveAt(ss, i), s)
  {
    var ss2 := RemoveAt(ss, i);
    assert forall j :: 0 <= j < |ss2| ==> ss2[j] == if j < i then ss[j] else ss[j + 1];
  }

  lemma JoinedSlots(t: Tree, p: PageId, i: nat, l: PageId, r: PageId)
    requires Siblings(t, p, i, l, r) && t.nodes[l].Internal?
    ensures t.nodes[r].Internal?
    ensures Joined(t.nodes[l], t.nodes[r], t.nodes[p].slots[i].key) ==
            Internal(t.nodes[l].parent, t.nodes[l].slots + t.nodes[r].slots)
  {
    SiblingFacts(t, p, i, l, r);
    var rs := t.nodes[r].slots;
    assert rs == [rs[0].(key := t.nodes[p].slots[i].key)] + rs[1..];
  }

  lemma MergeLeftOK(t: Tree, p: PageId, i: nat, l: PageId, r: PageId, t2: Tree)
    requires Siblings(t, p, i, l, r) && t2 == Merge(t, p, i, l, r)
    requires t2.root in t2.span
    ensures l in t2.nodes && l in t2.span && t2.nodes[l].Leaf? == t.nodes[l].Leaf?
    ensures if t.nodes[l].Leaf? then LeafOK(t2, l, t2.nodes[l].entries, t2.nodes[l].next)
            else InternalOK(t2, l, t2.nodes[l].slots)
    ensures NonEmpty(t2.span[l])
  {
    SiblingFacts(t, p, i, l, r);
    assert PageOK(t, l) && PageOK(t, r);
    if t.nodes[l].Leaf? {
      var es := t.nodes[l].entries + t.nodes[r].entries;
      assert t2.nodes[l].entries == es;
      forall a | 0 <= a < |es| ensures Covers(t2.span[l], es[a].key) {}
      var next := t.nodes[r].next;
      assert t.span[r].hi.At? ==> PageOK(t, next) && next != r && next != p;
    } else {
      JoinedSlots(t, p, i, l, r);
      KeysOfJoin(t.nodes[l].slots, t.nodes[r].slots, t.span[l], t.span[r]);
      forall j | 0 <= j < |t2.nodes[l].slots|
        ensures ChildOK(t2, l, t2.nodes[l].slots, j)
      {
        MergeLeftChildOK(t, p, i, l, r, t2, j);
      }
    }
  }

  lemma MergeLeftChildOK(t: Tree, p: PageId, i: nat, l: PageId, r: PageId, t2: Tree, j: nat)
    requires Siblings(t, p, i, l, r) && t2 == Merge(t, p, i, l, r)
    requires l in t2.nodes && t2.nodes[l].Internal? && t.nodes[l].Internal? && l in t2.span
    requires j < |t2.nodes[l].slots| && t2.span[l].level > 0
    ensures ChildOK(t2, l, t2.nodes[l].slots, j)
  {
    SiblingFacts(t, p, i, l, r);
    JoinedSlots(t, p, i, l, r);
    assert PageOK(t, l) && PageOK(t, r);
    ChildrenOf(t, l);
    ChildrenOf(t, r);
    var ls, rs := t.nodes[l].slots, t.nodes[r].slots;
    if j < |ls| {
      assert ChildOK(t, l, ls, j);
    } else {
      assert ChildOK(t, r, rs, j - |ls|);
      assert rs[j - |ls|].child in Children(t.nodes[r]);
    }
  }

  lemma MergeParentOK(t: Tree, p: PageId, i: nat, l: PageId, r: PageId, t2: Tree)
    requires Siblings(t, p, i, l, r) && t2 == Merge(t, p, i, l, r)
    ensures p in t2.span && InternalOK(t2, p, t2.nodes[p].slots)
  {
    SiblingFacts(t, p, i, l, r);
    assert PageOK(t, p);
    var ss, ss2 := t.nodes[p].slots, t2.nodes[p].slots;
    KeysAfterRemove(ss, t.span[p], i);
    forall j | 0 <= j < |ss2|
      ensures ChildOK(t2, p, ss2, j)
    {
      MergeParentChildOK(t, p, i, l, r, t2, j);
    }
  }

  // The slot of the merged page.
  lemma MergedSlotOK(t: Tree, p: PageId, i: nat, l: PageId, r: PageId, t2: Tree)
    requires Siblings(t, p, i, l, r) && t2 == Merge(t, p, i, l, r)
    requires p in t2.nodes && i - 1 < |t2.nodes[p].slots| && p in t2.span && t2.span[p].level > 0
    ensures ChildOK(t2, p, t2.nodes[p].slots, i - 1)
  {
    SiblingFacts(t, p, i, l, r);
    assert PageOK(t, p) && PageOK(t, r);
    ChildrenOf(t, p);
    if t.nodes[r].Internal? { ChildrenOf(t, r); }
    var ss := t.nodes[p].slots;
    assert t2.nodes[p].slots[i - 1] == ss[i - 1];
    assert ChildOK(t, p, ss, i) && ChildOK(t, p, ss, i - 1);
  }

  // The slots before it and behind it.
  lemma KeptSlotOK(t: Tree, p: PageId, i: nat, l: PageId, r: PageId, t2: Tree, j: nat)
    requires Siblings(t, p, i, l, r) && t2 == Merge(t, p, i, l, r) && j != i - 1
    requires p in t2.nodes && j < |t2.nodes[p].slots| && p in t2.span && t2.span[p].level > 0
    ensures ChildOK(t2, p, t2.nodes[p].slots, j)
  {
    SiblingFacts(t, p, i, l, r);
    assert PageOK(t, p) && PageOK(t, r);
    ChildrenOf(t, p);
    if t.nodes[r].Internal? { ChildrenOf(t, r); }
    var ss, k := t.nodes[p].slots, if j < i then j else j + 1;
    assert t2.nodes[p].slots[j] == ss[k];
    assert ChildOK(t, p, ss, k);
  }

  lemma MergeParentChildOK(t: Tree, p: PageId, i: nat, l: PageId, r: PageId, t2: Tree, j: nat)
    requires Siblings(t, p, i, l, r) && t2 == Merge(t, p, i, l, r)
    requires p in t2.nodes && j < |t2.nodes[p].slots| && p in t2.span && t2.span[p].level > 0
    ensures ChildOK(t2, p, t2.nodes[p].slots, j)
  {
    if j == i - 1 {
      MergedSlotOK(t, p, i, l, r, t2);
    } else {
      KeptSlotOK(t, p, i, l, r, t2, j);
    }
  }

  lemma MergeOtherOK(t: Tree, p: PageId, i: nat, l: PageId, r: PageId, t2: Tree, q: PageId)
    requires Siblings(t, p, i, l, r) && t2 == Merge(t, p, i, l, r)
    requires q in t.nodes && q != p && q != l && q != r && t2.root in t2.span
    ensures q in t2.span && q in t2.nodes
    ensures match t2.nodes[q]
            case Leaf(_, es, next) => LeafOK(t2, q, es, next)
            case Internal(_, ss) => InternalOK(t2, q, ss)
  {
    SiblingFacts(t, p, i, l, r);
    assert PageOK(t, q) && PageOK(t, r) && PageOK(t, p);
    if t.nodes[r].Internal? { ChildrenOf(t, r); }
    if t.nodes[q].Leaf? {
      if t.nodes[q].next == r {
        OnlyLeftLeadsTo(t, p, i, l, r, q);
      }
    } else {
      ChildrenOf(t, q);
      var ss := t.nodes[q].slots;
      forall j | 0 <= j < |ss|
        ensures ChildOK(t2, q, ss, j)
      {
        assert ChildOK(t, q, ss, j);
      }
    }
  }

  // Every page that stays is in a slot of the page its parent id names.
  lemma MergeParentIdsOK(t: Tree, p: PageId, i: nat, l: PageId, r: PageId, t2: Tree, q: PageId)
    requires Siblings(t, p, i, l, r) && t2 == Merge(t, p, i, l, r)
    requires q in t.nodes && q != r && t2.root in t2.span
    ensures q in t2.span && ParentOK(t2, q)
  {
    SiblingFacts(t, p, i, l, r);
    assert PageOK(t, q) && PageOK(t, r);
    if t.nodes[r].Internal? { ChildrenOf(t, r); }
    if q != t.root {
      var qq := t.nodes[q].parent;
      if qq == p {
        KeptSlot(t.nodes[p].slots, i, q);
      } else if qq == l || qq == r {
        JoinedSlots(t, p, i, l, r);
        JoinedChild(t.nodes[l].slots, t.nodes[r].slots, q);
        if qq == r {
          assert q == t.nodes[r].slots[IndexOf(t.nodes[r].slots, q)].child;
          assert q in Children(t.nodes[r]);
        } else {
          assert q !in Children(t.nodes[r]);
        }
      }
    }
  }

  lemma KeptSlot(ss: seq<Slot>, i: nat, c: PageId)
    requires i < |ss| && ss[i].child != c && IndexOf(ss, c) < |ss|
    ensures IndexOf(RemoveAt(ss, i), c) < |ss| - 1
  {
    var j := IndexOf(ss, c);
    var j2 := if j < i then j else j - 1;
    assert RemoveAt(ss, i)[j2] == ss[j];
    IndexOfPresent(RemoveAt(ss, i), j2);
  }

  lemma JoinedChild(ls: seq<Slot>, rs: seq<Slot>, c: PageId)
    ensures IndexOf(ls, c) < |ls| || IndexOf(rs, c) < |rs| ==> IndexOf(ls + rs, c) < |ls + rs|
  {
    var j := IndexOf(ls, c);
    var k := IndexOf(rs, c);
    if j < |ls| {
      assert (ls + rs)[j] == ls[j];
      IndexOfPresent(ls + rs, j);
    } else if k < |rs| {
      assert (ls + rs)[|ls| + k] == rs[k];
      IndexOfPresent(ls + rs, |ls| + k);
    }
  }

  lemma MergeWellFormed(t: Tree, p: PageId, i: nat, l: PageId, r: PageId)
    requires Siblings(t, p, i, l, r)
    ensures WellFormed(Merge(t, p, i, l, r))
  {
    var t2 := Merge(t, p, i, l, r);
    SiblingFacts(t, p, i, l, r);
    forall q | q in t2.nodes
      ensures PageOK(t2, q)
    {
      MergeParentIdsOK(t, p, i, l, r, t2, q);
      assert PageOK(t, q);
      if q == p {
        MergeParentOK(t, p, i, l, r, t2);
      } else if q == l {
        MergeLeftOK(t, p, i, l, r, t2);
      } else {
        MergeOtherOK(t, p, i, l, r, t2, q);
      }
    }
  }
}
