/**
 Splitting an overfull page: half of its pairs move to a fresh page on its right, and the
 first key that moved becomes a separator in the parent, or in a fresh root.
 */
module TreeSplit {
  import opened TreeTypes
  import opened TreeShape

  ghost function Children(n: Node): set<PageId> {
    if n.Leaf? then {} else set i | 0 <= i < |n.slots| :: n.slots[i].child
  }

  ghost function Reparent(nodes: map<PageId, Node>, cs: set<PageId>, p: PageId): map<PageId, Node> {
    map q | q in nodes :: if q in cs then nodes[q].WithParent(p) else nodes[q]
  }

  ghost function LowerHalf(n: Node, h: nat, fresh_: PageId): Node
    requires h <= n.Size()
  {
    if n.Leaf? then Leaf(n.parent, n.entries[..h], fresh_) else Internal(n.parent, n.slots[..h])
  }

  ghost function UpperHalf(n: Node, h: nat): Node
    requires h <= n.Size()
  {
    if n.Leaf? then Leaf(n.parent, n.entries[h..], n.next) else Internal(n.parent, n.slots[h..])
  }

  ghost function KeyAt(n: Node, i: nat): Key
    requires i < n.Size()
  {
    if n.Leaf? then n.entries[i].key else n.slots[i].key
  }

  // Page o keeps its first h pairs, the fresh page n takes the others; n has no parent slot yet.
  ghost function Divide(t: Tree, o: PageId, n: PageId, h: nat): Tree
    requires o in t.nodes && o in t.span && 0 < h < t.nodes[o].Size()
  {
    var key := KeyAt(t.nodes[o], h);
    var up := UpperHalf(t.nodes[o], h);
    Tree(Reparent(t.nodes, Children(up), n)[o := LowerHalf(t.nodes[o], h, n)][n := up],
         t.root,
         t.span[o := t.span[o].(hi := At(key))][n := t.span[o].(lo := At(key))])
  }

  ghost function InsertAfter(ss: seq<Slot>, i: nat, s: Slot): seq<Slot>
    requires i < |ss|
  {
    ss[..i + 1] + [s] + ss[i + 1..]
  }

  ghost function LinkParent(t: Tree, o: PageId, key: Key, n: PageId): Tree
    requires o in t.nodes && t.nodes[o].parent in t.nodes && HasChild(t.nodes[t.nodes[o].parent], o)
  {
    var p := t.nodes[o].parent;
    var pn := t.nodes[p];
    t.(nodes := t.nodes[p := Internal(pn.parent, InsertAfter(pn.slots, IndexOf(pn.slots, o), Slot(key, n)))])
  }

  ghost function LinkRoot(t: Tree, o: PageId, key: Key, n: PageId, r: PageId, unset: Key): Tree
    requires o in t.nodes && n in t.nodes && o in t.span
  {
    Tree(t.nodes[o := t.nodes[o].WithParent(r)][n := t.nodes[n].WithParent(r)]
           [r := Internal(INVALID_PAGE_ID, [Slot(unset, o), Slot(key, n)])],
         r,
         t.span[r := Span(Open, Open, t.span[o].level + 1)])
  }

  // The overfull page and the place it is cut.
  ghost predicate CanDivide(t: Tree, o: PageId, n: PageId, h: nat) {
    && WellFormed(t) && o in t.nodes && 0 < h < t.nodes[o].Size()
    && n !in t.nodes && n != INVALID_PAGE_ID
  }

  // The first key that moves is a legal separator of the divided page's span.
  lemma CutInside(t: Tree, o: PageId, h: nat)
    requires WellFormed(t) && o in t.nodes && 0 < h < t.nodes[o].Size()
    ensures Inside(t.span[o], KeyAt(t.nodes[o], h))
  {
    assert PageOK(t, o);
    if t.nodes[o].Leaf? {
      var es := t.nodes[o].entries;
      assert es[0].key < es[h].key && Covers(t.span[o], es[0].key) && Covers(t.span[o], es[h].key);
    }
  }

  lemma ChildrenOf(t: Tree, q: PageId)
    requires WellFormed(t) && q in t.nodes && t.nodes[q].Internal?
    ensures forall i :: 0 <= i < |t.nodes[q].slots| ==>
              var c := t.nodes[q].slots[i].child;
              c in t.nodes && t.nodes[c].parent == q && t.span[c].level + 1 == t.span[q].level
    ensures forall i, j :: 0 <= i < j < |t.nodes[q].slots| ==> t.nodes[q].slots[i].child != t.nodes[q].slots[j].child
  {
    assert PageOK(t, q);
    var ss := t.nodes[q].slots;
    forall i | 0 <= i < |ss|
      ensures var c := ss[i].child;
              c in t.nodes && t.nodes[c].parent == q && t.span[c].level + 1 == t.span[q].level
              && t.span[c].lo == SlotLo(ss, t.span[q], i)
    {
      assert ChildOK(t, q, ss, i);
    }
    forall i, j | 0 <= i < j < |ss|
      ensures ss[i].child != ss[j].child
    {
      assert SlotLo(ss, t.span[q], i) != SlotLo(ss, t.span[q], j);
    }
  }

  lemma IndexOfUnique(ss: seq<Slot>, i: nat)
    requires i < |ss| && forall a, b :: 0 <= a < b < |ss| ==> ss[a].child != ss[b].child
    ensures IndexOf(ss, ss[i].child) == i
  {}

  lemma IndexOfPresent(ss: seq<Slot>, i: nat)
    requires i < |ss|
    ensures IndexOf(ss, ss[i].child) <= i
  {}

  // What the split leaves behind: o and n side by side under page p, the moved children
  // under n, every other page as it was.
  ghost predicate SplitResult(t: Tree, o: PageId, n: PageId, h: nat, p: PageId, t2: Tree)
    requires CanDivide(t, o, n, h)
  {
    var key, moved := KeyAt(t.nodes[o], h), Children(UpperHalf(t.nodes[o], h));
    && p !in {o, n, INVALID_PAGE_ID}
    && t2.nodes.Keys == t.nodes.Keys + {n, p} == t2.span.Keys
    && t2.root in t2.nodes && t2.root != o && t2.root != n
    && t2.nodes[o] == LowerHalf(t.nodes[o], h, n).WithParent(p)
    && t2.nodes[n] == UpperHalf(t.nodes[o], h).WithParent(p)
    && t2.span[o] == t.span[o].(hi := At(key))
    && t2.span[n] == t.span[o].(lo := At(key))
    && HasChild(t2.nodes[p], o) && HasChild(t2.nodes[p], n)
    && t2.span[p].level == t.span[o].level + 1 <= t2.span[t2.root].level
    && (p in t.nodes ==> t.nodes[p].Internal? && t2.span[p] == t.span[p] && t2.nodes[p].parent == t.nodes[p].parent)
    && (forall q :: q in t.nodes && q != o && q != p ==>
          && t2.span[q] == t.span[q]
          && t2.nodes[q] == if q in moved then t.nodes[q].WithParent(n) else t.nodes[q])
  }

  // --- the separators of the two halves, and of a parent that gains one ---

  lemma KeysOfHalves(ss: seq<Slot>, s: Span, h: nat)
    requires KeysOK(ss, s) && 0 < h < |ss|
    ensures KeysOK(ss[..h], s.(hi := At(ss[h].key)))
    ensures KeysOK(ss[h..], s.(lo := At(ss[h].key)))
  {}

  lemma KeysAfterInsert(ss: seq<Slot>, s: Span, i: nat, x: Slot)
    requires KeysOK(ss, s) && i < |ss|
    requires Inside(Span(SlotLo(ss, s, i), SlotHi(ss, s, i), 0), x.key)
    ensures KeysOK(InsertAfter(ss, i, x), s)
  {
    var ss2 := InsertAfter(ss, i, x);
    forall a, b | 1 <= a < b < |ss2|
      ensures ss2[a].key < ss2[b].key
    {
      assert ss2[a] == if a <= i then ss[a] else if a == i + 1 then x else ss[a - 1];
      assert ss2[b] == if b <= i then ss[b] else if b == i + 1 then x else ss[b - 1];
    }
    forall a | 1 <= a < |ss2|
      ensures Inside(s, ss2[a].key)
    {
      assert ss2[a] == if a <= i then ss[a] else if a == i + 1 then x else ss[a - 1];
      assert i > 0 ==> Inside(s, ss[i].key);
      assert i + 1 < |ss| ==> Inside(s, ss[i + 1].key);
    }
  }

  lemma SplitHalfChildOK(t: Tree, o: PageId, n: PageId, h: nat, p: PageId, t2: Tree, q: PageId, j: nat)
    requires CanDivide(t, o, n, h) && SplitResult(t, o, n, h, p, t2)
    requires (q == o || q == n) && t.nodes[o].Internal? && j < |t2.nodes[q].slots|
    requires t2.span[q].level > 0
    ensures ChildOK(t2, q, t2.nodes[q].slots, j)
  {
    assert PageOK(t, o);
    ChildrenOf(t, o);
    var ss, ss2 := t.nodes[o].slots, t2.nodes[q].slots;
    var d := if q == o then j else j + h;
    assert ss2[j] == ss[d];
    assert ChildOK(t, o, ss, d);
    var c := ss[d].child;
    var up := UpperHalf(t.nodes[o], h);
    if q == n {
      assert up.slots[j].child == c;
    } else {
      assert c !in Children(up);
    }
  }

  lemma SplitHalvesOK(t: Tree, o: PageId, n: PageId, h: nat, p: PageId, t2: Tree, q: PageId)
    requires CanDivide(t, o, n, h) && SplitResult(t, o, n, h, p, t2)
    requires q == o || q == n
    ensures PageOK(t2, q)
  {
    assert PageOK(t, o);
    CutInside(t, o, h);
    if t.nodes[o].Leaf? {
      var next := t.nodes[o].next;
      assert next != INVALID_PAGE_ID ==> next != p && next != o;
    } else {
      KeysOfHalves(t.nodes[o].slots, t.span[o], h);
      forall j | 0 <= j < |t2.nodes[q].slots|
        ensures ChildOK(t2, q, t2.nodes[q].slots, j)
      {
        SplitHalfChildOK(t, o, n, h, p, t2, q, j);
      }
    }
  }

  lemma SplitOtherOK(t: Tree, o: PageId, n: PageId, h: nat, p: PageId, t2: Tree, q: PageId)
    requires CanDivide(t, o, n, h) && SplitResult(t, o, n, h, p, t2)
    requires q in t.nodes && q != o && q != p
    requires t.root == o || t2.root == t.root
    requires p in t.nodes ==> forall c :: HasChild(t.nodes[p], c) ==> HasChild(t2.nodes[p], c)
    requires t.nodes[o].parent == p || (t.root == o && p !in t.nodes)
    ensures PageOK(t2, q)
  {
    assert PageOK(t, q) && PageOK(t, o);
    if t.nodes[q].Internal? {
      var ss := t.nodes[q].slots;
      forall j | 0 <= j < |ss| ensures ChildOK(t2, q, ss, j) {
        SplitOtherChildOK(t, o, n, h, p, t2, q, j);
      }
    }
    SplitOtherParentOK(t, o, n, h, p, t2, q);
  }

  lemma SplitOtherChildOK(t: Tree, o: PageId, n: PageId, h: nat, p: PageId, t2: Tree, q: PageId, j: nat)
    requires CanDivide(t, o, n, h) && SplitResult(t, o, n, h, p, t2)
    requires q in t.nodes && q != o && q != p && t.nodes[q].Internal? && j < |t.nodes[q].slots|
    requires t.nodes[o].parent == p || (t.root == o && p !in t.nodes)
    ensures q in t2.span && t2.span[q].level > 0 && ChildOK(t2, q, t.nodes[q].slots, j)
  {
    assert PageOK(t, q) && PageOK(t, o);
    if t.nodes[o].Internal? { ChildrenOf(t, o); }
    ChildrenOf(t, q);
    assert ChildOK(t, q, t.nodes[q].slots, j);
  }

  lemma SplitOtherParentOK(t: Tree, o: PageId, n: PageId, h: nat, p: PageId, t2: Tree, q: PageId)
    requires CanDivide(t, o, n, h) && SplitResult(t, o, n, h, p, t2)
    requires q in t.nodes && q != o && q != p
    requires t.root == o || t2.root == t.root
    requires p in t.nodes ==> forall c :: HasChild(t.nodes[p], c) ==> HasChild(t2.nodes[p], c)
    requires t.nodes[o].parent == p || (t.root == o && p !in t.nodes)
    ensures ParentOK(t2, q)
  {
    assert PageOK(t, q) && PageOK(t, o);
    if q != t.root && t.nodes[q].parent == o {
      var ss := t.nodes[o].slots;
      var j := IndexOf(ss, q);
      ChildrenOf(t, o);
      var up := UpperHalf(t.nodes[o], h);
      if j < h {
        assert ss[..h][j].child == q;
        IndexOfPresent(ss[..h], j);
        assert q !in Children(up);
      } else {
        assert up.slots[j - h].child == q;
        IndexOfPresent(up.slots, j - h);
        assert q in Children(up);
      }
    } else {
      if t.nodes[o].Internal? { ChildrenOf(t, o); }
    }
  }

  ghost predicate GainsSlot(t: Tree, o: PageId, n: PageId, key: Key, p: PageId, t2: Tree)
    requires o in t.nodes && p in t2.nodes
  {
    && p in t.nodes && p == t.nodes[o].parent && HasChild(t.nodes[p], o)
    && t2.nodes[p] == Internal(t.nodes[p].parent,
                               InsertAfter(t.nodes[p].slots, IndexOf(t.nodes[p].slots, o), Slot(key, n)))
  }

  // The parent's other children, before and behind the new slot.
  lemma SplitBeforeOK(t: Tree, o: PageId, n: PageId, h: nat, p: PageId, t2: Tree, j: nat)
    requires CanDivide(t, o, n, h) && SplitResult(t, o, n, h, p, t2)
    requires GainsSlot(t, o, n, KeyAt(t.nodes[o], h), p, t2) && j < |t2.nodes[p].slots|
    requires j < IndexOf(t.nodes[p].slots, o)
    ensures ChildOK(t2, p, t2.nodes[p].slots, j)
  {
    assert PageOK(t, p) && PageOK(t, o);
    ChildrenOf(t, p);
    if t.nodes[o].Internal? { ChildrenOf(t, o); }
    var ss, ss2 := t.nodes[p].slots, t2.nodes[p].slots;
    assert ss2[j] == ss[j];
    assert ChildOK(t, p, ss, j);
  }

  lemma SplitBehindOK(t: Tree, o: PageId, n: PageId, h: nat, p: PageId, t2: Tree, j: nat)
    requires CanDivide(t, o, n, h) && SplitResult(t, o, n, h, p, t2)
    requires GainsSlot(t, o, n, KeyAt(t.nodes[o], h), p, t2) && j < |t2.nodes[p].slots|
    requires j > IndexOf(t.nodes[p].slots, o) + 1
    ensures ChildOK(t2, p, t2.nodes[p].slots, j)
  {
    assert PageOK(t, p) && PageOK(t, o);
    ChildrenOf(t, p);
    if t.nodes[o].Internal? { ChildrenOf(t, o); }
    var ss, ss2 := t.nodes[p].slots, t2.nodes[p].slots;
    assert ss2[j] == ss[j - 1];
    assert ChildOK(t, p, ss, j - 1);
  }

  // The two halves.
  lemma SplitLowerOK(t: Tree, o: PageId, n: PageId, h: nat, p: PageId, t2: Tree, j: nat)
    requires CanDivide(t, o, n, h) && SplitResult(t, o, n, h, p, t2)
    requires GainsSlot(t, o, n, KeyAt(t.nodes[o], h), p, t2) && j < |t2.nodes[p].slots|
    requires j == IndexOf(t.nodes[p].slots, o)
    ensures ChildOK(t2, p, t2.nodes[p].slots, j)
  {
    assert PageOK(t, p) && PageOK(t, o);
    ChildrenOf(t, p);
    if t.nodes[o].Internal? { ChildrenOf(t, o); }
    assert ChildOK(t, p, t.nodes[p].slots, j);
  }

  lemma SplitUpperOK(t: Tree, o: PageId, n: PageId, h: nat, p: PageId, t2: Tree, j: nat)
    requires CanDivide(t, o, n, h) && SplitResult(t, o, n, h, p, t2)
    requires GainsSlot(t, o, n, KeyAt(t.nodes[o], h), p, t2) && j < |t2.nodes[p].slots|
    requires j == IndexOf(t.nodes[p].slots, o) + 1
    ensures ChildOK(t2, p, t2.nodes[p].slots, j)
  {
    assert PageOK(t, p) && PageOK(t, o);
    ChildrenOf(t, p);
    if t.nodes[o].Internal? { ChildrenOf(t, o); }
    assert ChildOK(t, p, t.nodes[p].slots, j - 1);
  }

  lemma SplitParentChildOK(t: Tree, o: PageId, n: PageId, h: nat, p: PageId, t2: Tree, j: nat)
    requires CanDivide(t, o, n, h) && SplitResult(t, o, n, h, p, t2)
    requires GainsSlot(t, o, n, KeyAt(t.nodes[o], h), p, t2) && j < |t2.nodes[p].slots|
    ensures ChildOK(t2, p, t2.nodes[p].slots, j)
  {
    assert PageOK(t, p);
    var i := IndexOf(t.nodes[p].slots, o);
    if j == i {
      SplitLowerOK(t, o, n, h, p, t2, j);
    } else if j == i + 1 {
      SplitUpperOK(t, o, n, h, p, t2, j);
    } else if j < i {
      SplitBeforeOK(t, o, n, h, p, t2, j);
    } else {
      SplitBehindOK(t, o, n, h, p, t2, j);
    }
  }

  lemma SplitParentOK(t: Tree, o: PageId, n: PageId, h: nat, p: PageId, t2: Tree)
    requires CanDivide(t, o, n, h) && SplitResult(t, o, n, h, p, t2)
    requires GainsSlot(t, o, n, KeyAt(t.nodes[o], h), p, t2)
    ensures InternalOK(t2, p, t2.nodes[p].slots)
  {
    assert PageOK(t, p) && PageOK(t, o);
    CutInside(t, o, h);
    var ss, ss2 := t.nodes[p].slots, t2.nodes[p].slots;
    var i := IndexOf(ss, o);
    assert ChildOK(t, p, ss, i);
    KeysAfterInsert(ss, t.span[p], i, Slot(KeyAt(t.nodes[o], h), n));
    forall j | 0 <= j < |ss2|
      ensures ChildOK(t2, p, ss2, j)
    {
      SplitParentChildOK(t, o, n, h, p, t2, j);
    }
  }

  // --- the whole split, under the old parent or under a fresh root ---

  lemma ParentKeepsChildren(ss: seq<Slot>, i: nat, x: Slot, c: PageId)
    requires i < |ss| && IndexOf(ss, c) < |ss|
    ensures IndexOf(InsertAfter(ss, i, x), c) < |ss| + 1
  {
    var j := IndexOf(ss, c);
    var ss2 := InsertAfter(ss, i, x);
    assert ss2[if j <= i then j else j + 1] == ss[j];
    IndexOfPresent(ss2, if j <= i then j else j + 1);
  }

  // Dividing a page leaves its parent page alone.
  lemma DivideKeepsParent(t: Tree, o: PageId, n: PageId, h: nat)
    requires CanDivide(t, o, n, h) && o != t.root
    ensures var p, t1 := t.nodes[o].parent, Divide(t, o, n, h);
            && p in t.nodes && HasChild(t.nodes[p], o) && p != o
            && t1.nodes[o].parent == p && p in t1.nodes && t1.nodes[p] == t.nodes[p]
  {
    assert PageOK(t, o);
    if t.nodes[o].Internal? { ChildrenOf(t, o); }
  }

  lemma LinkedSplitResult(t: Tree, o: PageId, n: PageId, h: nat, p: PageId, t2: Tree)
    requires CanDivide(t, o, n, h) && o != t.root && p == t.nodes[o].parent
    requires p in t.nodes && HasChild(t.nodes[p], o)
    requires var t1 := Divide(t, o, n, h);
             && p in t1.nodes && t1.nodes[p] == t.nodes[p] && t1.nodes[o].parent == p
             && t2 == LinkParent(t1, o, KeyAt(t.nodes[o], h), n)
    ensures SplitResult(t, o, n, h, p, t2) && GainsSlot(t, o, n, KeyAt(t.nodes[o], h), p, t2)
    ensures forall c :: HasChild(t.nodes[p], c) ==> HasChild(t2.nodes[p], c)
  {
    assert PageOK(t, o);
    var ss, ss2, x := t.nodes[p].slots, t2.nodes[p].slots, Slot(KeyAt(t.nodes[o], h), n);
    var i := IndexOf(ss, o);
    assert ss2[i + 1].child == n;
    IndexOfPresent(ss2, i + 1);
    forall c | HasChild(t.nodes[p], c)
      ensures HasChild(t2.nodes[p], c)
    {
      ParentKeepsChildren(ss, i, x, c);
    }
  }

  lemma SplitUnderParent(t: Tree, o: PageId, n: PageId, h: nat, t2: Tree)
    requires CanDivide(t, o, n, h) && o != t.root
    requires var t1 := Divide(t, o, n, h);
             && t1.nodes[o].parent in t1.nodes && HasChild(t1.nodes[t1.nodes[o].parent], o)
             && t2 == LinkParent(t1, o, KeyAt(t.nodes[o], h), n)
    ensures WellFormed(t2)
  {
    DivideKeepsParent(t, o, n, h);
    var p := t.nodes[o].parent;
    LinkedSplitResult(t, o, n, h, p, t2);
    forall q | q in t2.nodes
      ensures PageOK(t2, q)
    {
      if q == p {
        SplitParentOK(t, o, n, h, p, t2);
        assert PageOK(t, p);
      } else if q == o || q == n {
        SplitHalvesOK(t, o, n, h, p, t2, q);
      } else {
        SplitOtherOK(t, o, n, h, p, t2, q);
      }
    }
  }

  lemma LinkedRootResult(t: Tree, o: PageId, n: PageId, h: nat, r: PageId, unset: Key)
    requires CanDivide(t, o, n, h) && o == t.root
    requires r !in t.nodes && r != n && r != INVALID_PAGE_ID
    ensures SplitResult(t, o, n, h, r, LinkRoot(Divide(t, o, n, h), o, KeyAt(t.nodes[o], h), n, r, unset))
  {
    assert PageOK(t, o);
    if t.nodes[o].Internal? { ChildrenOf(t, o); }
    var t2 := LinkRoot(Divide(t, o, n, h), o, KeyAt(t.nodes[o], h), n, r, unset);
    IndexOfPresent(t2.nodes[r].slots, 0);
    IndexOfPresent(t2.nodes[r].slots, 1);
  }

  lemma SplitUnderRoot(t: Tree, o: PageId, n: PageId, h: nat, r: PageId, unset: Key)
    requires CanDivide(t, o, n, h) && o == t.root
    requires r !in t.nodes && r != n && r != INVALID_PAGE_ID
    ensures WellFormed(LinkRoot(Divide(t, o, n, h), o, KeyAt(t.nodes[o], h), n, r, unset))
  {
    assert PageOK(t, o);
    var t2 := LinkRoot(Divide(t, o, n, h), o, KeyAt(t.nodes[o], h), n, r, unset);
    LinkedRootResult(t, o, n, h, r, unset);
    forall q | q in t2.nodes
      ensures PageOK(t2, q)
    {
      if q == r {
        CutInside(t, o, h);
        assert ChildOK(t2, r, t2.nodes[r].slots, 0) && ChildOK(t2, r, t2.nodes[r].slots, 1);
      } else if q == o || q == n {
        SplitHalvesOK(t, o, n, h, r, t2, q);
      } else {
        SplitOtherOK(t, o, n, h, r, t2, q);
      }
    }
  }

  // --- sizes and contents ---

  // Both halves of a page that overflowed by one are legal pages, whichever kind it is.
  lemma SplitSizes(t: Tree, lim: Limits, o: PageId, n: PageId, h: nat, p: PageId, t2: Tree)
    requires CanDivide(t, o, n, h) && SplitResult(t, o, n, h, p, t2) && lim.Valid()
    requires SizesOK(t, lim, o)
    requires t.nodes[o].Size() == lim.MaxSize(t.nodes[o]) + 1 && h == (lim.MaxSize(t.nodes[o]) + 1) / 2
    ensures SizesOK(t2, lim, p)
  {
    forall q | q in t2.nodes && q != p
      ensures lim.SizeOK(t2.nodes[q])
    {
      if q != o && q != n {
        assert lim.SizeOK(t.nodes[q]);
        var moved := Children(UpperHalf(t.nodes[o], h));
        if q in moved {
          ChildrenOf(t, o);
        }
      }
    }
  }

  // The halves are even, or the new page has one pair more.
  lemma SplitEven(t: Tree, lim: Limits, o: PageId, n: PageId, h: nat, p: PageId, t2: Tree)
    requires CanDivide(t, o, n, h) && SplitResult(t, o, n, h, p, t2)
    requires t.nodes[o].Size() == lim.MaxSize(t.nodes[o]) + 1 && h == (lim.MaxSize(t.nodes[o]) + 1) / 2
    ensures o in t2.nodes && n in t2.nodes && t2.nodes[o].Size() <= t2.nodes[n].Size() <= t2.nodes[o].Size() + 1
  {
    var size := t.nodes[o].Size();
    assert 2 * (size / 2) <= size <= 2 * (size / 2) + 1;
  }

  lemma SplitRepresents(t: Tree, o: PageId, n: PageId, h: nat, p: PageId, t2: Tree, m: map<Key, RID>)
    requires CanDivide(t, o, n, h) && SplitResult(t, o, n, h, p, t2)
    requires Represents(t, m)
    ensures Represents(t2, m)
  {
    forall q, e | HoldsEntry(t2, q, e)
      ensures e.key in m && m[e.key] == e.value
    {
      assert HoldsEntry(t, if q == n then o else q, e);
    }
    forall k | k in m
      ensures exists q :: HoldsEntry(t2, q, Entry(k, m[k]))
    {
      var e := Entry(k, m[k]);
      var q :| HoldsEntry(t, q, e);
      if q == o {
        var es := t.nodes[o].entries;
        var i :| 0 <= i < |es| && es[i] == e;
        assert HoldsEntry(t2, if i < h then o else n, e) by {
          assert i < h ==> es[..h][i] == e;
          assert i >= h ==> es[h..][i - h] == e;
        }
      } else {
        assert HoldsEntry(t2, q, e);
      }
    }
  }
}
