/**
 The B+ tree index itself: pages are reached by id, operations record the pages they latch
 and the pages they empty, and splits, merges and borrows climb from the leaf by parent id.
 */
module BPlusTreeIndex {
  import opened TreeTypes
  import opened TreeShape
  import opened TreeSplit
  import opened TreeMerge
  import opened TreeBorrow
  import opened TreeEntries
  import opened TreeLatch
  import opened TreeInsert
  import opened TreeRemove
  import opened TreePages

  class BPlusTree {
    const lim: Limits
    var rootPageId: PageId

    // the buffer pool, seen as the pages by id, and the disk's page id counter
    var leaves: map<PageId, LeafPage>
    var internals: map<PageId, InternalPage>
    var nextPageId: PageId

    // the transaction: pages latched so far, pages to delete at the end, the root id lock
    var pageSet: seq<PageId>
    var deletedSet: set<PageId>
    var rootLocked: bool

    // the page objects
    ghost var pages: set<object>

    // the tree stored in the pages that are not waiting for deletion, and the map it stands for
    ghost var tree: Tree
    ghost var contents: map<Key, RID>

    // what the current operation released on its way down
    ghost var freed: set<PageId>
    ghost var rootFreed: bool

    // Every page is one object under its own id.
    ghost predicate Pool()
      reads this`leaves, this`internals, this`nextPageId, this`pages
    {
      && lim.Valid()
      && this !in pages
      && leaves.Keys !! internals.Keys
      && nextPageId >= 1
      && (forall p :: p in leaves ==>
            1 <= p < nextPageId && leaves[p] in pages && leaves[p].pageId == p && leaves[p].maxSize == lim.leafMax)
      && (forall p :: p in internals ==>
            1 <= p < nextPageId && internals[p] in pages && internals[p].pageId == p &&
              internals[p].maxSize == lim.internalMax)
    }

    // The pages that are not waiting for deletion are what the tree says.
    ghost predicate Stored()
      reads this`leaves, this`internals, this`nextPageId, this`deletedSet, this`rootPageId, this`tree, this`pages, pages
    {
      && Pool()
      && deletedSet <= leaves.Keys + internals.Keys
      && tree.nodes.Keys == leaves.Keys + internals.Keys - deletedSet
      && tree.root == rootPageId
      && (forall p :: p in leaves ==> leaves[p].Valid() && (p in tree.nodes ==> tree.nodes[p] == leaves[p].View()))
      && (forall p :: p in internals ==>
            internals[p].Valid() && (p in tree.nodes ==> tree.nodes[p] == internals[p].View()))
    }

    // As Stored, but the open pages may have moved on.
    ghost predicate StoredBut(open: set<PageId>)
      reads this`leaves, this`internals, this`nextPageId, this`deletedSet, this`rootPageId, this`tree, this`pages, pages
    {
      && Pool()
      && deletedSet <= leaves.Keys + internals.Keys
      && tree.nodes.Keys == leaves.Keys + internals.Keys - deletedSet
      && tree.root == rootPageId
      && (forall p :: p in leaves ==> leaves[p].Valid() && (p in tree.nodes && p !in open ==>
           tree.nodes[p] == leaves[p].View()))
      && (forall p :: p in internals ==>
            internals[p].Valid() && (p in tree.nodes && p !in open ==> tree.nodes[p] == internals[p].View()))
    }

    // What page p shows.
    ghost predicate Shows(p: PageId, n: Node)
      reads this`leaves, this`internals, this`pages, pages
    {
      && (p in leaves ==> leaves[p] in pages && leaves[p].Valid() && leaves[p].View() == n)
      && (p in internals ==> internals[p] in pages && internals[p].Valid() && internals[p].View() == n)
    }

    // The tree follows two pages and their parent.
    ghost method Adopt(l: PageId, r: PageId, p: PageId, a: Node, b: Node, c: Node)
      requires StoredBut({l, r, p}) && l != r && p != l && p != r
      requires l in tree.nodes && r in tree.nodes && p in tree.nodes && Shows(l, a) && Shows(r, b) && Shows(p, c)
      modifies this`tree
      ensures Stored() && tree == Put(Put(Put(old(tree), l, a), r, b), p, c)
    {
      tree := Put(Put(Put(tree, l, a), r, b), p, c);
    }

    // Between operations.
    ghost predicate Valid()
      reads this, pages
    {
      && Stored()
      && pageSet == [] && deletedSet == {} && !rootLocked
      && if rootPageId == INVALID_PAGE_ID then tree.nodes == map[] && contents == map[]
         else Sound(tree, lim, contents)
    }

    constructor (leafMax: nat, internalMax: nat)
      requires Limits(leafMax, internalMax).Valid()
      ensures Valid() && contents == map[] && rootPageId == INVALID_PAGE_ID
      ensures fresh(pages) && lim == Limits(leafMax, internalMax)
    {
      lim := Limits(leafMax, internalMax);
      rootPageId := INVALID_PAGE_ID;
      leaves, internals, nextPageId := map[], map[], 1;
      pageSet, deletedSet, rootLocked := [], {}, false;
      pages := {};
      tree, contents := Tree(map[], INVALID_PAGE_ID, map[]), map[];
      freed, rootFreed := {}, false;
    }

    // Page contents may have changed, and the tree they stand for, but nothing else.
    twostate predicate OnlyPages()
      reads this
    {
      && leaves == old(leaves) && internals == old(internals) && pages == old(pages)
      && nextPageId == old(nextPageId) && rootPageId == old(rootPageId)
      && pageSet == old(pageSet) && deletedSet == old(deletedSet) && rootLocked == old(rootLocked)
      && contents == old(contents) && freed == old(freed) && rootFreed == old(rootFreed)
    }

    // Page objects are only ever added, and those are new.
    twostate predicate NewPages()
      reads this
    {
      old(pages) <= pages && forall x :: x in pages ==> x in old(pages) || fresh(x)
    }

    // --- single page updates ---

    method InsertRecord(p: PageId, key: Key, value: RID) returns (size: nat)
      requires Stored() && p in leaves && p in tree.nodes
      requires SortedEntries(tree.nodes[p].entries) && tree.nodes[p].Size() <= lim.leafMax
      modifies this`tree, leaves[p]
      ensures Stored() && OnlyPages()
      ensures tree == SetEntries(old(tree), p, InsertEntry(old(tree).nodes[p].entries, Entry(key, value)))
      ensures size == tree.nodes[p].Size()
    {
      size := leaves[p].Insert(key, value);
      tree := SetEntries(tree, p, InsertEntry(tree.nodes[p].entries, Entry(key, value)));
    }

    method RemoveRecord(p: PageId, key: Key) returns (size: nat)
      requires Stored() && p in leaves && p in tree.nodes
      requires SortedEntries(tree.nodes[p].entries)
      modifies this`tree, leaves[p]
      ensures Stored() && OnlyPages()
      ensures tree == SetEntries(old(tree), p, RemoveKey(old(tree).nodes[p].entries, key))
      ensures size == tree.nodes[p].Size()
    {
      size := leaves[p].RemoveAndDeleteRecord(key);
      tree := SetEntries(tree, p, RemoveKey(tree.nodes[p].entries, key));
    }

    method SetLeafParent(c: PageId, p: PageId)
      requires Stored() && c in tree.nodes && c in leaves
      modifies this`tree, leaves[c]
      ensures Stored() && OnlyPages()
      ensures tree == Put(old(tree), c, old(tree).nodes[c].WithParent(p))
    {
      leaves[c].parent := p;
      tree := Put(tree, c, tree.nodes[c].WithParent(p));
    }

    method SetInternalParent(c: PageId, p: PageId)
      requires Stored() && c in tree.nodes && c in internals
      modifies this`tree, internals[c]
      ensures Stored() && OnlyPages()
      ensures tree == Put(old(tree), c, old(tree).nodes[c].WithParent(p))
    {
      internals[c].parent := p;
      tree := Put(tree, c, tree.nodes[c].WithParent(p));
    }

    method SetParent(c: PageId, p: PageId)
      requires Stored() && c in tree.nodes
      modifies this`tree, pages
      ensures Stored() && OnlyPages()
      ensures tree == Put(old(tree), c, old(tree).nodes[c].WithParent(p))
    {
      if c in leaves {
        SetLeafParent(c, p);
      } else {
        SetInternalParent(c, p);
      }
    }

    // Writes the parent id into each of the given children.
    method SetParents(cs: seq<Slot>, p: PageId)
      requires Stored() && forall i :: 0 <= i < |cs| ==> cs[i].child in tree.nodes
      modifies this`tree, pages
      ensures Stored() && OnlyPages()
      ensures tree == old(tree).(nodes := Reparent(old(tree).nodes, Children(Internal(0, cs)), p))
    {
      ghost var before := tree.nodes;
      var i := 0;
      assert Reparent(before, {}, p) == before;
      while i < |cs|
        invariant 0 <= i <= |cs| && Stored() && OnlyPages()
        invariant tree == old(tree).(nodes := Reparent(before, Children(Internal(0, cs[..i])), p))
      {
        SetParent(cs[i].child, p);
        ReparentStep(before, cs, i, p);
        i := i + 1;
      }
      assert cs[..i] == cs;
    }

    static lemma ReparentStep(nodes: map<PageId, Node>, cs: seq<Slot>, i: nat, p: PageId)
      requires i < |cs| && cs[i].child in nodes
      ensures var a := Reparent(nodes, Children(Internal(0, cs[..i])), p);
              Reparent(nodes, Children(Internal(0, cs[..i + 1])), p) == a[cs[i].child := a[cs[i].child].WithParent(p)]
    {
      ChildrenGrow(cs, i);
    }

    static lemma ChildrenGrow(cs: seq<Slot>, i: nat)
      requires i < |cs|
      ensures Children(Internal(0, cs[..i + 1])) == Children(Internal(0, cs[..i])) + {cs[i].child}
    {
      var a, b := Internal(0, cs[..i + 1]), Internal(0, cs[..i]);
      forall c | c in Children(a)
        ensures c in Children(b) + {cs[i].child}
      {
        var j :| 0 <= j < |a.slots| && a.slots[j].child == c;
        assert j < i ==> b.slots[j].child == c;
      }
      forall c | c in Children(b) + {cs[i].child}
        ensures c in Children(a)
      {
        if c == cs[i].child {
          assert a.slots[i].child == c;
        } else {
          var j :| 0 <= j < |b.slots| && b.slots[j].child == c;
          assert a.slots[j].child == c;
        }
      }
    }

    // --- new pages ---

    method NewLeafPage(parent: PageId) returns (n: PageId)
      requires Stored()
      modifies this`leaves, this`pages, this`nextPageId, this`tree
      ensures Stored() && n == old(nextPageId) && nextPageId == n + 1
      ensures n !in old(tree).nodes && n in leaves && fresh(leaves[n])
      ensures leaves == old(leaves)[n := leaves[n]] && pages == old(pages) + {leaves[n]}
      ensures tree == Put(old(tree), n, Leaf(parent, [], INVALID_PAGE_ID))
    {
      n := nextPageId;
      nextPageId := nextPageId + 1;
      var page := new LeafPage.Init(n, parent, lim.leafMax);
      leaves := leaves[n := page];
      pages := pages + {page};
      tree := Put(tree, n, Leaf(parent, [], INVALID_PAGE_ID));
    }

    method NewInternalPage(parent: PageId) returns (n: PageId)
      requires Stored()
      modifies this`internals, this`pages, this`nextPageId, this`tree
      ensures Stored() && n == old(nextPageId) && nextPageId == n + 1
      ensures n !in old(tree).nodes && n in internals && fresh(internals[n])
      ensures internals == old(internals)[n := internals[n]] && pages == old(pages) + {internals[n]}
      ensures tree == Put(old(tree), n, Internal(parent, []))
    {
      n := nextPageId;
      nextPageId := nextPageId + 1;
      var page := new InternalPage.Init(n, parent, lim.internalMax);
      internals := internals[n := page];
      pages := pages + {page};
      tree := Put(tree, n, Internal(parent, []));
    }

    // --- moves between pages ---

    method MoveHalfOfLeaf(o: PageId, n: PageId)
      requires Stored() && o in leaves && n in leaves && o != n && o in tree.nodes && n in tree.nodes
      requires tree.nodes[o].Size() == lim.leafMax + 1
      modifies this`tree, leaves[o], leaves[n]
      ensures Stored() && OnlyPages()
      ensures var h, t := (lim.leafMax + 1) / 2, old(tree);
              tree == Put(Put(t, o, LowerHalf(t.nodes[o], h, n)), n,
                UpperHalf(t.nodes[o], h).WithParent(t.nodes[n].parent))
    {
      ghost var h, t := (lim.leafMax + 1) / 2, tree;
      HalvesKeepAll(lim.leafMax, t.nodes[o].entries);
      leaves[o].MoveHalfTo(leaves[n]);
      tree := Put(Put(t, o, LowerHalf(t.nodes[o], h, n)), n, UpperHalf(t.nodes[o], h).WithParent(t.nodes[n].parent));
      assert tree.nodes[n] == leaves[n].View();
    }

    method MoveHalfOfInternal(o: PageId, n: PageId)
      requires Stored() && o in internals && n in internals && o != n && o in tree.nodes && n in tree.nodes
      requires tree.nodes[o].Size() == lim.internalMax + 1
      modifies this`tree, internals[o], internals[n]
      ensures Stored() && OnlyPages()
      ensures var h, t := (lim.internalMax + 1) / 2, old(tree);
              tree == Put(Put(t, o, LowerHalf(t.nodes[o], h, n)), n,
                UpperHalf(t.nodes[o], h).WithParent(t.nodes[n].parent))
    {
      ghost var h, t := (lim.internalMax + 1) / 2, tree;
      internals[o].MoveHalfTo(internals[n]);
      tree := Put(Put(t, o, LowerHalf(t.nodes[o], h, n)), n, UpperHalf(t.nodes[o], h).WithParent(t.nodes[n].parent));
    }

    method InsertSlotAfter(p: PageId, o: PageId, key: Key, n: PageId)
      requires Stored() && p in internals && p in tree.nodes && HasChild(tree.nodes[p], o)
      requires tree.nodes[p].Size() <= lim.internalMax
      modifies this`tree, internals[p]
      ensures Stored() && OnlyPages()
      ensures var t := old(tree);
              tree == Put(t, p, Internal(t.nodes[p].parent, InsertAfter(t.nodes[p].slots, IndexOf(t.nodes[p].slots, o),
                Slot(key, n))))
    {
      ghost var t := tree;
      internals[p].InsertNodeAfter(o, key, n);
      tree := Put(t, p, Internal(t.nodes[p].parent, InsertAfter(t.nodes[p].slots, IndexOf(t.nodes[p].slots, o),
        Slot(key, n))));
    }

    method PopulateRoot(r: PageId, o: PageId, key: Key, n: PageId) returns (ghost unset: Key)
      requires Stored() && r in internals && r in tree.nodes
      modifies this`tree, internals[r]
      ensures Stored() && OnlyPages()
      ensures var t := old(tree);
              tree == Put(t, r, Internal(t.nodes[r].parent, [Slot(unset, o), Slot(key, n)]))
    {
      ghost var t := tree;
      unset := internals[r].PopulateNewRoot(o, key, n);
      tree := Put(t, r, Internal(t.nodes[r].parent, [Slot(unset, o), Slot(key, n)]));
    }

    ghost method SetSpans(span: map<PageId, Span>)
      requires Stored()
      modifies this`tree
      ensures Stored() && tree == old(tree).(span := span)
    {
      tree := tree.(span := span);
    }

    // --- splitting ---

    method SplitLeaf(o: PageId) returns (n: PageId, key: Key)
      requires Stored() && WellFormed(tree) && o in leaves && o in tree.nodes
      requires tree.nodes[o].Size() == lim.leafMax + 1
      modifies this`leaves, this`pages, this`nextPageId, this`tree, this`pageSet, leaves[o]
      ensures Stored() && n == old(nextPageId) && nextPageId == n + 1
      ensures n in leaves && leaves == old(leaves)[n := leaves[n]] && fresh(leaves[n])
      ensures pages == old(pages) + {leaves[n]}
      ensures pageSet == old(pageSet) + [n]
      ensures CanDivide(old(tree), o, n, (lim.leafMax + 1) / 2)
      ensures tree == Divide(old(tree), o, n, (lim.leafMax + 1) / 2)
      ensures key == KeyAt(old(tree).nodes[o], (lim.leafMax + 1) / 2)
    {
      ghost var t, h := tree, (lim.leafMax + 1) / 2;
      n, key := SplitLeafPairs(o);
      pageSet := pageSet + [n];
      DivideLeaf(t, o, n, h);
      SetSpans(Divide(t, o, n, h).span);
    }

    method SplitLeafPairs(o: PageId) returns (n: PageId, key: Key)
      requires Stored() && o in leaves && o in tree.nodes && tree.nodes[o].Size() == lim.leafMax + 1
      modifies this`leaves, this`pages, this`nextPageId, this`tree, leaves[o]
      ensures Stored() && n == old(nextPageId) && nextPageId == n + 1
      ensures n in leaves && n !in old(tree).nodes
      ensures leaves == old(leaves)[n := leaves[n]] && fresh(leaves[n])
      ensures pages == old(pages) + {leaves[n]}
      ensures var h, t := (lim.leafMax + 1) / 2, old(tree);
              && tree == Put(Put(Put(t, n, Leaf(t.nodes[o].parent, [], INVALID_PAGE_ID)), o,
                 LowerHalf(t.nodes[o], h, n)), n, UpperHalf(t.nodes[o], h))
              && key == KeyAt(t.nodes[o], h)
    {
      n := NewLeafPage(leaves[o].parent);
      MoveHalfOfLeaf(o, n);
      key := leaves[n].arr[0].key;
      assert leaves[n].View().entries[0].key == key;
    }

    static lemma DivideLeaf(t: Tree, o: PageId, n: PageId, h: nat)
      requires CanDivide(t, o, n, h) && t.nodes[o].Leaf?
      ensures Divide(t, o, n, h).nodes
           == t.nodes[n := Leaf(t.nodes[o].parent, [], INVALID_PAGE_ID)]
              [o := LowerHalf(t.nodes[o], h, n)][n := UpperHalf(t.nodes[o], h)]
    {
      assert Reparent(t.nodes, {}, n) == t.nodes;
    }

    method SplitInternal(o: PageId) returns (n: PageId, key: Key)
      requires Stored() && WellFormed(tree) && o in internals && o in tree.nodes
      requires tree.nodes[o].Size() == lim.internalMax + 1
      modifies this`internals, this`pages, this`nextPageId, this`tree, this`pageSet
      modifies pages
      ensures Stored() && n == old(nextPageId) && nextPageId == n + 1
      ensures n in internals && internals == old(internals)[n := internals[n]] && fresh(internals[n])
      ensures pages == old(pages) + {internals[n]}
      ensures pageSet == old(pageSet) + [n]
      ensures CanDivide(old(tree), o, n, (lim.internalMax + 1) / 2)
      ensures tree == Divide(old(tree), o, n, (lim.internalMax + 1) / 2)
      ensures key == KeyAt(old(tree).nodes[o], (lim.internalMax + 1) / 2)
    {
      ghost var t, h := tree, (lim.internalMax + 1) / 2;
      n, key := SplitInternalPairs(o);
      pageSet := pageSet + [n];
      TellChildren(t, o, n, h);
    }

    // Writes the new parent id into the children that moved.
    method TellChildren(ghost t: Tree, o: PageId, n: PageId, ghost h: nat)
      requires Stored() && n in internals && CanDivide(t, o, n, h) && t.nodes[o].Internal?
      requires tree == Put(Put(Put(t, n, Internal(t.nodes[o].parent, [])), o, LowerHalf(t.nodes[o], h, n)), n,
               UpperHalf(t.nodes[o], h))
      requires internals[n].View() == UpperHalf(t.nodes[o], h)
      modifies this`tree, pages
      ensures Stored() && OnlyPages() && tree == Divide(t, o, n, h)
    {
      DivideInternal(t, o, n, h);
      var moved := internals[n].arr[..internals[n].size];
      assert moved == UpperHalf(t.nodes[o], h).slots;
      SetParents(moved, n);
      SetSpans(Divide(t, o, n, h).span);
    }

    // The pairs of a split internal page, before the moved children are told.
    method SplitInternalPairs(o: PageId) returns (n: PageId, key: Key)
      requires Stored() && o in internals && o in tree.nodes && tree.nodes[o].Size() == lim.internalMax + 1
      modifies this`internals, this`pages, this`nextPageId, this`tree, internals[o]
      ensures Stored() && n == old(nextPageId) && nextPageId == n + 1
      ensures n in internals && n !in old(tree).nodes
      ensures internals == old(internals)[n := internals[n]] && fresh(internals[n])
      ensures pages == old(pages) + {internals[n]}
      ensures var h, t := (lim.internalMax + 1) / 2, old(tree);
              && tree == Put(Put(Put(t, n, Internal(t.nodes[o].parent, [])), o, LowerHalf(t.nodes[o], h, n)), n,
                 UpperHalf(t.nodes[o], h))
              && internals[n].View() == UpperHalf(t.nodes[o], h) && key == KeyAt(t.nodes[o], h)
    {
      n := NewInternalPage(internals[o].parent);
      MoveHalfOfInternal(o, n);
      key := internals[n].arr[0].key;
      assert internals[n].View().slots[0].key == key;
    }

    static lemma DivideInternal(t: Tree, o: PageId, n: PageId, h: nat)
      requires CanDivide(t, o, n, h) && t.nodes[o].Internal?
      ensures var up := UpperHalf(t.nodes[o], h);
              var before := t.nodes[n := Internal(t.nodes[o].parent, [])][o := LowerHalf(t.nodes[o], h, n)][n := up];
              && (forall i :: 0 <= i < |up.slots| ==> up.slots[i].child in before)
              && Divide(t, o, n, h).nodes == Reparent(before, Children(Internal(0, up.slots)), n)
    {
      ChildrenOf(t, o);
    }

    // --- inserting into the parent ---

    // The divided page was the root: a fresh root takes both halves.
    method GrowRoot(o: PageId, key: Key, n: PageId) returns (ghost unset: Key)
      requires Stored() && o in tree.nodes && n in tree.nodes && o != n && o in tree.span
      modifies this`rootPageId, this`internals, this`pages, this`nextPageId, this`tree, pages
      ensures Stored() && rootPageId == old(nextPageId) && nextPageId == rootPageId + 1
      ensures rootPageId in internals && internals == old(internals)[rootPageId := internals[rootPageId]]
      ensures pages == old(pages) + {internals[rootPageId]} && fresh(internals[rootPageId])
      ensures tree == LinkRoot(old(tree), o, key, n, rootPageId, unset)
    {
      ghost var t := tree;
      var r := NewInternalPage(INVALID_PAGE_ID);
      unset := PopulateRoot(r, o, key, n);
      SetParent(o, r);
      SetParent(n, r);
      RootNodes(t, o, key, n, r, unset);
      SetRoot(r, LinkRoot(t, o, key, n, r, unset).span);
    }

    static lemma RootNodes(t: Tree, o: PageId, key: Key, n: PageId, r: PageId, unset: Key)
      requires o in t.nodes && n in t.nodes && o != n && o in t.span && r !in t.nodes
      ensures var t1 := Put(Put(t, r, Internal(INVALID_PAGE_ID, [])), r,
              Internal(INVALID_PAGE_ID, [Slot(unset, o), Slot(key, n)]));
              var t2 := Put(t1, o, t1.nodes[o].WithParent(r));
              Put(t2, n, t2.nodes[n].WithParent(r)).nodes == LinkRoot(t, o, key, n, r, unset).nodes
    {}

    method SetRoot(r: PageId, ghost span: map<PageId, Span>)
      requires Stored()
      modifies this`rootPageId, this`tree
      ensures Stored() && rootPageId == r && tree == old(tree).(root := r, span := span)
    {
      rootPageId := r;
      tree := tree.(root := r, span := span);
    }

    method InsertIntoParent(o: PageId, key: Key, n: PageId, ghost t0: Tree)
      requires Stored() && Pending(t0, lim, o, n, key, contents, tree)
      requires LatchSet(pageSet, nextPageId) && o in pageSet && LatchedAbove(t0, o, pageSet, rootLocked, lim, INSERT)
      modifies this`rootPageId, this`internals, this`pages, this`nextPageId, this`tree, this`pageSet, pages
      ensures Stored() && Sound(tree, lim, contents) && Untouched(t0, tree, pageSet)
      ensures LatchSet(pageSet, nextPageId) && AddsFresh(old(pageSet), pageSet, old(nextPageId))
      ensures rootPageId != old(rootPageId) ==> rootLocked
      ensures NewPages()
      decreases Height(t0) - t0.span[o].level, 0, 1
    {
      PendingPages(t0, lim, o, n, key, contents, tree);
      var parentId := if o in leaves then leaves[o].parent else internals[o].parent;
      if parentId == INVALID_PAGE_ID {
        ghost var t1 := tree;
        ghost var unset := GrowRoot(o, key, n);
        RootSplit(t0, lim, o, n, key, contents, t1, rootPageId, unset, pageSet);
      } else {
        ClimbToParent(parentId, o, key, n, t0);
      }
    }

    method ClimbToParent(parentId: PageId, o: PageId, key: Key, n: PageId, ghost t0: Tree)
      requires Stored() && Pending(t0, lim, o, n, key, contents, tree)
      requires parentId != INVALID_PAGE_ID && o in tree.nodes && tree.nodes[o].parent == parentId
      requires LatchSet(pageSet, nextPageId) && o in pageSet && LatchedAbove(t0, o, pageSet, rootLocked, lim, INSERT)
      modifies this`rootPageId, this`internals, this`pages, this`nextPageId, this`tree, this`pageSet, pages
      ensures Stored() && Sound(tree, lim, contents) && Untouched(t0, tree, pageSet)
      ensures LatchSet(pageSet, nextPageId) && AddsFresh(old(pageSet), pageSet, old(nextPageId))
      ensures rootPageId != old(rootPageId) ==> rootLocked
      ensures NewPages()
      decreases Height(t0) - t0.span[o].level, 0, 0
    {
      ghost var ps := pageSet;
      LinkStep(parentId, o, key, n, t0);
      ghost var t2 := tree;
      if internals[parentId].size > lim.internalMax {
        SplitAndClimb(parentId);
        UntouchedJoin(t0, t2, tree, ps, pageSet);
      }
    }

    // Links the new page; the parent is then sound, or overfull with the latches it needs.
    method LinkStep(p: PageId, o: PageId, key: Key, n: PageId, ghost t0: Tree)
      requires Stored() && Pending(t0, lim, o, n, key, contents, tree)
      requires p != INVALID_PAGE_ID && o in tree.nodes && tree.nodes[o].parent == p
      requires o in pageSet && LatchedAbove(t0, o, pageSet, rootLocked, lim, INSERT)
      modifies this`tree, pages
      ensures Stored() && OnlyPages() && Untouched(t0, tree, pageSet) && p in internals && p in pageSet
      ensures if internals[p].size <= lim.internalMax then Sound(tree, lim, contents)
              else Overflowed(tree, lim, p, contents) && LatchedAbove(tree, p, pageSet, rootLocked, lim, INSERT)
      ensures Height(tree) == Height(t0) && p in tree.span && tree.span[p].level == t0.span[o].level + 1 <= Height(tree)
    {
      PendingPages(t0, lim, o, n, key, contents, tree);
      ghost var t1 := tree;
      ParentOfPending(t0, lim, o, n, key, contents, t1);
      LinkToParent(p, o, key, n);
      ParentStep(t0, lim, o, n, key, contents, t1, tree, pageSet, rootLocked);
    }

    method SplitAndClimb(p: PageId)
      requires Stored() && Overflowed(tree, lim, p, contents) && p in internals
      requires LatchSet(pageSet, nextPageId) && p in pageSet && LatchedAbove(tree, p, pageSet, rootLocked, lim, INSERT)
      modifies this`rootPageId, this`internals, this`pages, this`nextPageId, this`tree, this`pageSet, pages
      ensures Stored() && Sound(tree, lim, contents) && Untouched(old(tree), tree, pageSet)
      ensures LatchSet(pageSet, nextPageId) && AddsFresh(old(pageSet), pageSet, old(nextPageId))
      ensures rootPageId != old(rootPageId) ==> rootLocked
      ensures NewPages()
      decreases Height(tree) - tree.span[p].level, 1, 0
    {
      ghost var t := tree;
      var n, key := SplitInternalLatched(p);
      InsertIntoParent(p, key, n, t);
    }

    method SplitInternalLatched(p: PageId) returns (n: PageId, key: Key)
      requires Stored() && Overflowed(tree, lim, p, contents) && p in internals
      requires LatchSet(pageSet, nextPageId) && p in pageSet && LatchedAbove(tree, p, pageSet, rootLocked, lim, INSERT)
      modifies this`internals, this`pages, this`nextPageId, this`tree, this`pageSet, pages
      ensures Stored() && Pending(old(tree), lim, p, n, key, contents, tree)
      ensures LatchSet(pageSet, nextPageId) && AddsFresh(old(pageSet), pageSet, old(nextPageId)) && p in pageSet
      ensures LatchedAbove(old(tree), p, pageSet, rootLocked, lim, INSERT)
      ensures NewPages() && old(nextPageId) <= nextPageId
    {
      ghost var t, ps := tree, pageSet;
      assert t.nodes[p].Internal? && Half(lim, t.nodes[p]) == (lim.internalMax + 1) / 2;
      n, key := SplitInternal(p);
      LatchFresh(ps, n);
      LatchedAboveStays(t, t, p, ps, pageSet, rootLocked, lim, INSERT);
    }

    // Writes the parent id into the fresh page, and the fresh page into the parent.
    method LinkToParent(p: PageId, o: PageId, key: Key, n: PageId)
      requires Stored() && o in tree.nodes && n in tree.nodes && p in tree.nodes && p != n && p != o
      requires tree.nodes[o].parent == p && tree.nodes[n].parent == p
      requires HasChild(tree.nodes[p], o) && tree.nodes[p].Size() <= lim.internalMax
      modifies this`tree, pages
      ensures Stored() && OnlyPages()
      ensures tree == LinkParent(old(tree), o, key, n)
    {
      SetParent(n, p);
      InsertSlotAfter(p, o, key, n);
    }

    method SplitLeafAndClimb(p: PageId)
      requires Stored() && Overflowed(tree, lim, p, contents) && p in leaves
      requires LatchSet(pageSet, nextPageId) && p in pageSet && LatchedAbove(tree, p, pageSet, rootLocked, lim, INSERT)
      modifies this`rootPageId, this`leaves, this`internals, this`pages, this`nextPageId, this`tree, this`pageSet, pages
      ensures Stored() && Sound(tree, lim, contents) && Untouched(old(tree), tree, pageSet)
      ensures LatchSet(pageSet, nextPageId) && AddsFresh(old(pageSet), pageSet, old(nextPageId))
      ensures rootPageId != old(rootPageId) ==> rootLocked
      ensures NewPages()
    {
      ghost var t := tree;
      var n, key := SplitLeafLatched(p);
      InsertIntoParent(p, key, n, t);
    }

    method SplitLeafLatched(p: PageId) returns (n: PageId, key: Key)
      requires Stored() && Overflowed(tree, lim, p, contents) && p in leaves
      requires LatchSet(pageSet, nextPageId) && p in pageSet && LatchedAbove(tree, p, pageSet, rootLocked, lim, INSERT)
      modifies this`leaves, this`pages, this`nextPageId, this`tree, this`pageSet, leaves[p]
      ensures Stored() && Pending(old(tree), lim, p, n, key, contents, tree)
      ensures LatchSet(pageSet, nextPageId) && AddsFresh(old(pageSet), pageSet, old(nextPageId)) && p in pageSet
      ensures LatchedAbove(old(tree), p, pageSet, rootLocked, lim, INSERT)
      ensures NewPages() && old(nextPageId) <= nextPageId
    {
      ghost var t, ps := tree, pageSet;
      assert t.nodes[p].Leaf? && Half(lim, t.nodes[p]) == (lim.leafMax + 1) / 2;
      n, key := SplitLeaf(p);
      LatchFresh(ps, n);
      LatchedAboveStays(t, t, p, ps, pageSet, rootLocked, lim, INSERT);
    }

    // --- joining ---

    method MoveAllOfLeaf(l: PageId, r: PageId)
      requires Stored() && l in leaves && r in leaves && l != r && l in tree.nodes && r in tree.nodes
      requires tree.nodes[l].Size() + tree.nodes[r].Size() <= lim.leafMax
      modifies this`tree, leaves[l], leaves[r]
      ensures Stored() && OnlyPages()
      ensures var t := old(tree);
              tree == Put(Put(t, l, Joined(t.nodes[l], t.nodes[r], 0)), r, Leaf(t.nodes[r].parent, [], t.nodes[r].next))
    {
      ghost var t := tree;
      leaves[r].MoveAllTo(leaves[l]);
      tree := Put(Put(t, l, Joined(t.nodes[l], t.nodes[r], 0)), r, Leaf(t.nodes[r].parent, [], t.nodes[r].next));
    }

    method MoveAllOfInternal(l: PageId, r: PageId, i: nat, p: PageId)
      requires Stored() && l in internals && r in internals && p in internals && l != r && p != r && p != l
      requires l in tree.nodes && r in tree.nodes && p in tree.nodes && i < tree.nodes[p].Size() &&
               tree.nodes[r].Size() > 0
      requires tree.nodes[l].Size() + tree.nodes[r].Size() <= lim.internalMax
      modifies this`tree, internals[l], internals[r]
      ensures Stored() && OnlyPages()
      ensures var t := old(tree);
              tree == Put(Put(t, l, Joined(t.nodes[l], t.nodes[r], t.nodes[p].slots[i].key)), r,
                Internal(t.nodes[r].parent, []))
    {
      ghost var t := tree;
      assert internals[p].arr[i] == t.nodes[p].slots[i];
      internals[r].MoveAllTo(internals[l], i, internals[p]);
      tree := Put(Put(t, l, Joined(t.nodes[l], t.nodes[r], t.nodes[p].slots[i].key)), r,
        Internal(t.nodes[r].parent, []));
    }

    method RemoveSlot(p: PageId, i: nat)
      requires Stored() && p in internals && p in tree.nodes && i < tree.nodes[p].Size()
      modifies this`tree, internals[p]
      ensures Stored() && OnlyPages()
      ensures tree == Put(old(tree), p, Internal(old(tree).nodes[p].parent, RemoveAt(old(tree).nodes[p].slots, i)))
    {
      ghost var t := tree;
      internals[p].Remove(i);
      tree := Put(t, p, Internal(t.nodes[p].parent, RemoveAt(t.nodes[p].slots, i)));
    }

    // The page is no longer part of the tree; it is deleted when its latch is released.
    method AddIntoDeletedPageSet(r: PageId)
      requires Stored() && r in tree.nodes
      modifies this`tree, this`deletedSet
      ensures Stored() && deletedSet == old(deletedSet) + {r}
      ensures tree == old(tree).(nodes := old(tree).nodes - {r})
    {
      deletedSet := deletedSet + {r};
      tree := tree.(nodes := tree.nodes - {r});
    }

    // Marks r for deletion and removes its slot from the parent.
    method TakeOut(p: PageId, i: nat, r: PageId)
      requires Stored() && r in tree.nodes && p in tree.nodes && p != r && p in internals && i < tree.nodes[p].Size()
      modifies this`tree, this`deletedSet, internals[p]
      ensures Stored() && SameButDeleted() && deletedSet == old(deletedSet) + {r}
      ensures var t := old(tree);
              tree == t.(nodes := (t.nodes - {r})[p := Internal(t.nodes[p].parent, RemoveAt(t.nodes[p].slots, i))])
    {
      AddIntoDeletedPageSet(r);
      RemoveSlot(p, i);
    }

    method JoinInternals(l: PageId, r: PageId, i: nat, p: PageId)
      requires Stored() && l in internals && r in internals && p in internals && l != r && p != r && p != l
      requires l in tree.nodes && r in tree.nodes && p in tree.nodes && i < tree.nodes[p].Size() &&
               tree.nodes[r].Size() > 0
      requires tree.nodes[l].Size() + tree.nodes[r].Size() <= lim.internalMax
      requires forall j :: 0 <= j < |tree.nodes[r].slots| ==> tree.nodes[r].slots[j].child in tree.nodes
      modifies this`tree, pages
      ensures Stored() && OnlyPages()
      ensures var t := old(tree);
              tree == t.(nodes := Reparent(t.nodes[l := Joined(t.nodes[l], t.nodes[r],
                t.nodes[p].slots[i].key)][r := Internal(t.nodes[r].parent, [])],
                                           Children(Internal(0, t.nodes[r].slots)), l))
    {
      var moved := internals[r].arr[..internals[r].size];
      assert moved == tree.nodes[r].slots;
      MoveAllOfInternal(l, r, i, p);
      SetParents(moved, l);
    }

    // Moves the pairs of r to its left sibling l, and takes r out of their parent.
    method MergeLeaves(p: PageId, i: nat, l: PageId, r: PageId)
      requires Stored() && Siblings(tree, p, i, l, r) && l in leaves && r in leaves
      requires tree.nodes[l].Size() + tree.nodes[r].Size() <= lim.leafMax
      modifies this`tree, this`deletedSet, pages
      ensures Stored() && tree == Merge(old(tree), p, i, l, r) && deletedSet == old(deletedSet) + {r}
      ensures SameButDeleted()
    {
      ghost var t := tree;
      SiblingFacts(t, p, i, l, r);
      MoveAllOfLeaf(l, r);
      TakeOut(p, i, r);
      MergedLeaves(t, p, i, l, r);
      SetSpans(Merge(t, p, i, l, r).span);
    }

    twostate predicate SameButDeleted()
      reads this
    {
      && leaves == old(leaves) && internals == old(internals) && pages == old(pages)
      && nextPageId == old(nextPageId) && rootPageId == old(rootPageId)
      && pageSet == old(pageSet) && rootLocked == old(rootLocked)
      && contents == old(contents) && freed == old(freed) && rootFreed == old(rootFreed)
    }

    static lemma MergedLeaves(t: Tree, p: PageId, i: nat, l: PageId, r: PageId)
      requires Siblings(t, p, i, l, r) && t.nodes[l].Leaf? && t.nodes[r].Leaf? && l != r && p != r && p != l
      ensures Merge(t, p, i, l, r).nodes
           == (t.nodes[l := Joined(t.nodes[l], t.nodes[r], 0)][r := Leaf(t.nodes[r].parent, [], t.nodes[r].next)] - {r})
                [p := Internal(t.nodes[p].parent, RemoveAt(t.nodes[p].slots, i))]
    {
      assert Reparent(t.nodes, {}, l) == t.nodes;
    }

    method MergeInternals(p: PageId, i: nat, l: PageId, r: PageId)
      requires Stored() && Siblings(tree, p, i, l, r) && l in internals && r in internals
      requires tree.nodes[l].Size() + tree.nodes[r].Size() <= lim.internalMax
      modifies this`tree, this`deletedSet, pages
      ensures Stored() && tree == Merge(old(tree), p, i, l, r) && deletedSet == old(deletedSet) + {r}
      ensures SameButDeleted()
    {
      ghost var t := tree;
      SiblingFacts(t, p, i, l, r);
      MergedInternals(t, p, i, l, r);
      JoinInternals(l, r, i, p);
      TakeOut(p, i, r);
      SetSpans(Merge(t, p, i, l, r).span);
    }

    static lemma MergedInternals(t: Tree, p: PageId, i: nat, l: PageId, r: PageId)
      requires Siblings(t, p, i, l, r) && t.nodes[l].Internal? && t.nodes[r].Internal? && l != r && p != r && p != l
      ensures var moved := t.nodes[l := Joined(t.nodes[l], t.nodes[r],
              t.nodes[p].slots[i].key)][r := Internal(t.nodes[r].parent, [])];
              && (forall j :: 0 <= j < |t.nodes[r].slots| ==> t.nodes[r].slots[j].child in moved)
              && Merge(t, p, i, l, r).nodes
                 == (Reparent(moved, Children(Internal(0, t.nodes[r].slots)), l) - {r})
                      [p := Internal(t.nodes[p].parent, RemoveAt(t.nodes[p].slots, i))]
              && Reparent(moved, Children(Internal(0, t.nodes[r].slots)), l)[p] == t.nodes[p]
    {
      SiblingFacts(t, p, i, l, r);
      ChildrenOf(t, r);
    }

    // --- borrowing ---

    method MoveFirstOfLeaf(r: PageId, l: PageId, p: PageId)
      requires Stored() && l in leaves && r in leaves && p in internals && l != r
      requires l in tree.nodes && r in tree.nodes && p in tree.nodes && HasChild(tree.nodes[p], r)
      requires tree.nodes[r].Size() > 1 && tree.nodes[l].Size() < lim.leafMax
      modifies this`tree, leaves[l], leaves[r], internals[p]
      ensures Stored() && OnlyPages()
      ensures var t := old(tree);
              var ln, rn, pn := t.nodes[l], t.nodes[r], t.nodes[p];
              tree == Put(Put(Put(t, l, Leaf(ln.parent, ln.entries + rn.entries[..1], ln.next)),
                              r, Leaf(rn.parent, rn.entries[1..], rn.next)),
                          p, Internal(pn.parent, SetKeyAt(pn.slots, IndexOf(pn.slots, r), rn.entries[1].key)))
    {
      ghost var t := tree;
      ghost var ln, rn, pn := t.nodes[l], t.nodes[r], t.nodes[p];
      ghost var a, b, c := Leaf(ln.parent, ln.entries + rn.entries[..1], ln.next),
                               Leaf(rn.parent, rn.entries[1..], rn.next),
                               Internal(pn.parent, SetKeyAt(pn.slots, IndexOf(pn.slots, r), rn.entries[1].key));
      assert leaves[l].View() == ln && leaves[r].View() == rn && internals[p].View() == pn;
      leaves[r].MoveFirstToEndOf(leaves[l], internals[p]);
      assert Shows(l, a) && Shows(r, b) && Shows(p, c);
      Adopt(l, r, p, a, b, c);
    }

    method MoveLastOfLeaf(l: PageId, r: PageId, i: nat, p: PageId)
      requires Stored() && l in leaves && r in leaves && p in internals && l != r
      requires l in tree.nodes && r in tree.nodes && p in tree.nodes && i < tree.nodes[p].Size()
      requires tree.nodes[l].Size() > 1 && tree.nodes[r].Size() + 1 < lim.leafMax
      modifies this`tree, leaves[l], leaves[r], internals[p]
      ensures Stored() && OnlyPages()
      ensures var t := old(tree);
              var ln, rn, pn := t.nodes[l], t.nodes[r], t.nodes[p];
              var m := ln.Size() - 1;
              tree == Put(Put(Put(t, l, Leaf(ln.parent, ln.entries[..m], ln.next)),
                              r, Leaf(rn.parent, ln.entries[m..] + rn.entries, rn.next)),
                          p, Internal(pn.parent, SetKeyAt(pn.slots, i, ln.entries[m].key)))
    {
      ghost var t := tree;
      ghost var ln, rn, pn := t.nodes[l], t.nodes[r], t.nodes[p];
      ghost var m := ln.Size() - 1;
      ghost var a, b, c := Leaf(ln.parent, ln.entries[..m], ln.next),
                               Leaf(rn.parent, ln.entries[m..] + rn.entries, rn.next),
                               Internal(pn.parent, SetKeyAt(pn.slots, i, ln.entries[m].key));
      assert leaves[l].View() == ln && leaves[r].View() == rn && internals[p].View() == pn;
      leaves[l].MoveLastToFrontOf(leaves[r], i, internals[p]);
      assert Shows(l, a) && Shows(r, b) && Shows(p, c);
      Adopt(l, r, p, a, b, c);
    }

    method MoveFirstOfInternal(r: PageId, l: PageId, p: PageId) returns (child: PageId)
      requires Stored() && l in internals && r in internals && p in internals && l != r && p != l && p != r
      requires l in tree.nodes && r in tree.nodes && p in tree.nodes && HasChild(tree.nodes[p], r)
      requires tree.nodes[r].Size() > 1 && tree.nodes[l].Size() < lim.internalMax
      modifies this`tree, internals[l], internals[r], internals[p]
      ensures Stored() && OnlyPages() && child == old(tree).nodes[r].slots[0].child
      ensures var t := old(tree);
              var ln, rn, pn := t.nodes[l], t.nodes[r], t.nodes[p];
              tree == Put(Put(Put(t, l, Internal(ln.parent, ln.slots + rn.slots[..1])),
                              r, Internal(rn.parent, rn.slots[1..])),
                          p, Internal(pn.parent, SetKeyAt(pn.slots, IndexOf(pn.slots, r), rn.slots[1].key)))
    {
      ghost var t := tree;
      ghost var ln, rn, pn := t.nodes[l], t.nodes[r], t.nodes[p];
      ghost var a, b, c := Internal(ln.parent, ln.slots + rn.slots[..1]),
                               Internal(rn.parent, rn.slots[1..]),
                               Internal(pn.parent, SetKeyAt(pn.slots, IndexOf(pn.slots, r), rn.slots[1].key));
      assert internals[l].View() == ln && internals[r].View() == rn && internals[p].View() == pn;
      child := internals[r].MoveFirstToEndOf(internals[l], internals[p]);
      assert Shows(l, a) && Shows(r, b) && Shows(p, c);
      Adopt(l, r, p, a, b, c);
    }

    method MoveLastOfInternal(l: PageId, r: PageId, i: nat, p: PageId) returns (child: PageId)
      requires Stored() && l in internals && r in internals && p in internals && l != r && p != l && p != r
      requires l in tree.nodes && r in tree.nodes && p in tree.nodes && i < tree.nodes[p].Size()
      requires tree.nodes[l].Size() > 1 && tree.nodes[r].Size() + 1 < lim.internalMax
      modifies this`tree, internals[l], internals[r], internals[p]
      ensures Stored() && OnlyPages() && child == old(tree).nodes[l].slots[old(tree).nodes[l].Size() - 1].child
      ensures var t := old(tree);
              var ln, rn, pn := t.nodes[l], t.nodes[r], t.nodes[p];
              var m := ln.Size() - 1;
              tree == Put(Put(Put(t, l, Internal(ln.parent, ln.slots[..m])),
                              r, Internal(rn.parent, ln.slots[m..] + rn.slots)),
                          p, Internal(pn.parent, SetKeyAt(pn.slots, i, ln.slots[m].key)))
    {
      ghost var t := tree;
      ghost var ln, rn, pn := t.nodes[l], t.nodes[r], t.nodes[p];
      ghost var m := ln.Size() - 1;
      ghost var a, b, c := Internal(ln.parent, ln.slots[..m]),
                               Internal(rn.parent, ln.slots[m..] + rn.slots),
                               Internal(pn.parent, SetKeyAt(pn.slots, i, ln.slots[m].key));
      assert internals[l].View() == ln && internals[r].View() == rn && internals[p].View() == pn;
      child := internals[l].MoveLastToFrontOf(internals[r], i, internals[p]);
      assert Shows(l, a) && Shows(r, b) && Shows(p, c);
      Adopt(l, r, p, a, b, c);
    }

    // The page that lacks a pair is the left one: its right sibling gives its first pair.
    method RedistributeFromRight(p: PageId, i: nat, l: PageId, r: PageId)
      requires Stored() && Siblings(tree, p, i, l, r) && tree.nodes[r].Size() > 1
      requires tree.nodes[l].Leaf? == tree.nodes[r].Leaf? && tree.nodes[l].Size() < lim.MaxSize(tree.nodes[l])
      modifies this`tree, pages
      ensures Stored() && OnlyPages() && tree == BorrowFromRight(old(tree), p, i, l, r)
    {
      SiblingFacts(tree, p, i, l, r);
      if l in leaves {
        RedistributeLeafFromRight(p, i, l, r);
      } else {
        RedistributeInternalFromRight(p, i, l, r);
      }
    }

    method RedistributeLeafFromRight(p: PageId, i: nat, l: PageId, r: PageId)
      requires Stored() && Siblings(tree, p, i, l, r) && tree.nodes[r].Size() > 1 && l in leaves && r in leaves
      requires tree.nodes[l].Size() < lim.MaxSize(tree.nodes[l])
      modifies this`tree, pages
      ensures Stored() && OnlyPages() && tree == BorrowFromRight(old(tree), p, i, l, r)
    {
      ghost var t := tree;
      SiblingFacts(t, p, i, l, r);
      BorrowedRight(t, p, i, l, r);
      MoveFirstOfLeaf(r, l, p);
      SetSpans(BorrowFromRight(t, p, i, l, r).span);
    }

    method RedistributeInternalFromRight(p: PageId, i: nat, l: PageId, r: PageId)
      requires Stored() && Siblings(tree, p, i, l, r) && tree.nodes[r].Size() > 1 && l in internals && r in internals
      requires tree.nodes[l].Size() < lim.MaxSize(tree.nodes[l])
      modifies this`tree, pages
      ensures Stored() && OnlyPages() && tree == BorrowFromRight(old(tree), p, i, l, r)
    {
      ghost var t := tree;
      SiblingFacts(t, p, i, l, r);
      BorrowedRight(t, p, i, l, r);
      ghost var t2 := BorrowFromRight(t, p, i, l, r);
      var child := MoveFirstOfInternal(r, l, p);
      SetParent(child, l);
      assert tree.nodes == t2.nodes;
      SetSpans(t2.span);
    }

    static lemma BorrowedRight(t: Tree, p: PageId, i: nat, l: PageId, r: PageId)
      requires Siblings(t, p, i, l, r) && t.nodes[r].Size() > 1 && t.nodes[l].Leaf? == t.nodes[r].Leaf?
      ensures IndexOf(t.nodes[p].slots, r) == i
      ensures var ln, rn, pn, t2 := t.nodes[l], t.nodes[r], t.nodes[p], BorrowFromRight(t, p, i, l, r);
              && (ln.Leaf? ==>
                    t2.nodes == t.nodes[l := Leaf(ln.parent, ln.entries + rn.entries[..1], ln.next)]
                                       [r := Leaf(rn.parent, rn.entries[1..], rn.next)]
                                       [p := Internal(pn.parent, SetKeyAt(pn.slots, i, rn.entries[1].key))])
              && (ln.Internal? ==>
                    var c := rn.slots[0].child;
                    var moved := t.nodes[l := Internal(ln.parent, ln.slots + rn.slots[..1])]
                                        [r := Internal(rn.parent, rn.slots[1..])]
                                        [p := Internal(pn.parent, SetKeyAt(pn.slots, i, rn.slots[1].key))];
                    c in moved && t2.nodes == moved[c := moved[c].WithParent(l)])
    {
      SiblingFacts(t, p, i, l, r);
      ChildrenOf(t, p);
      IndexOfUnique(t.nodes[p].slots, i);
      if t.nodes[l].Leaf? {
        assert Reparent(t.nodes, {}, l) == t.nodes;
      } else {
        ChildrenOf(t, r);
      }
    }

    // The page that lacks a pair is the right one: its left sibling gives its last pair.
    method RedistributeFromLeft(p: PageId, i: nat, l: PageId, r: PageId)
      requires Stored() && Siblings(tree, p, i, l, r) && tree.nodes[l].Size() > 1
      requires tree.nodes[l].Leaf? == tree.nodes[r].Leaf? && tree.nodes[r].Size() + 1 < lim.MaxSize(tree.nodes[r])
      modifies this`tree, pages
      ensures Stored() && OnlyPages() && tree == BorrowFromLeft(old(tree), p, i, l, r)
    {
      SiblingFacts(tree, p, i, l, r);
      if l in leaves {
        RedistributeLeafFromLeft(p, i, l, r);
      } else {
        RedistributeInternalFromLeft(p, i, l, r);
      }
    }

    method RedistributeLeafFromLeft(p: PageId, i: nat, l: PageId, r: PageId)
      requires Stored() && Siblings(tree, p, i, l, r) && tree.nodes[l].Size() > 1 && l in leaves && r in leaves
      requires tree.nodes[r].Size() + 1 < lim.MaxSize(tree.nodes[r])
      modifies this`tree, pages
      ensures Stored() && OnlyPages() && tree == BorrowFromLeft(old(tree), p, i, l, r)
    {
      ghost var t := tree;
      SiblingFacts(t, p, i, l, r);
      BorrowedLeft(t, p, i, l, r);
      MoveLastOfLeaf(l, r, i, p);
      SetSpans(BorrowFromLeft(t, p, i, l, r).span);
    }

    method RedistributeInternalFromLeft(p: PageId, i: nat, l: PageId, r: PageId)
      requires Stored() && Siblings(tree, p, i, l, r) && tree.nodes[l].Size() > 1 && l in internals && r in internals
      requires tree.nodes[r].Size() + 1 < lim.MaxSize(tree.nodes[r])
      modifies this`tree, pages
      ensures Stored() && OnlyPages() && tree == BorrowFromLeft(old(tree), p, i, l, r)
    {
      ghost var t := tree;
      SiblingFacts(t, p, i, l, r);
      BorrowedLeft(t, p, i, l, r);
      var child := MoveLastOfInternal(l, r, i, p);
      SetParent(child, r);
      SetSpans(BorrowFromLeft(t, p, i, l, r).span);
    }

    static lemma BorrowedLeft(t: Tree, p: PageId, i: nat, l: PageId, r: PageId)
      requires Siblings(t, p, i, l, r) && t.nodes[l].Size() > 1 && t.nodes[l].Leaf? == t.nodes[r].Leaf?
      ensures var ln, rn, pn, t2 := t.nodes[l], t.nodes[r], t.nodes[p], BorrowFromLeft(t, p, i, l, r);
              var m := ln.Size() - 1;
              && (ln.Leaf? ==>
                    t2.nodes == t.nodes[l := Leaf(ln.parent, ln.entries[..m], ln.next)]
                                       [r := Leaf(rn.parent, ln.entries[m..] + rn.entries, rn.next)]
                                       [p := Internal(pn.parent, SetKeyAt(pn.slots, i, ln.entries[m].key))])
              && (ln.Internal? ==>
                    var c := ln.slots[m].child;
                    var moved := t.nodes[l := Internal(ln.parent, ln.slots[..m])]
                                        [r := Internal(rn.parent, ln.slots[m..] + rn.slots)]
                                        [p := Internal(pn.parent, SetKeyAt(pn.slots, i, ln.slots[m].key))];
                    c in moved && t2.nodes == moved[c := moved[c].WithParent(r)])
    {
      SiblingFacts(t, p, i, l, r);
      if t.nodes[l].Leaf? {
        assert Reparent(t.nodes, {}, r) == t.nodes;
      } else {
        ChildrenOf(t, l);
      }
    }

    // --- the climb after a removal ---

    // Page u may lack a pair; everything that may still change is latched.
    ghost predicate Climbing(u: PageId)
      reads this, pages
    {
      && Stored() && Underflowed(tree, lim, u, contents)
      && Holding(tree, lim, u, pageSet, rootLocked, freed, nextPageId)
      && forall d :: d in deletedSet ==> d in pageSet
    }

    // The tree is sound again, and all pages to delete are latched.
    ghost predicate Settled()
      reads this, pages
    {
      && Stored()
      && (if rootPageId == INVALID_PAGE_ID then tree.nodes == map[] && contents == map[]
           else Sound(tree, lim, contents))
      && LatchSet(pageSet, nextPageId)
      && (forall d :: d in deletedSet ==> d in pageSet)
      && (forall f :: f in freed ==> f !in pageSet)
    }

    method AdjustRoot(u: PageId)
      requires Climbing(u) && u == tree.root
      modifies this`rootPageId, this`tree, this`deletedSet, pages
      ensures Settled() && Untouched(old(tree), tree, pageSet) && LatchesKept() && rootLocked
    {
      ghost var t := tree;
      var size := if u in leaves then leaves[u].size else internals[u].size;
      if size == 1 {
        CollapseStep(t, lim, contents, pageSet);
        CollapseRoot(u);
      } else if u in leaves {
        EmptyStep(t, lim, contents);
        AddIntoDeletedPageSet(u);
        SetRoot(INVALID_PAGE_ID, map[]);
      } else {
        KeepRootStep(t, lim, contents);
      }
    }

    // The only child becomes the root.
    method CollapseRoot(u: PageId)
      requires Stored() && u in internals && u in tree.nodes && u == tree.root && tree.nodes[u].Size() == 1
      requires tree.nodes[u].slots[0].child in tree.nodes && tree.nodes[u].slots[0].child != u
      modifies this`rootPageId, this`tree, this`deletedSet, pages
      ensures Stored() && deletedSet == old(deletedSet) + {u}
      ensures tree == Collapse(old(tree), old(tree).nodes[u].slots[0].child) && rootPageId == tree.root
      ensures pageSet == old(pageSet) && nextPageId == old(nextPageId) && contents == old(contents)
      ensures freed == old(freed) && rootLocked == old(rootLocked)
    {
      ghost var t := tree;
      var c := TakeOnlyChild(u);
      CollapsedNodes(t, c);
      SetParent(c, INVALID_PAGE_ID);
      AddIntoDeletedPageSet(u);
      SetRoot(c, Collapse(t, c).span);
    }

    static lemma CollapsedNodes(t: Tree, c: PageId)
      requires c in t.nodes && c != t.root && t.root in t.nodes
      ensures Collapse(t, c).nodes
           == t.nodes[t.root := Internal(t.nodes[t.root].parent,
             [])][c := t.nodes[c].WithParent(INVALID_PAGE_ID)] - {t.root}
    {}

    method TakeOnlyChild(u: PageId) returns (c: PageId)
      requires Stored() && u in internals && u in tree.nodes && tree.nodes[u].Size() == 1
      modifies this`tree, internals[u]
      ensures Stored() && OnlyPages() && c == old(tree).nodes[u].slots[0].child
      ensures tree == Put(old(tree), u, Internal(old(tree).nodes[u].parent, []))
    {
      assert internals[u].arr[0] == tree.nodes[u].slots[0];
      c := internals[u].RemoveAndReturnOnlyChild();
      tree := Put(tree, u, Internal(tree.nodes[u].parent, []));
    }

    method CoalesceOrRedistribute(u: PageId)
      requires Climbing(u)
      modifies this`rootPageId, this`tree, this`deletedSet, this`pageSet, pages
      ensures Settled() && Untouched(old(tree), tree, pageSet)
      ensures LatchesKept() && (rootPageId != old(rootPageId) ==> rootLocked)
      ensures u != old(tree).root ==> GivesUpIff(u)
      decreases Height(tree) - tree.span[u].level, 1
    {
      RootKnown(tree, u);
      var parentId := if u in leaves then leaves[u].parent else internals[u].parent;
      if parentId == INVALID_PAGE_ID {
        AdjustRoot(u);
      } else {
        var i, l, r := FindLeftSibling(u, parentId);
        SiblingFacts(tree, parentId, i, l, r);
        CoalesceOrBorrow(parentId, i, l, r, u);
      }
    }

    // The right one of u and its sibling is given up exactly when their pairs fit into one page.
    twostate predicate GivesUpIff(u: PageId)
      reads this
    {
      && u in old(tree).nodes && old(tree).nodes[u].parent in old(tree).nodes
      && HasChild(old(tree).nodes[old(tree).nodes[u].parent], u)
      && var l, r := LeftOf(old(tree), u), RightOf(old(tree), u);
      && l in old(tree).nodes && r in old(tree).nodes && l != r
      && (r in deletedSet <==> FitInOne(old(tree), lim, l, r))
    }

    // Latches the sibling: the one before, or the next one when u is the first child.
    method FindLeftSibling(u: PageId, p: PageId) returns (i: nat, l: PageId, r: PageId)
      requires Climbing(u) && u != tree.root && p == tree.nodes[u].parent
      modifies this`pageSet
      ensures Stored() && LatchesKept()
      ensures Paired(tree, lim, p, i, l, r, u, contents, pageSet, rootLocked, freed, nextPageId)
      ensures forall d :: d in deletedSet ==> d in pageSet
      ensures HasChild(tree.nodes[p], u) && l == LeftOf(tree, u) && r == RightOf(tree, u)
    {
      SiblingOf(tree, lim, u, contents);
      var j := internals[p].ValueIndex(u);
      assert internals[p].View() == tree.nodes[p];
      var sibling;
      if j == 0 {
        sibling := internals[p].arr[1].child;
        i, l, r := 1, u, sibling;
      } else {
        sibling := internals[p].arr[j - 1].child;
        i, l, r := j, sibling, u;
      }
      PairUp(tree, lim, u, contents, p, i, l, r, sibling, pageSet, rootLocked, freed, nextPageId);
      pageSet := pageSet + [sibling];
    }

    twostate predicate LatchesKept()
      reads this
    {
      old(pageSet) <= pageSet && old(deletedSet) <= deletedSet
    }

    method CoalesceOrBorrow(p: PageId, i: nat, l: PageId, r: PageId, u: PageId)
      requires Stored() && Paired(tree, lim, p, i, l, r, u, contents, pageSet, rootLocked, freed, nextPageId)
      requires forall d :: d in deletedSet ==> d in pageSet
      modifies this`rootPageId, this`tree, this`deletedSet, this`pageSet, pages
      ensures Settled() && Untouched(old(tree), tree, pageSet)
      ensures LatchesKept() && (rootPageId != old(rootPageId) ==> rootLocked)
      ensures r in deletedSet <==> FitInOne(old(tree), lim, l, r)
      decreases Height(tree) - tree.span[u].level, 0, 1
    {
      SiblingFacts(tree, p, i, l, r);
      var total := if l in leaves then leaves[l].size + leaves[r].size else internals[l].size + internals[r].size;
      var max := if l in leaves then lim.leafMax else lim.internalMax;
      if total <= max {
        Coalesce(p, i, l, r, u);
      } else {
        Redistribute(p, i, l, r, u);
      }
    }

    method Coalesce(p: PageId, i: nat, l: PageId, r: PageId, ghost u: PageId)
      requires Stored() && Paired(tree, lim, p, i, l, r, u, contents, pageSet, rootLocked, freed, nextPageId)
      requires forall d :: d in deletedSet ==> d in pageSet
      requires tree.nodes[l].Size() + tree.nodes[r].Size() <= lim.MaxSize(tree.nodes[l])
      modifies this`rootPageId, this`tree, this`deletedSet, this`pageSet, pages
      ensures Settled() && Untouched(old(tree), tree, pageSet)
      ensures LatchesKept() && (rootPageId != old(rootPageId) ==> rootLocked) && r in deletedSet
      decreases Height(tree) - tree.span[u].level, 0, 0
    {
      ghost var t, ps := tree, pageSet;
      var short := MergeIntoLeft(p, i, l, r, u);
      if short {
        ghost var t2 := tree;
        CoalesceOrRedistribute(p);
        UntouchedJoin(t, t2, tree, ps, pageSet);
      }
    }

    // Merges; the parent is then one short, or the tree is sound.
    method MergeIntoLeft(p: PageId, i: nat, l: PageId, r: PageId, ghost u: PageId) returns (short: bool)
      requires Stored() && Paired(tree, lim, p, i, l, r, u, contents, pageSet, rootLocked, freed, nextPageId)
      requires forall d :: d in deletedSet ==> d in pageSet
      requires tree.nodes[l].Size() + tree.nodes[r].Size() <= lim.MaxSize(tree.nodes[l])
      modifies this`tree, this`deletedSet, pages
      ensures Untouched(old(tree), tree, pageSet) && SameButDeleted() && deletedSet == old(deletedSet) + {r}
      ensures if short then Climbing(p) else Settled() && rootPageId != INVALID_PAGE_ID
      ensures Height(tree) == Height(old(tree)) && p in tree.span && u in old(tree).span
      ensures tree.span[p].level == old(tree).span[u].level + 1 <= Height(tree)
    {
      ghost var t := tree;
      SiblingFacts(t, p, i, l, r);
      MergedParent(t, lim, p, i, l, r, u, contents, pageSet, rootLocked, freed, nextPageId);
      MergePages(p, i, l, r);
      var min := if internals[p].parent == INVALID_PAGE_ID then 2 else lim.internalMax / 2;
      short := internals[p].size <= min;
    }

    method MergePages(p: PageId, i: nat, l: PageId, r: PageId)
      requires Stored() && Siblings(tree, p, i, l, r)
      requires tree.nodes[l].Size() + tree.nodes[r].Size() <= lim.MaxSize(tree.nodes[l])
      modifies this`tree, this`deletedSet, pages
      ensures Stored() && tree == Merge(old(tree), p, i, l, r) && deletedSet == old(deletedSet) + {r}
      ensures SameButDeleted()
    {
      SiblingFacts(tree, p, i, l, r);
      if l in leaves {
        MergeLeaves(p, i, l, r);
      } else {
        MergeInternals(p, i, l, r);
      }
    }

    method Redistribute(p: PageId, i: nat, l: PageId, r: PageId, u: PageId)
      requires Stored() && Paired(tree, lim, p, i, l, r, u, contents, pageSet, rootLocked, freed, nextPageId)
      requires forall d :: d in deletedSet ==> d in pageSet
      requires tree.nodes[l].Size() + tree.nodes[r].Size() > lim.MaxSize(tree.nodes[l])
      modifies this`tree, pages
      ensures Settled() && Untouched(old(tree), tree, pageSet) && OnlyPages()
      ensures Borrows(old(tree), p, i, l, r, u, tree)
    {
      ghost var t := tree;
      BorrowStep(t, lim, p, i, l, r, u, contents);
      BorrowChanges(t, p, i, l, r, pageSet);
      if u == l {
        RedistributeFromRight(p, i, l, r);
      } else {
        RedistributeFromLeft(p, i, l, r);
      }
    }

    // --- the way down ---

    method PageIsSafe(p: PageId, op: OpType) returns (safe: bool)
      requires Stored() && p in tree.nodes
      ensures safe == lim.IsSafe(tree.nodes[p], op)
    {
      var isLeaf := p in leaves;
      var size := if isLeaf then leaves[p].size else internals[p].size;
      var parent := if isLeaf then leaves[p].parent else internals[p].parent;
      var max := if isLeaf then lim.leafMax else lim.internalMax;
      var min := if parent == INVALID_PAGE_ID then (if isLeaf then 1 else 2) else max / 2;
      safe := match op
        case INSERT => size < max
        case DELETE => if isLeaf then size >= min + 1 else size > min + 1
        case READ => false;
    }

    // Unlatches every page of the page set and deletes those marked for it.
    method FreePagesInTransaction()
      requires Stored() && forall d :: d in deletedSet ==> d in pageSet
      modifies this`leaves, this`internals, this`pageSet, this`deletedSet, this`rootLocked
      ensures Stored() && pageSet == [] && deletedSet == {} && !rootLocked
      ensures old(deletedSet) == {} ==> leaves == old(leaves) && internals == old(internals)
    {
      rootLocked := false;
      var i := 0;
      while i < |pageSet|
        modifies this`leaves, this`internals, this`deletedSet
        invariant 0 <= i <= |pageSet| && Stored()
        invariant deletedSet <= old(deletedSet)
        invariant forall d :: d in deletedSet ==> d in pageSet[i..]
        invariant old(deletedSet) == {} ==> leaves == old(leaves) && internals == old(internals)
      {
        if pageSet[i] in deletedSet {
          DeletePage(pageSet[i]);
        }
        i := i + 1;
      }
      assert pageSet[i..] == [];
      assert deletedSet == {} by {
        assert forall d :: d in deletedSet ==> d in pageSet[i..];
      }
      pageSet := [];
    }

    method DeletePage(p: PageId)
      requires Stored() && p in deletedSet
      modifies this`leaves, this`internals, this`deletedSet
      ensures Stored() && deletedSet == old(deletedSet) - {p}
    {
      leaves := leaves - {p};
      internals := internals - {p};
      deletedSet := deletedSet - {p};
    }

    // Latches a page. Once a page is known to be safe for the operation, everything latched
    // above it is released. Readers keep one page at a time.
    method CrabbingFetchPage(c: PageId, op: OpType, previous: PageId)
      requires Stored() && c in tree.nodes && deletedSet == {}
      modifies this`pageSet, this`rootLocked, this`freed, this`rootFreed
      ensures Stored()
      ensures if previous > 0 && (op == READ || lim.IsSafe(tree.nodes[c], op))
              then pageSet == [c] && freed == old(freed) + (set a | a in old(pageSet)) && !rootLocked && rootFreed
              else pageSet == old(pageSet) + [c] && freed == old(freed) && rootLocked == old(rootLocked) &&
                   rootFreed == old(rootFreed)
    {
      var safe := PageIsSafe(c, op);
      if previous > 0 && (op == READ || safe) {
        ReleaseAll();
      }
      pageSet := pageSet + [c];
    }

    // Unlatches the page set and the root id on the way down, before anything is marked for deletion.
    method ReleaseAll()
      requires deletedSet == {}
      modifies this`pageSet, this`rootLocked, this`freed, this`rootFreed
      ensures pageSet == [] && freed == old(freed) + (set a | a in old(pageSet)) && !rootLocked && rootFreed
    {
      freed := freed + (set a | a in pageSet);
      rootFreed := true;
      pageSet, rootLocked := [], false;
    }

    // A descent for the key has reached page cur.
    ghost predicate OnPath(cur: PageId, key: Key, op: OpType)
      reads this, pages
    {
      && Stored() && deletedSet == {}
      && Descended(tree, cur, key, pageSet, freed, nextPageId) && rootLocked == !rootFreed
      && (op != READ ==> Latched(tree, cur, pageSet, rootLocked, lim, op))
    }

    // The leaf that covers the key, or no page when the tree is empty.
    method FindLeafPage(key: Key, op: OpType) returns (leaf: PageId)
      requires Valid()
      modifies this`pageSet, this`rootLocked, this`freed, this`rootFreed
      ensures rootPageId == INVALID_PAGE_ID ==> leaf == INVALID_PAGE_ID && Valid()
      ensures rootPageId != INVALID_PAGE_ID ==> leaf in leaves && OnPath(leaf, key, op)
    {
      if rootPageId == INVALID_PAGE_ID {
        return INVALID_PAGE_ID;
      }
      LatchRoot(key, op);
      leaf := rootPageId;
      while leaf !in leaves
        modifies this`pageSet, this`rootLocked, this`freed, this`rootFreed
        invariant OnPath(leaf, key, op)
        decreases tree.span[leaf].level
      {
        leaf := StepDown(leaf, key, op);
      }
    }

    method LatchRoot(key: Key, op: OpType)
      requires Valid() && rootPageId != INVALID_PAGE_ID
      modifies this`pageSet, this`rootLocked, this`freed, this`rootFreed
      ensures OnPath(rootPageId, key, op)
    {
      freed, rootFreed, rootLocked := {}, false, true;
      CrabbingFetchPage(rootPageId, op, -1);
      assert pageSet == [rootPageId];
      DescendRoot(tree, key, nextPageId);
    }

    method NextPage(cur: PageId, key: Key) returns (c: PageId, ghost i: nat)
      requires Stored() && cur in internals && cur in tree.nodes && cur in tree.span &&
               KeysOK(tree.nodes[cur].slots, tree.span[cur]) && lim.SizeOK(tree.nodes[cur])
      ensures var ss := tree.nodes[cur].slots;
              && i < |ss| && c == ss[i].child
              && (i > 0 ==> ss[i].key <= key) && (i + 1 < |ss| ==> key < ss[i + 1].key)
    {
      assert tree.nodes[cur] == internals[cur].View();
      c, i := internals[cur].Lookup(key);
    }

    method StepDown(cur: PageId, key: Key, op: OpType) returns (c: PageId)
      requires OnPath(cur, key, op) && cur !in leaves && Sound(tree, lim, contents)
      modifies this`pageSet, this`rootLocked, this`freed, this`rootFreed
      ensures OnPath(c, key, op)
      ensures tree.span[c].level < tree.span[cur].level
    {
      c := ChooseChild(cur, key, op);
      CrabbingFetchPage(c, op, cur);
    }

    // The child that covers the key: the descent may go there keeping its latches, or releasing them
    // when the child is safe.
    method ChooseChild(cur: PageId, key: Key, op: OpType) returns (c: PageId)
      requires OnPath(cur, key, op) && cur !in leaves && Sound(tree, lim, contents)
      ensures c in tree.nodes && c in tree.span && cur in tree.span && tree.span[c].level < tree.span[cur].level &&
              cur > 0
      ensures Descended(tree, c, key, pageSet + [c], freed, nextPageId)
      ensures Descended(tree, c, key, [c], freed + (set a | a in pageSet), nextPageId)
      ensures op != READ ==> Latched(tree, c, pageSet + [c], rootLocked, lim, op)
      ensures op != READ && lim.IsSafe(tree.nodes[c], op) ==> Latched(tree, c, [c], false, lim, op)
    {
      assert PageOK(tree, cur);
      ghost var i;
      c, i := NextPage(cur, key);
      ChildCovers(tree, cur, key, i);
      DescendKeeping(tree, cur, c, key, pageSet, freed, nextPageId);
      DescendReleasing(tree, cur, c, key, pageSet, freed, nextPageId);
      if op != READ {
        LatchedDown(tree, cur, c, pageSet, rootLocked, lim, op);
      }
    }

    // --- the operations ---

    method GetValue(key: Key) returns (found: bool, value: RID)
      requires Valid()
      modifies this`leaves, this`internals, this`deletedSet, this`pageSet, this`rootLocked, this`freed, this`rootFreed
      ensures Valid() && tree == old(tree) && contents == old(contents)
      ensures found <==> key in contents
      ensures found ==> value == contents[key]
    {
      var leaf := FindLeafPage(key, READ);
      if leaf == INVALID_PAGE_ID {
        return false, RID(INVALID_PAGE_ID, -1);
      }
      found, value := LookIn(leaf, key);
      FreePagesInTransaction();
    }

    // Looking in the leaf that covers the key is looking in the tree.
    method LookIn(leaf: PageId, key: Key) returns (found: bool, value: RID)
      requires Stored() && Sound(tree, lim, contents)
      requires leaf in leaves && leaf in tree.nodes && Covers(tree.span[leaf], key)
      ensures found <==> key in contents
      ensures found ==> value == contents[key]
    {
      assert PageOK(tree, leaf);
      LookupDecides(tree, leaf, key, contents);
      found, value := leaves[leaf].Lookup(key);
      assert found ==> HoldsEntry(tree, leaf, Entry(key, value));
    }

    method StartNewTree(key: Key, value: RID)
      requires Valid() && rootPageId == INVALID_PAGE_ID
      modifies this`rootPageId, this`leaves, this`pages, this`nextPageId, this`tree, this`contents
      ensures Valid() && contents == map[key := value]
      ensures NewPages()
    {
      var r := NewLeafPage(INVALID_PAGE_ID);
      SetRoot(r, map[r := Span(Open, Open, 0)]);
      var size := InsertRecord(r, key, value);
      contents := map[key := value];
      assert tree.nodes[r] == Leaf(INVALID_PAGE_ID, [Entry(key, value)], INVALID_PAGE_ID);
      OnePageTree(tree, lim, r, Entry(key, value));
    }

    static lemma OnePageTree(t: Tree, lim: Limits, r: PageId, e: Entry)
      requires lim.Valid() && r != INVALID_PAGE_ID
      requires t == Tree(map[r := Leaf(INVALID_PAGE_ID, [e], INVALID_PAGE_ID)], r, map[r := Span(Open, Open, 0)])
      ensures Sound(t, lim, map[e.key := e.value])
    {
      assert HoldsEntry(t, r, e);
      assert PageOK(t, r);
    }

    method InsertIntoLeaf(key: Key, value: RID) returns (ok: bool)
      requires Valid() && rootPageId != INVALID_PAGE_ID
      modifies this, pages
      ensures Valid() && ok == (key !in old(contents))
      ensures contents == if ok then old(contents)[key := value] else old(contents)
      ensures !ok ==> tree == old(tree)
      ensures ok ==> SplitsOnlyFull(old(tree), lim, Entry(key, value), tree)
      ensures ReleasedUnchanged() && NewPages()
    {
      var leaf := FindLeafPage(key, INSERT);
      var found, _ := LookIn(leaf, key);
      if found {
        FreePagesInTransaction();
        return false;
      }
      InsertAbsent(leaf, key, value);
      return true;
    }

    method InsertAbsent(leaf: PageId, key: Key, value: RID)
      requires OnPath(leaf, key, INSERT) && leaf in leaves && Sound(tree, lim, contents) && key !in contents &&
               deletedSet == {}
      modifies this, pages
      ensures Valid() && contents == old(contents)[key := value] && ReleasedUnchanged() && NewPages()
      ensures SplitsOnlyFull(old(tree), lim, Entry(key, value), tree)
    {
      InsertAndClimb(leaf, key, value);
      FreePagesInTransaction();
    }

    // What the descent released is still what it was when the operation ends.
    twostate predicate ReleasedUnchanged()
      reads this
    {
      && (rootFreed ==> rootPageId == old(rootPageId))
      && forall f :: f in freed ==>
            f in old(tree).nodes && f in tree.nodes && old(tree).nodes[f].SameEntries(tree.nodes[f])
    }

    method PutInLeaf(leaf: PageId, key: Key, value: RID) returns (size: nat)
      requires OnPath(leaf, key, INSERT) && leaf in leaves && Sound(tree, lim, contents) && key !in contents
      modifies this`tree, leaves[leaf]
      ensures Stored() && OnlyPages() && Untouched(old(tree), tree, pageSet)
      ensures leaf in old(tree).nodes && old(tree).nodes[leaf].Leaf?
      ensures tree == SetEntries(old(tree), leaf, InsertEntry(old(tree).nodes[leaf].entries, Entry(key, value)))
      ensures size == old(tree).nodes[leaf].Size() + 1
      ensures if size <= lim.leafMax then Sound(tree, lim, contents[key := value])
              else Overflowed(tree, lim, leaf, contents[key := value]) &&
                   LatchedAbove(tree, leaf, pageSet, rootLocked, lim, INSERT)
    {
      LeafStep(tree, lim, leaf, Entry(key, value), contents, pageSet, rootLocked);
      assert PageOK(tree, leaf) && lim.SizeOK(tree.nodes[leaf]);
      size := InsertRecord(leaf, key, value);
    }

    ghost method SetContents(m: map<Key, RID>)
      requires Stored()
      modifies this`contents
      ensures Stored() && contents == m
    {
      contents := m;
    }

    method InsertAndClimb(leaf: PageId, key: Key, value: RID)
      requires OnPath(leaf, key, INSERT) && leaf in leaves && Sound(tree, lim, contents) && key !in contents
      modifies this`rootPageId, this`leaves, this`internals, this`pages, this`nextPageId, this`tree, this`pageSet,
               this`contents, pages
      ensures Stored() && Sound(tree, lim, contents) && contents == old(contents)[key := value]
      ensures ReleasedUnchanged() && NewPages()
      ensures SplitsOnlyFull(old(tree), lim, Entry(key, value), tree)
    {
      ghost var t, ps, next := tree, pageSet, nextPageId;
      assert forall p :: p in t.nodes ==> p < next;
      InsertAtLeaf(leaf, key, value);
      FreedUntouched(t, tree, freed, ps, pageSet, next);
    }

    method InsertAtLeaf(leaf: PageId, key: Key, value: RID)
      requires OnPath(leaf, key, INSERT) && leaf in leaves && Sound(tree, lim, contents) && key !in contents
      modifies this`rootPageId, this`leaves, this`internals, this`pages, this`nextPageId, this`tree, this`pageSet,
               this`contents, pages
      ensures Stored() && Sound(tree, lim, contents) && contents == old(contents)[key := value]
      ensures Untouched(old(tree), tree, pageSet) && AddsFresh(old(pageSet), pageSet, old(nextPageId))
      ensures rootPageId != old(rootPageId) ==> rootLocked
      ensures NewPages() && SplitsOnlyFull(old(tree), lim, Entry(key, value), tree)
    {
      ghost var t, ps := tree, pageSet;
      var size := PutInLeaf(leaf, key, value);
      SetContents(contents[key := value]);
      ghost var t2 := tree;
      SplitIfOverfull(leaf, size);
      UntouchedJoin(t, t2, tree, ps, pageSet);
      OnlyLeaf(t, lim, leaf, Entry(key, value), tree);
    }

    method SplitIfOverfull(leaf: PageId, size: nat)
      requires Stored() && leaf in leaves && LatchSet(pageSet, nextPageId) && leaf in pageSet
      requires if size <= lim.leafMax then Sound(tree, lim, contents)
               else Overflowed(tree, lim, leaf, contents) && LatchedAbove(tree, leaf, pageSet, rootLocked, lim, INSERT)
      modifies this`rootPageId, this`leaves, this`internals, this`pages, this`nextPageId, this`tree, this`pageSet, pages
      ensures Stored() && Sound(tree, lim, contents) && Untouched(old(tree), tree, pageSet)
      ensures AddsFresh(old(pageSet), pageSet, old(nextPageId))
      ensures rootPageId != old(rootPageId) ==> rootLocked
      ensures NewPages() && (size <= lim.leafMax ==> tree == old(tree))
    {
      if size > lim.leafMax {
        SplitLeafAndClimb(leaf);
      }
    }

    method Insert(key: Key, value: RID) returns (ok: bool)
      requires Valid()
      modifies this, pages
      ensures Valid() && ok == (key !in old(contents))
      ensures contents == if ok then old(contents)[key := value] else old(contents)
      ensures !ok ==> tree == old(tree)
      ensures ok ==> SplitsOnlyFull(old(tree), lim, Entry(key, value), tree)
      ensures old(rootPageId) != INVALID_PAGE_ID ==> ReleasedUnchanged()
      ensures NewPages()
    {
      if rootPageId == INVALID_PAGE_ID {
        StartNewTree(key, value);
        return true;
      }
      ok := InsertIntoLeaf(key, value);
    }

    method DropFromLeaf(leaf: PageId, key: Key) returns (short: bool)
      requires OnPath(leaf, key, DELETE) && leaf in leaves && Sound(tree, lim, contents)
      modifies this`tree, leaves[leaf]
      ensures Stored() && OnlyPages() && Untouched(old(tree), tree, pageSet)
      ensures leaf in old(tree).nodes && old(tree).nodes[leaf].Leaf?
      ensures tree == SetEntries(old(tree), leaf, RemoveKey(old(tree).nodes[leaf].entries, key))
      ensures short <==> tree.nodes[leaf].Size() < lim.MinSize(tree.nodes[leaf])
      ensures if short then Underflowed(tree, lim, leaf, contents - {key}) &&
              Holding(tree, lim, leaf, pageSet, rootLocked, freed, nextPageId)
              else Sound(tree, lim, contents - {key})
    {
      ghost var t := tree;
      LeafRemoval(t, lim, leaf, key, contents);
      assert PageOK(t, leaf);
      var size := RemoveRecord(leaf, key);
      var min := if leaves[leaf].parent == INVALID_PAGE_ID then 1 else lim.leafMax / 2;
      short := size < min;
      if short {
        LeafRemovalHolding(t, lim, leaf, key, pageSet, rootLocked, freed, nextPageId, tree);
      }
    }

    method RemoveAtLeaf(leaf: PageId, key: Key)
      requires OnPath(leaf, key, DELETE) && leaf in leaves && Sound(tree, lim, contents)
      modifies this`rootPageId, this`tree, this`deletedSet, this`pageSet, this`contents, pages
      ensures Settled() && contents == old(contents) - {key}
      ensures Untouched(old(tree), tree, pageSet) && (rootPageId != old(rootPageId) ==> rootLocked)
      ensures MergesOnlyShort(old(tree), lim, key, tree)
    {
      ghost var t, ps := tree, pageSet;
      var short := DropFromLeaf(leaf, key);
      SetContents(contents - {key});
      ghost var t2 := tree;
      MergeIfShort(leaf, short);
      UntouchedJoin(t, t2, tree, ps, pageSet);
      OnlyShortLeaf(t, lim, leaf, key, t2, short, tree);
    }

    method MergeIfShort(leaf: PageId, short: bool)
      requires if short then Climbing(leaf) else Settled() && rootPageId != INVALID_PAGE_ID
      modifies this`rootPageId, this`tree, this`deletedSet, this`pageSet, pages
      ensures Settled() && Untouched(old(tree), tree, pageSet)
      ensures LatchesKept() && (rootPageId != old(rootPageId) ==> rootLocked)
      ensures !short ==> tree == old(tree)
    {
      if short {
        CoalesceOrRedistribute(leaf);
      }
    }

    method RemoveAndClimb(leaf: PageId, key: Key)
      requires OnPath(leaf, key, DELETE) && leaf in leaves && Sound(tree, lim, contents)
      modifies this`rootPageId, this`tree, this`deletedSet, this`pageSet, this`contents, pages
      ensures Settled() && contents == old(contents) - {key} && ReleasedUnchanged()
      ensures MergesOnlyShort(old(tree), lim, key, tree)
    {
      RemoveAtLeaf(leaf, key);
    }

    method RemoveFound(leaf: PageId, key: Key)
      requires OnPath(leaf, key, DELETE) && leaf in leaves && Sound(tree, lim, contents) && deletedSet == {}
      modifies this, pages
      ensures Valid() && contents == old(contents) - {key} && ReleasedUnchanged() && pages == old(pages)
      ensures MergesOnlyShort(old(tree), lim, key, tree)
    {
      RemoveAndClimb(leaf, key);
      FreePagesInTransaction();
    }

    method Remove(key: Key)
      requires Valid()
      modifies this, pages
      ensures Valid() && contents == old(contents) - {key}
      ensures MergesOnlyShort(old(tree), lim, key, tree)
      ensures old(rootPageId) != INVALID_PAGE_ID ==> ReleasedUnchanged()
      ensures pages == old(pages)
    {
      if rootPageId != INVALID_PAGE_ID {
        var leaf := FindLeafPage(key, DELETE);
        RemoveFound(leaf, key);
      }
    }
  }
}
