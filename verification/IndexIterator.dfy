/**
 Range scans: an iterator walks the chain of leaves by their next page ids. Each step leads to
 the next key of the map that the tree stands for, so a scan lists that map in key order.
 */
module IndexIteration {
  import opened TreeTypes
  import opened TreeShape
  import opened TreeEntries
  import opened TreeInsert
  import opened BPlusTreeIndex

  // The entry at a position of a leaf.
  ghost predicate EntryAt(t: Tree, p: PageId, i: nat, e: Entry) {
    p in t.nodes && t.nodes[p].Leaf? && i < |t.nodes[p].entries| && t.nodes[p].entries[i] == e
  }

  // No key of m lies strictly between a and b.
  ghost predicate Adjacent(m: map<Key, RID>, a: Key, b: Key) {
    a < b && forall k :: k in m ==> k <= a || b <= k
  }

  // A key beyond an entry of leaf p is in p, or is not below p's upper bound.
  lemma KeyBeyond(t: Tree, m: map<Key, RID>, p: PageId, i: nat, e: Entry, k: Key)
    requires WellFormed(t) && Represents(t, m) && EntryAt(t, p, i, e) && k in m && e.key < k
    ensures (exists j :: i < j < |t.nodes[p].entries| && t.nodes[p].entries[j].key == k)
         || (t.span[p].hi.At? && t.span[p].hi.key <= k)
  {
    assert PageOK(t, p);
    var q :| HoldsEntry(t, q, Entry(k, m[k]));
    if Covers(t.span[p], k) {
      OnlyHere(t, p, q, Entry(k, m[k]));
      var es := t.nodes[p].entries;
      var j :| 0 <= j < |es| && es[j] == Entry(k, m[k]);
      assert j > i;
    }
  }

  lemma NextInLeaf(t: Tree, m: map<Key, RID>, p: PageId, i: nat, e: Entry, e2: Entry)
    requires WellFormed(t) && Represents(t, m) && EntryAt(t, p, i, e) && EntryAt(t, p, i + 1, e2)
    ensures Adjacent(m, e.key, e2.key)
  {
    assert PageOK(t, p);
    forall k | k in m
      ensures k <= e.key || e2.key <= k
    {
      if e.key < k {
        KeyBeyond(t, m, p, i, e, k);
      }
    }
  }

  lemma NextLeaf(t: Tree, lim: Limits, m: map<Key, RID>, p: PageId, i: nat, e: Entry)
    requires Sound(t, lim, m) && lim.Valid() && EntryAt(t, p, i, e) && i + 1 == |t.nodes[p].entries|
    ensures var n := t.nodes[p].next;
            if n == INVALID_PAGE_ID then forall k :: k in m ==> k <= e.key
            else n in t.nodes && t.nodes[n].Leaf? && |t.nodes[n].entries| > 0 &&
                 Adjacent(m, e.key, t.nodes[n].entries[0].key)
  {
    assert PageOK(t, p);
    var n := t.nodes[p].next;
    if n == INVALID_PAGE_ID {
      forall k | k in m
        ensures k <= e.key
      {
        if e.key < k {
          KeyBeyond(t, m, p, i, e, k);
        }
      }
    } else {
      NextLeafFirst(t, lim, m, p, i, e);
    }
  }

  lemma NextLeafFirst(t: Tree, lim: Limits, m: map<Key, RID>, p: PageId, i: nat, e: Entry)
    requires Sound(t, lim, m) && lim.Valid() && EntryAt(t, p, i, e) && i + 1 == |t.nodes[p].entries|
    requires t.nodes[p].next != INVALID_PAGE_ID
    ensures var n := t.nodes[p].next;
            n in t.nodes && t.nodes[n].Leaf? && |t.nodes[n].entries| > 0 &&
              Adjacent(m, e.key, t.nodes[n].entries[0].key)
  {
    assert PageOK(t, p);
    var n := t.nodes[p].next;
    assert PageOK(t, n) && lim.SizeOK(t.nodes[n]);
    RootKnown(t, n);
    var e2 := t.nodes[n].entries[0];
    forall k | k in m
      ensures k <= e.key || e2.key <= k
    {
      if e.key < k {
        KeyBeyond(t, m, p, i, e, k);
        if Covers(t.span[n], k) {
          FirstOfLeaf(t, m, n, k);
        }
      }
    }
  }

  // A search that found no pair in the leaf that covers the key: the next leaf starts with the least
  // key not below it.
  lemma NextLeafFrom(t: Tree, lim: Limits, m: map<Key, RID>, p: PageId, key: Key)
    requires Sound(t, lim, m) && lim.Valid() && p in t.nodes && t.nodes[p].Leaf? && Beyond(t, p, key)
    ensures var n := t.nodes[p].next;
            if n == INVALID_PAGE_ID then forall k :: k in m ==> k < key
            else n in t.nodes && t.nodes[n].Leaf? && |t.nodes[n].entries| > 0 &&
                 key <= t.nodes[n].entries[0].key && forall k :: k in m && key <= k ==> t.nodes[n].entries[0].key <= k
  {
    assert PageOK(t, p);
    var n := t.nodes[p].next;
    if n != INVALID_PAGE_ID {
      assert PageOK(t, n) && lim.SizeOK(t.nodes[n]);
      RootKnown(t, n);
    }
    forall k | k in m && key <= k
      ensures n != INVALID_PAGE_ID && t.nodes[n].entries[0].key <= k
    {
      NotInLeaf(t, m, p, key, k);
      if n != INVALID_PAGE_ID && Covers(t.span[n], k) {
        FirstOfLeaf(t, m, n, k);
      }
    }
  }

  lemma NextLeafFilled(t: Tree, lim: Limits, m: map<Key, RID>, p: PageId)
    requires Sound(t, lim, m) && lim.Valid() && p in t.nodes && t.nodes[p].Leaf? && t.nodes[p].next != INVALID_PAGE_ID
    ensures var n := t.nodes[p].next; n in t.nodes && t.nodes[n].Leaf? && |t.nodes[n].entries| > 0
  {
    assert PageOK(t, p);
    var n := t.nodes[p].next;
    assert PageOK(t, n) && lim.SizeOK(t.nodes[n]);
    RootKnown(t, n);
  }

  // The leaf covers the key and all its pairs lie below it.
  ghost predicate Beyond(t: Tree, p: PageId, key: Key) {
    && p in t.nodes && p in t.span && t.nodes[p].Leaf? && Covers(t.span[p], key)
    && forall j :: 0 <= j < |t.nodes[p].entries| ==> t.nodes[p].entries[j].key < key
  }

  lemma NotInLeaf(t: Tree, m: map<Key, RID>, p: PageId, key: Key, k: Key)
    requires WellFormed(t) && Represents(t, m) && Beyond(t, p, key) && k in m && key <= k
    ensures t.span[p].hi.At? && t.span[p].hi.key <= k
  {
    assert PageOK(t, p);
    var q :| HoldsEntry(t, q, Entry(k, m[k]));
    if Covers(t.span[p], k) {
      OnlyHere(t, p, q, Entry(k, m[k]));
    }
  }

  lemma FirstOfLeaf(t: Tree, m: map<Key, RID>, p: PageId, k: Key)
    requires WellFormed(t) && Represents(t, m) && p in t.nodes && t.nodes[p].Leaf? && Covers(t.span[p], k) && k in m
    ensures |t.nodes[p].entries| > 0 && t.nodes[p].entries[0].key <= k
  {
    assert PageOK(t, p);
    var q :| HoldsEntry(t, q, Entry(k, m[k]));
    OnlyHere(t, p, q, Entry(k, m[k]));
  }

  // The leftmost leaf starts with the least key.
  lemma LeftmostFirst(t: Tree, lim: Limits, m: map<Key, RID>, p: PageId)
    requires Sound(t, lim, m) && lim.Valid() && p in t.nodes && t.nodes[p].Leaf? && t.span[p].lo.Open?
    ensures |t.nodes[p].entries| > 0 && forall k :: k in m ==> t.nodes[p].entries[0].key <= k
  {
    assert PageOK(t, p) && lim.SizeOK(t.nodes[p]);
    RootKnown(t, p);
    var e := t.nodes[p].entries[0];
    forall k | k in m
      ensures e.key <= k
    {
      if Covers(t.span[p], k) {
        FirstOfLeaf(t, m, p, k);
      }
    }
  }

  // A search for a key stops at the least key not below it, exactly when its leaf holds such a key.
  lemma SearchStart(t: Tree, m: map<Key, RID>, p: PageId, key: Key)
    requires WellFormed(t) && Represents(t, m) && p in t.nodes && t.nodes[p].Leaf? && Covers(t.span[p], key)
    ensures var es := t.nodes[p].entries;
            var i := LowerBound(es, key);
            && (i < |es| <==> exists j :: 0 <= j < |es| && key <= es[j].key)
            && (i < |es| ==> es[i].key in m && key <= es[i].key && forall k :: k in m && key <= k ==> es[i].key <= k)
            && (key in m ==> i < |es| && es[i].key == key)
  {
    assert PageOK(t, p);
    var es := t.nodes[p].entries;
    var i := LowerBound(es, key);
    LookupDecides(t, p, key, m);
    if i < |es| {
      assert HoldsEntry(t, p, es[i]);
      forall k | k in m && key <= k
        ensures es[i].key <= k
      {
        if Covers(t.span[p], k) {
          var q :| HoldsEntry(t, q, Entry(k, m[k]));
          OnlyHere(t, p, q, Entry(k, m[k]));
        } else {
          assert Covers(t.span[p], es[i].key);
        }
      }
    }
  }

  class IndexIterator {
    const index: BPlusTree
    var leaf: PageId
    var position: nat

    ghost predicate Valid()
      reads this, index, index.pages
    {
      && index.Valid()
      && (leaf != INVALID_PAGE_ID ==> leaf in index.leaves && position < index.leaves[leaf].size)
    }

    // A usable position, or one past the last pair of a leaf.
    ghost predicate Standing()
      reads this, index, index.pages
    {
      && index.Valid()
      && (leaf != INVALID_PAGE_ID ==> leaf in index.leaves && position <= index.leaves[leaf].size)
    }

    ghost function Current(): Entry
      requires Valid() && leaf != INVALID_PAGE_ID
      reads this, index, index.pages
    {
      index.leaves[leaf].arr[position]
    }

    constructor (index: BPlusTree, leaf: PageId, position: nat)
      ensures this.index == index && this.leaf == leaf && this.position == position
    {
      this.index, this.leaf, this.position := index, leaf, position;
    }

    predicate IsEnd()
      reads this
    {
      leaf == INVALID_PAGE_ID
    }

    // The keys still to come, the current one included.
    ghost function Rest(): set<Key>
      requires Valid()
      reads this, index, index.pages
    {
      set k | k in index.contents && !IsEnd() && Current().key <= k
    }

    lemma CurrentIsAt()
      requires Valid() && leaf != INVALID_PAGE_ID
      ensures EntryAt(index.tree, leaf, position, Current())
      ensures index.rootPageId != INVALID_PAGE_ID && Sound(index.tree, index.lim, index.contents)
      ensures Current().key in index.contents && index.contents[Current().key] == Current().value
    {
      assert index.tree.nodes[leaf] == index.leaves[leaf].View();
      assert HoldsEntry(index.tree, leaf, Current());
    }

    // At the least key not below the given one, or at the end when there is none.
    ghost predicate AtLeast(key: Key)
      requires Valid()
      reads this, index, index.pages
    {
      if IsEnd() then forall k :: k in index.contents ==> k < key
      else key <= Current().key && forall k :: k in index.contents && key <= k ==> Current().key <= k
    }

    // Moves to the next key of the map, or to the end when there is none. From one past the last pair
    // of a leaf it moves to the least key not below any key that a search ends there for.
    method Next()
      requires Standing() && !IsEnd()
      modifies this
      ensures Valid()
      ensures old(Valid()) && IsEnd() ==> forall k :: k in index.contents ==> k <= old(Current()).key
      ensures old(Valid()) && !IsEnd() ==> Adjacent(index.contents, old(Current()).key, Current().key)
      ensures !old(Valid()) ==> forall key :: Beyond(index.tree, old(leaf), key) ==> AtLeast(key)
    {
      ghost var p, i, usable := leaf, position, Valid();
      if usable {
        CurrentIsAt();
      }
      ghost var e := index.leaves[leaf].arr[if usable then position else 0];
      position := position + 1;
      if position >= index.leaves[leaf].size {
        assert index.tree.nodes[leaf] == index.leaves[leaf].View();
        if usable {
          NextLeaf(index.tree, index.lim, index.contents, p, i, e);
        }
        GoToNextLeaf();
      } else {
        NextInLeaf(index.tree, index.contents, p, i, e, Current());
      }
    }

    // To the first pair of the next leaf, or to the end.
    method GoToNextLeaf()
      requires index.Valid() && leaf in index.leaves
      modifies this
      ensures Valid() && leaf == index.leaves[old(leaf)].next
      ensures leaf != INVALID_PAGE_ID ==> leaf in index.tree.nodes && EntryAt(index.tree, leaf, 0, Current())
      ensures forall key :: Beyond(index.tree, old(leaf), key) ==> AtLeast(key)
    {
      ghost var p := leaf;
      assert index.tree.nodes[leaf] == index.leaves[leaf].View();
      var next := index.leaves[leaf].next;
      leaf := next;
      position := 0;
      if next != INVALID_PAGE_ID {
        NextLeafFilled(index.tree, index.lim, index.contents, p);
        assert index.tree.nodes[next] == index.leaves[next].View();
        CurrentIsAt();
      }
      forall key | Beyond(index.tree, p, key) ensures AtLeast(key) {
        NextLeafFrom(index.tree, index.lim, index.contents, p, key);
      }
    }
  }

  // Descends along the first children.
  method FindLeftmostLeaf(b: BPlusTree) returns (leaf: PageId)
    requires b.Valid()
    ensures b.rootPageId == INVALID_PAGE_ID ==> leaf == INVALID_PAGE_ID
    ensures b.rootPageId != INVALID_PAGE_ID ==>
              leaf in b.leaves && leaf in b.tree.span && b.tree.span[leaf].lo.Open?
  {
    leaf := b.rootPageId;
    if leaf == INVALID_PAGE_ID {
      return;
    }
    assert PageOK(b.tree, leaf);
    while leaf !in b.leaves
      invariant leaf in b.tree.nodes && b.tree.span[leaf].lo.Open?
      decreases b.tree.span[leaf].level
    {
      assert PageOK(b.tree, leaf);
      assert ChildOK(b.tree, leaf, b.tree.nodes[leaf].slots, 0);
      assert b.internals[leaf].arr[0] == b.tree.nodes[leaf].slots[0];
      leaf := b.internals[leaf].arr[0].child;
    }
  }

  // Begin(): at the least key, or at the end of an empty tree.
  method Begin(b: BPlusTree) returns (it: IndexIterator)
    requires b.Valid()
    ensures fresh(it) && it.index == b && it.Valid()
    ensures it.IsEnd() <==> b.contents == map[]
    ensures !it.IsEnd() ==> forall k :: k in b.contents ==> it.Current().key <= k
  {
    var leaf := FindLeftmostLeaf(b);
    if leaf != INVALID_PAGE_ID {
      LeftmostFirst(b.tree, b.lim, b.contents, leaf);
      assert b.tree.nodes[leaf] == b.leaves[leaf].View();
      assert HoldsEntry(b.tree, leaf, b.leaves[leaf].arr[0]);
    }
    it := new IndexIterator(b, leaf, 0);
  }

  // Where a search for the key ends up.
  method Locate(b: BPlusTree, key: Key) returns (leaf: PageId, i: nat)
    requires b.Valid()
    modifies b`pageSet, b`rootLocked, b`freed, b`rootFreed, b`leaves, b`internals, b`deletedSet
    ensures b.Valid() && b.contents == old(b.contents) && b.tree == old(b.tree)
    ensures leaf == INVALID_PAGE_ID <==> b.rootPageId == INVALID_PAGE_ID
    ensures leaf != INVALID_PAGE_ID ==>
              leaf in b.leaves && Covers(b.tree.span[leaf], key) && i == LowerBound(b.tree.nodes[leaf].entries, key)
  {
    leaf := b.FindLeafPage(key, READ);
    i := 0;
    if leaf != INVALID_PAGE_ID {
      i := IndexIn(b, leaf, key);
      b.FreePagesInTransaction();
    }
  }

  method IndexIn(b: BPlusTree, leaf: PageId, key: Key) returns (i: nat)
    requires b.OnPath(leaf, key, READ) && leaf in b.leaves && Sound(b.tree, b.lim, b.contents)
    ensures leaf in b.tree.nodes && leaf in b.tree.span && b.tree.nodes[leaf].Leaf?
    ensures Covers(b.tree.span[leaf], key) && i == LowerBound(b.tree.nodes[leaf].entries, key)
  {
    assert PageOK(b.tree, leaf);
    i := b.leaves[leaf].KeyIndex(key);
  }

  // Begin(key): at a usable position exactly when the leaf that covers the key holds a key not
  // below it, and then at the least such key. Otherwise the position is one past the last pair.
  method BeginAt(b: BPlusTree, key: Key) returns (it: IndexIterator)
    requires b.Valid()
    modifies b`pageSet, b`rootLocked, b`freed, b`rootFreed, b`leaves, b`internals, b`deletedSet
    ensures b.Valid() && b.contents == old(b.contents) && fresh(it) && it.index == b
    ensures it.IsEnd() <==> b.rootPageId == INVALID_PAGE_ID
    ensures !it.IsEnd() ==> it.leaf in b.leaves && Covers(b.tree.span[it.leaf], key)
    ensures !it.IsEnd() ==>
              (it.Valid() <==> exists j ::
                0 <= j < b.leaves[it.leaf].size && key <= b.leaves[it.leaf].arr[..b.leaves[it.leaf].size][j].key)
    ensures !it.IsEnd() && it.Valid() ==> key <= it.Current().key && forall k :: k in b.contents && key <= k ==>
            it.Current().key <= k
    ensures key in b.contents ==> it.Valid() && !it.IsEnd() && it.Current().key == key
    ensures it.Standing() && (!it.Valid() ==> Beyond(b.tree, it.leaf, key))
  {
    var leaf, i := Locate(b, key);
    if leaf != INVALID_PAGE_ID {
      SearchStart(b.tree, b.contents, leaf, key);
      assert b.tree.nodes[leaf] == b.leaves[leaf].View();
    }
    it := new IndexIterator(b, leaf, i);
  }

  // A scan from a position lists the keys from there on, in increasing order.
  method ScanFrom(it: IndexIterator) returns (out: seq<Entry>)
    requires it.Valid()
    modifies it
    ensures SortedEntries(out)
    ensures forall e :: e in out <==> e.key in old(it.Rest()) && it.index.contents[e.key] == e.value
  {
    out := [];
    ghost var all, m, rest := it.Rest(), it.index.contents, it.Rest();
    while !it.IsEnd()
      invariant it.Valid() && rest == it.Rest() && SortedEntries(out) && Listed(out, all, rest, m)
      invariant !it.IsEnd() ==> forall e :: e in out ==> e.key < it.Current().key
      decreases rest
    {
      var e := Take(it);
      ListMore(out, all, rest, m, e);
      out := out + [e];
      rest := rest - {e.key};
    }
  }

  // Reads the current pair and moves on.
  method Take(it: IndexIterator) returns (e: Entry)
    requires it.Valid() && !it.IsEnd()
    modifies it
    ensures it.Valid() && e == old(it.Current()) && e.key in old(it.Rest()) && it.index.contents[e.key] == e.value
    ensures it.Rest() == old(it.Rest()) - {e.key}
    ensures !it.IsEnd() ==> e.key < it.Current().key
  {
    it.CurrentIsAt();
    e := it.index.leaves[it.leaf].arr[it.position];
    it.Next();
  }

  // What is listed is what is gone from the rest.
  ghost predicate Listed(out: seq<Entry>, all: set<Key>, rest: set<Key>, m: map<Key, RID>) {
    rest <= all <= m.Keys && forall e :: e in out <==> e.key in all && e.key !in rest && m[e.key] == e.value
  }

  lemma ListMore(out: seq<Entry>, all: set<Key>, rest: set<Key>, m: map<Key, RID>, e: Entry)
    requires Listed(out, all, rest, m) && SortedEntries(out) && e.key in rest && m[e.key] == e.value
    requires forall x :: x in out ==> x.key < e.key
    ensures Listed(out + [e], all, rest - {e.key}, m) && SortedEntries(out + [e])
  {
    assert forall i :: 0 <= i < |out| ==> out[i] in out;
  }

  // A full scan lists the map in key order.
  method Scan(b: BPlusTree) returns (out: seq<Entry>)
    requires b.Valid()
    ensures SortedEntries(out)
    ensures forall e :: e in out <==> e.key in b.contents && b.contents[e.key] == e.value
  {
    var it := Begin(b);
    assert it.Rest() == b.contents.Keys;
    out := ScanFrom(it);
  }

  // From Begin(key), after one step where the position is past the last pair of its leaf.
  method StartAt(b: BPlusTree, key: Key) returns (it: IndexIterator)
    requires b.Valid()
    modifies b`pageSet, b`rootLocked, b`freed, b`rootFreed, b`leaves, b`internals, b`deletedSet
    ensures b.Valid() && b.contents == old(b.contents) && fresh(it) && it.index == b
    ensures it.Valid() && it.AtLeast(key)
  {
    it := BeginAt(b, key);
    if !it.IsEnd() && it.position >= b.leaves[it.leaf].size {
      it.Next();
    }
  }

  // A scan from there lists exactly the pairs with keys not below the given one, in key order.
  method ScanAt(b: BPlusTree, key: Key) returns (out: seq<Entry>)
    requires b.Valid()
    modifies b`pageSet, b`rootLocked, b`freed, b`rootFreed, b`leaves, b`internals, b`deletedSet
    ensures b.Valid() && b.contents == old(b.contents) && SortedEntries(out)
    ensures forall e :: e in out <==> e.key in b.contents && key <= e.key && b.contents[e.key] == e.value
  {
    var it := StartAt(b, key);
    assert it.Rest() == set k | k in b.contents && key <= k;
    out := ScanFrom(it);
  }
}
