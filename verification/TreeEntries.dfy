/**
 Changing the pairs of one leaf: what an insert or a removal in the leaf that covers the key
 does to the contents of the whole tree, and why looking in that leaf alone decides a lookup.
 */
module TreeEntries {
  import opened TreeTypes
  import opened TreeShape
  import opened TreeSplit

  ghost function SetEntries(t: Tree, p: PageId, es: seq<Entry>): Tree
    requires p in t.nodes && t.nodes[p].Leaf?
  {
    Put(t, p, t.nodes[p].(entries := es))
  }

  lemma HasKeyMeans(es: seq<Entry>, k: Key)
    requires SortedEntries(es)
    ensures HasKey(es, k) <==> exists e :: e in es && e.key == k
  {
    var i := LowerBound(es, k);
    if HasKey(es, k) {
      assert es[i] in es;
    }
  }

  lemma InsertEntryMembers(es: seq<Entry>, e: Entry)
    requires SortedEntries(es)
    ensures forall x :: x in InsertEntry(es, e) <==> x in es || x == e
  {
    var i := LowerBound(es, e.key);
    assert es == es[..i] + es[i..];
  }

  lemma InsertEntrySorted(es: seq<Entry>, e: Entry)
    requires SortedEntries(es) && !HasKey(es, e.key)
    ensures SortedEntries(InsertEntry(es, e))
    ensures forall x :: x in InsertEntry(es, e) <==> x in es || x == e
  {
    InsertEntryMembers(es, e);
    var i, r := LowerBound(es, e.key), InsertEntry(es, e);
    assert forall a {:trigger r[a]} :: 0 <= a < |r| ==> r[a] == if a < i then es[a] else if a == i then e
      else es[a - 1];
  }

  // The pairs left are those before and those behind the key.
  lemma RemoveKeyPairs(es: seq<Entry>, k: Key)
    requires HasKey(es, k)
    ensures var i, r := LowerBound(es, k), RemoveKey(es, k);
            |r| == |es| - 1 && forall a {:trigger r[a]} :: 0 <= a < |r| ==> r[a] == es[if a < i then a else a + 1]
  {
    CutAt(es, LowerBound(es, k));
  }

  lemma CutAt(es: seq<Entry>, i: nat)
    requires i < |es|
    ensures var r := es[..i] + es[i + 1..];
            |r| == |es| - 1 && forall a {:trigger r[a]} :: 0 <= a < |r| ==> r[a] == es[if a < i then a else a + 1]
  {}

  lemma RemoveKeyMembers(es: seq<Entry>, k: Key)
    requires SortedEntries(es) && HasKey(es, k)
    ensures forall x :: x in RemoveKey(es, k) <==> x in es && x.key != k
  {
    var i, r := LowerBound(es, k), RemoveKey(es, k);
    RemoveKeyPairs(es, k);
    forall x ensures x in r <==> x in es && x.key != k {
      if x in es && x.key != k {
        var b :| 0 <= b < |es| && es[b] == x;
        assert r[if b < i then b else b - 1] == x;
      }
    }
  }

  lemma RemoveKeySorted(es: seq<Entry>, k: Key)
    requires SortedEntries(es)
    ensures SortedEntries(RemoveKey(es, k))
    ensures forall x :: x in RemoveKey(es, k) <==> x in es && x.key != k
    ensures |RemoveKey(es, k)| == if HasKey(es, k) then |es| - 1 else |es|
  {
    if HasKey(es, k) {
      RemoveKeyPairs(es, k);
      RemoveKeyMembers(es, k);
    } else {
      HasKeyMeans(es, k);
    }
  }

  lemma SetEntriesWellFormed(t: Tree, p: PageId, es: seq<Entry>)
    requires WellFormed(t) && p in t.nodes && t.nodes[p].Leaf?
    requires SortedEntries(es) && forall i :: 0 <= i < |es| ==> Covers(t.span[p], es[i].key)
    ensures WellFormed(SetEntries(t, p, es))
  {
    var t2 := SetEntries(t, p, es);
    forall q | q in t2.nodes
      ensures PageOK(t2, q)
    {
      assert PageOK(t, q);
      if t.nodes[q].Internal? {
        var ss := t.nodes[q].slots;
        forall j | 0 <= j < |ss|
          ensures ChildOK(t2, q, ss, j)
        {
          assert ChildOK(t, q, ss, j);
        }
      }
    }
  }

  // A key that the leaf covers is in no other leaf.
  lemma OnlyHere(t: Tree, p: PageId, q: PageId, e: Entry)
    requires WellFormed(t) && p in t.nodes && t.nodes[p].Leaf? && Covers(t.span[p], e.key)
    requires HoldsEntry(t, q, e)
    ensures p == q
  {
    assert PageOK(t, p) && PageOK(t, q);
    UniqueCover(t, p, q, e.key);
  }

  lemma LookupDecides(t: Tree, p: PageId, k: Key, m: map<Key, RID>)
    requires WellFormed(t) && Represents(t, m)
    requires p in t.nodes && t.nodes[p].Leaf? && Covers(t.span[p], k)
    ensures HasKey(t.nodes[p].entries, k) <==> k in m
  {
    assert PageOK(t, p);
    var es := t.nodes[p].entries;
    HasKeyMeans(es, k);
    if k in m {
      var q :| HoldsEntry(t, q, Entry(k, m[k]));
      OnlyHere(t, p, q, Entry(k, m[k]));
      assert Entry(k, m[k]) in es;
    }
    if HasKey(es, k) {
      assert HoldsEntry(t, p, es[LowerBound(es, k)]);
    }
  }

  lemma InsertInLeaf(t: Tree, p: PageId, e: Entry, m: map<Key, RID>)
    requires WellFormed(t) && Represents(t, m)
    requires p in t.nodes && t.nodes[p].Leaf? && Covers(t.span[p], e.key) && e.key !in m
    ensures var t2 := SetEntries(t, p, InsertEntry(t.nodes[p].entries, e));
            WellFormed(t2) && Represents(t2, m[e.key := e.value])
  {
    assert PageOK(t, p);
    LookupDecides(t, p, e.key, m);
    var es := t.nodes[p].entries;
    var es2 := InsertEntry(es, e);
    InsertEntrySorted(es, e);
    forall i | 0 <= i < |es2|
      ensures Covers(t.span[p], es2[i].key)
    {
      assert es2[i] in es2;
    }
    SetEntriesWellFormed(t, p, es2);
    InsertRepresents(t, p, e, m);
  }

  lemma InsertRepresents(t: Tree, p: PageId, e: Entry, m: map<Key, RID>)
    requires Represents(t, m) && e.key !in m
    requires p in t.nodes && t.nodes[p].Leaf?
    requires forall x :: x in InsertEntry(t.nodes[p].entries, e) <==> x in t.nodes[p].entries || x == e
    ensures Represents(SetEntries(t, p, InsertEntry(t.nodes[p].entries, e)), m[e.key := e.value])
  {
    var t2, m2 := SetEntries(t, p, InsertEntry(t.nodes[p].entries, e)), m[e.key := e.value];
    forall q, x | HoldsEntry(t2, q, x)
      ensures x.key in m2 && m2[x.key] == x.value
    {
      assert x == e || HoldsEntry(t, q, x);
    }
    forall k | k in m2
      ensures exists q :: HoldsEntry(t2, q, Entry(k, m2[k]))
    {
      if k == e.key {
        assert HoldsEntry(t2, p, Entry(k, m2[k]));
      } else {
        var q :| HoldsEntry(t, q, Entry(k, m[k]));
        assert HoldsEntry(t2, q, Entry(k, m2[k]));
      }
    }
  }

  lemma RemoveInLeaf(t: Tree, p: PageId, k: Key, m: map<Key, RID>)
    requires WellFormed(t) && Represents(t, m)
    requires p in t.nodes && t.nodes[p].Leaf? && Covers(t.span[p], k)
    ensures var t2 := SetEntries(t, p, RemoveKey(t.nodes[p].entries, k));
            WellFormed(t2) && Represents(t2, m - {k})
  {
    assert PageOK(t, p);
    var es := t.nodes[p].entries;
    var es2 := RemoveKey(es, k);
    RemoveKeySorted(es, k);
    forall i | 0 <= i < |es2|
      ensures Covers(t.span[p], es2[i].key)
    {
      assert es2[i] in es2;
    }
    SetEntriesWellFormed(t, p, es2);
    var t2, m2 := SetEntries(t, p, es2), m - {k};
    forall q, x | HoldsEntry(t2, q, x)
      ensures x.key in m2 && m2[x.key] == x.value
    {
      assert HoldsEntry(t, q, x);
      if x.key == k {
        OnlyHere(t, p, q, x);
      }
    }
    forall j | j in m2
      ensures exists q :: HoldsEntry(t2, q, Entry(j, m2[j]))
    {
      var q :| HoldsEntry(t, q, Entry(j, m[j]));
      assert HoldsEntry(t2, q, Entry(j, m2[j]));
    }
  }
}
