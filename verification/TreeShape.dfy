/**
 The shape of a B+ tree stored as pages. Every page is given the span of keys that the
 separators above it leave to it, and its level above the leaves. The tree is well formed
 when each page agrees with its parent and its children about those, page by page.
 */
module TreeShape {
  import opened TreeTypes

  datatype Bound = Open | At(key: Key)
  datatype Span = Span(lo: Bound, hi: Bound, level: nat)
  datatype Tree = Tree(nodes: map<PageId, Node>, root: PageId, span: map<PageId, Span>)

  ghost function Put(t: Tree, p: PageId, n: Node): Tree {
    t.(nodes := t.nodes[p := n])
  }

  predicate Covers(s: Span, k: Key) {
    (s.lo.At? ==> s.lo.key <= k) && (s.hi.At? ==> k < s.hi.key)
  }

  // Strictly inside the span: a legal separator.
  predicate Inside(s: Span, k: Key) {
    (s.lo.At? ==> s.lo.key < k) && (s.hi.At? ==> k < s.hi.key)
  }

  function SlotLo(ss: seq<Slot>, s: Span, i: nat): Bound
    requires i < |ss|
  {
    if i == 0 then s.lo else At(ss[i].key)
  }

  function SlotHi(ss: seq<Slot>, s: Span, i: nat): Bound
    requires i < |ss|
  {
    if i + 1 == |ss| then s.hi else At(ss[i + 1].key)
  }

  ghost predicate ChildOK(t: Tree, p: PageId, ss: seq<Slot>, i: nat)
    requires p in t.span && t.span[p].level > 0 && i < |ss|
  {
    var c := ss[i].child;
    && c in t.nodes && c in t.span
    && t.nodes[c].parent == p
    && t.span[c] == Span(SlotLo(ss, t.span[p], i), SlotHi(ss, t.span[p], i), t.span[p].level - 1)
  }

  // Separators are strictly increasing inside the span. The key of slot 0, which no search
  // reads, still equals the nearest separator to the left, wherever there is one.
  ghost predicate KeysOK(ss: seq<Slot>, s: Span) {
    && |ss| > 0
    && (s.lo.At? ==> ss[0].key == s.lo.key)
    && (forall i, j :: 1 <= i < j < |ss| ==> ss[i].key < ss[j].key)
    && (forall i :: 1 <= i < |ss| ==> Inside(s, ss[i].key))
  }

  ghost predicate InternalOK(t: Tree, p: PageId, ss: seq<Slot>)
    requires p in t.span
  {
    && t.span[p].level > 0
    && KeysOK(ss, t.span[p])
    && forall i {:trigger ChildOK(t, p, ss, i)} :: 0 <= i < |ss| ==> ChildOK(t, p, ss, i)
  }

  ghost predicate LeafOK(t: Tree, p: PageId, es: seq<Entry>, next: PageId)
    requires p in t.span
  {
    && t.span[p].level == 0
    && SortedEntries(es)
    && (forall i :: 0 <= i < |es| ==> Covers(t.span[p], es[i].key))
    && (if t.span[p].hi.Open? then next == INVALID_PAGE_ID
        else next in t.nodes && next in t.span && t.nodes[next].Leaf? && t.span[next].lo == t.span[p].hi)
  }

  predicate HasChild(n: Node, c: PageId) {
    n.Internal? && IndexOf(n.slots, c) < |n.slots|
  }

  ghost predicate ParentOK(t: Tree, p: PageId)
    requires p in t.nodes && p in t.span && t.root in t.span
  {
    if p == t.root then
      t.nodes[p].parent == INVALID_PAGE_ID && t.span[p].lo.Open? && t.span[p].hi.Open?
    else
      var q := t.nodes[p].parent;
      && q in t.nodes && q in t.span
      && HasChild(t.nodes[q], p)
      && t.span[q].level == t.span[p].level + 1 <= t.span[t.root].level
  }

  ghost predicate NonEmpty(s: Span) {
    s.lo.At? && s.hi.At? ==> s.lo.key < s.hi.key
  }

  ghost predicate PageOK(t: Tree, p: PageId)
    requires p in t.nodes && p in t.span && t.root in t.span
  {
    && ParentOK(t, p)
    && NonEmpty(t.span[p])
    && match t.nodes[p]
       case Leaf(_, es, next) => LeafOK(t, p, es, next)
       case Internal(_, ss) => InternalOK(t, p, ss)
  }

  ghost predicate WellFormed(t: Tree) {
    && t.nodes.Keys == t.span.Keys
    && INVALID_PAGE_ID !in t.nodes
    && t.root in t.nodes
    && forall p {:trigger PageOK(t, p)} :: p in t.nodes ==> PageOK(t, p)
  }

  // Every page other than exc respects the size thresholds.
  ghost predicate SizesOK(t: Tree, lim: Limits, exc: PageId) {
    forall p :: p in t.nodes && p != exc ==> lim.SizeOK(t.nodes[p])
  }

  ghost predicate HoldsEntry(t: Tree, p: PageId, e: Entry) {
    p in t.nodes && t.nodes[p].Leaf? && e in t.nodes[p].entries
  }

  // The leaves hold exactly the pairs of m.
  ghost predicate Represents(t: Tree, m: map<Key, RID>) {
    && (forall p, e :: HoldsEntry(t, p, e) ==> e.key in m && m[e.key] == e.value)
    && (forall k :: k in m ==> exists p :: HoldsEntry(t, p, Entry(k, m[k])))
  }

  // --- at each level, one page covers each key ---

  lemma {:induction false} UniqueCover(t: Tree, p: PageId, q: PageId, k: Key)
    requires WellFormed(t) && p in t.nodes && q in t.nodes
    requires t.span[p].level == t.span[q].level
    requires Covers(t.span[p], k) && Covers(t.span[q], k)
    ensures p == q
    decreases t.span[t.root].level - t.span[p].level
  {
    assert PageOK(t, p) && PageOK(t, q);
    if p != t.root && q != t.root {
      var pp, qq := t.nodes[p].parent, t.nodes[q].parent;
      assert PageOK(t, pp) && PageOK(t, qq);
      var i, j := IndexOf(t.nodes[pp].slots, p), IndexOf(t.nodes[qq].slots, q);
      assert ChildOK(t, pp, t.nodes[pp].slots, i) && ChildOK(t, qq, t.nodes[qq].slots, j);
      ChildSpanWithin(t, pp, i, k);
      ChildSpanWithin(t, qq, j, k);
      UniqueCover(t, pp, qq, k);
    }
  }

  // A child's span lies inside its parent's.
  lemma ChildSpanWithin(t: Tree, p: PageId, i: nat, k: Key)
    requires WellFormed(t) && p in t.nodes && t.nodes[p].Internal? && i < |t.nodes[p].slots|
    requires var c := t.nodes[p].slots[i].child; c in t.span && Covers(t.span[c], k)
    ensures Covers(t.span[p], k)
  {
    assert PageOK(t, p);
    var ss := t.nodes[p].slots;
    assert ChildOK(t, p, ss, i);
    if i > 0 {
      assert Inside(t.span[p], ss[i].key);
    }
    if i + 1 < |ss| {
      assert Inside(t.span[p], ss[i + 1].key);
    }
  }
}
