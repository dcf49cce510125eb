/**
 What the size thresholds mean for a whole tree: every page off the root is at least half full, a
 page is released only when the operation cannot reach its parent, and the number of pairs grows
 exponentially with the height.
 */
module TreeSizes {
  import opened TreeTypes
  import opened TreeShape
  import opened TreeSplit
  import opened TreeEntries
  import opened TreeInsert

  // --- one page ---

  // A size is legal exactly when the page holds no more than its capacity and, with one pair more,
  // at least half of it; a root needs one pair or two children.
  lemma SizeOKIff(lim: Limits, n: Node)
    ensures n.Leaf? ==>
              (lim.SizeOK(n) <==>
               |n.entries| <= lim.leafMax
               && if n.parent == INVALID_PAGE_ID then n.entries != [] else 2 * |n.entries| + 1 >= lim.leafMax)
    ensures n.Internal? ==>
              (lim.SizeOK(n) <==>
               |n.slots| <= lim.internalMax
               && if n.parent == INVALID_PAGE_ID then |n.slots| > 1 else 2 * |n.slots| + 1 >= lim.internalMax)
  {
    assert 2 * (lim.leafMax / 2) <= lim.leafMax <= 2 * (lim.leafMax / 2) + 1;
    assert 2 * (lim.internalMax / 2) <= lim.internalMax <= 2 * (lim.internalMax / 2) + 1;
  }

  lemma HalfFull(t: Tree, lim: Limits, m: map<Key, RID>, p: PageId)
    requires Sound(t, lim, m) && p in t.nodes
    ensures t.nodes[p].Leaf? ==>
              && |t.nodes[p].entries| <= lim.leafMax
              && if p == t.root then t.nodes[p].entries != [] else 2 * |t.nodes[p].entries| + 1 >= lim.leafMax
    ensures t.nodes[p].Internal? ==>
              && |t.nodes[p].slots| <= lim.internalMax
              && if p == t.root then |t.nodes[p].slots| > 1 else 2 * |t.nodes[p].slots| + 1 >= lim.internalMax
  {
    assert lim.SizeOK(t.nodes[p]);
    RootKnown(t, p);
    SizeOKIff(lim, t.nodes[p]);
  }

  // The page with k pairs more, or fewer, has a legal size; which pairs they are does not matter.
  ghost predicate LegalWith(lim: Limits, n: Node, k: int) {
    exists n2: Node :: n2.Leaf? == n.Leaf? && n2.parent == n.parent && n2.Size() == n.Size() + k && lim.SizeOK(n2)
  }

  lemma LegalWithIff(lim: Limits, n: Node, k: int)
    ensures LegalWith(lim, n, k) <==> lim.MinSize(n) <= n.Size() + k <= lim.MaxSize(n)
  {
    if lim.MinSize(n) <= n.Size() + k <= lim.MaxSize(n) {
      var size := n.Size() + k;
      var n2 := if n.Leaf? then Leaf(n.parent, seq(size, _ => Entry(0, RID(0, 0))), INVALID_PAGE_ID)
                else Internal(n.parent, seq(size, _ => Slot(0, 0)));
      assert n2.Size() == size && lim.SizeOK(n2);
    }
  }

  // A page of legal size is safe for an insert exactly when it takes one more pair, and for a delete
  // exactly when it can lose one pair, or two children: an internal page is called unsafe one child
  // early. No page is safe for a read.
  lemma SafeIff(lim: Limits, n: Node)
    requires lim.SizeOK(n)
    ensures lim.IsSafe(n, INSERT) <==> LegalWith(lim, n, 1)
    ensures lim.IsSafe(n, DELETE) <==> LegalWith(lim, n, if n.Leaf? then -1 else -2)
    ensures !lim.IsSafe(n, READ)
  {
    LegalWithIff(lim, n, 1);
    LegalWithIff(lim, n, -1);
    LegalWithIff(lim, n, -2);
  }

  // --- the pairs below a page ---

  ghost function KeysIn(m: map<Key, RID>, s: Span): set<Key> {
    set k | k in m && Covers(s, k)
  }

  function KeySet(es: seq<Entry>): set<Key> {
    set e | e in es :: e.key
  }

  lemma {:induction false} KeySetSize(es: seq<Entry>)
    requires SortedEntries(es)
    ensures |KeySet(es)| == |es|
  {
    if es == [] {
      assert KeySet(es) == {};
    } else {
      var n := |es| - 1;
      KeySetSize(es[..n]);
      assert es == es[..n] + [es[n]];
      assert KeySet(es) == KeySet(es[..n]) + {es[n].key};
    }
  }

  // A leaf holds the keys of its span, each once.
  lemma LeafKeys(t: Tree, m: map<Key, RID>, p: PageId)
    requires WellFormed(t) && Represents(t, m) && p in t.nodes && t.nodes[p].Leaf?
    ensures |KeysIn(m, t.span[p])| == |t.nodes[p].entries|
  {
    assert PageOK(t, p);
    var es := t.nodes[p].entries;
    KeySetSize(es);
    forall k ensures k in KeysIn(m, t.span[p]) <==> k in KeySet(es) {
      if k in KeysIn(m, t.span[p]) {
        var q :| HoldsEntry(t, q, Entry(k, m[k]));
        OnlyHere(t, p, q, Entry(k, m[k]));
      }
      if k in KeySet(es) {
        var i :| 0 <= i < |es| && es[i].key == k;
        assert HoldsEntry(t, p, es[i]);
      }
    }
    assert KeysIn(m, t.span[p]) == KeySet(es);
  }

  // The span of the first n children together.
  function SpanOf(ss: seq<Slot>, s: Span, n: nat): Span
    requires 0 < n <= |ss|
  {
    Span(s.lo, SlotHi(ss, s, n - 1), s.level)
  }

  lemma KeysSplit(m: map<Key, RID>, ss: seq<Slot>, s: Span, n: nat, child: Span)
    requires KeysOK(ss, s) && 0 < n < |ss| && child.lo == SlotLo(ss, s, n) && child.hi == SlotHi(ss, s, n)
    ensures |KeysIn(m, SpanOf(ss, s, n + 1))| == |KeysIn(m, SpanOf(ss, s, n))| + |KeysIn(m, child)|
  {
    var a, b, c := KeysIn(m, SpanOf(ss, s, n + 1)), KeysIn(m, SpanOf(ss, s, n)), KeysIn(m, child);
    assert Inside(s, ss[n].key);
    assert n + 1 < |ss| ==> ss[n].key < ss[n + 1].key;
    assert a == b + c && b !! c;
  }

  function Pow(b: nat, e: nat): nat {
    if e == 0 then 1 else b * Pow(b, e - 1)
  }

  // Between low and high pairs below every child of p give so many times as much below p.
  lemma {:induction false} ChildrenKeys(t: Tree, m: map<Key, RID>, p: PageId, n: nat, low: nat, high: nat)
    requires WellFormed(t) && p in t.nodes && t.nodes[p].Internal? && 0 < n <= |t.nodes[p].slots|
    requires forall i :: 0 <= i < |t.nodes[p].slots| ==>
               var c := t.nodes[p].slots[i].child; c in t.span && low <= |KeysIn(m, t.span[c])| <= high
    ensures n * low <= |KeysIn(m, SpanOf(t.nodes[p].slots, t.span[p], n))| <= n * high
  {
    assert PageOK(t, p);
    var ss, s := t.nodes[p].slots, t.span[p];
    assert ChildOK(t, p, ss, n - 1);
    var c := ss[n - 1].child;
    if n == 1 {
      assert KeysIn(m, SpanOf(ss, s, 1)) == KeysIn(m, t.span[c]);
    } else {
      ChildrenKeys(t, m, p, n - 1, low, high);
      KeysSplit(m, ss, s, n - 1, t.span[c]);
      assert n * low == (n - 1) * low + low && n * high == (n - 1) * high + high;
    }
  }

  lemma PageKeys(t: Tree, m: map<Key, RID>, p: PageId, low: nat, high: nat)
    requires WellFormed(t) && p in t.nodes && t.nodes[p].Internal?
    requires forall i :: 0 <= i < |t.nodes[p].slots| ==>
               var c := t.nodes[p].slots[i].child; c in t.span && low <= |KeysIn(m, t.span[c])| <= high
    ensures |t.nodes[p].slots| * low <= |KeysIn(m, t.span[p])| <= |t.nodes[p].slots| * high
  {
    assert PageOK(t, p);
    var ss := t.nodes[p].slots;
    ChildrenKeys(t, m, p, |ss|, low, high);
    assert KeysIn(m, SpanOf(ss, t.span[p], |ss|)) == KeysIn(m, t.span[p]);
  }

  // The least and the largest number of pairs below a page of a level, off the root.
  function Least(lim: Limits, level: nat): nat {
    Pow(lim.internalMax / 2, level) * (lim.leafMax / 2)
  }

  function Most(lim: Limits, level: nat): nat {
    Pow(lim.internalMax, level) * lim.leafMax
  }

  lemma LevelUp(lim: Limits, level: nat)
    ensures Least(lim, level + 1) == lim.internalMax / 2 * Least(lim, level)
    ensures Most(lim, level + 1) == lim.internalMax * Most(lim, level)
  {
    Assoc(lim.internalMax / 2, Pow(lim.internalMax / 2, level), lim.leafMax / 2);
    Assoc(lim.internalMax, Pow(lim.internalMax, level), lim.leafMax);
  }

  lemma Assoc(a: nat, b: nat, c: nat)
    ensures a * b * c == a * (b * c)
  {}

  lemma Widen(a: nat, n: nat, b: nat, low: nat, high: nat, k: nat)
    requires a <= n <= b && n * low <= k <= n * high
    ensures a * low <= k <= b * high
  {
    assert a * low <= n * low && n * high <= b * high;
  }

  lemma {:induction false} KeysBelow(t: Tree, lim: Limits, m: map<Key, RID>, p: PageId)
    requires Sound(t, lim, m) && p in t.nodes && p != t.root
    ensures Least(lim, t.span[p].level) <= |KeysIn(m, t.span[p])| <= Most(lim, t.span[p].level)
    decreases t.span[p].level
  {
    assert PageOK(t, p);
    HalfFull(t, lim, m, p);
    if t.nodes[p].Leaf? {
      LeafKeys(t, m, p);
    } else {
      ChildrenBelow(t, lim, m, p);
      var level, n := t.span[p].level - 1, |t.nodes[p].slots|;
      PageKeys(t, m, p, Least(lim, level), Most(lim, level));
      LevelUp(lim, level);
      Widen(lim.internalMax / 2, n, lim.internalMax, Least(lim, level), Most(lim, level), |KeysIn(m, t.span[p])|);
    }
  }

  lemma ChildrenBelow(t: Tree, lim: Limits, m: map<Key, RID>, p: PageId)
    requires Sound(t, lim, m) && p in t.nodes && t.nodes[p].Internal?
    ensures t.span[p].level > 0
    ensures forall i :: 0 <= i < |t.nodes[p].slots| ==>
              var c := t.nodes[p].slots[i].child;
              c in t.span && Least(lim, t.span[p].level - 1) <= |KeysIn(m, t.span[c])| <= Most(lim, t.span[p].level - 1)
    decreases t.span[p].level, 0
  {
    assert PageOK(t, p);
    var ss := t.nodes[p].slots;
    forall i | 0 <= i < |ss|
      ensures var c := ss[i].child;
              c in t.span && Least(lim, t.span[p].level - 1) <= |KeysIn(m, t.span[c])| <= Most(lim, t.span[p].level - 1)
    {
      assert ChildOK(t, p, ss, i);
      RootKnown(t, ss[i].child);
      RootKnown(t, t.root);
      assert PageOK(t, t.root);
      KeysBelow(t, lim, m, ss[i].child);
    }
  }

  // The number of pairs bounds the height: with h levels above the leaves there are at least twice
  // as many pairs as a half full page of level h - 1 has below it, and no more than full pages hold.
  lemma HeightBound(t: Tree, lim: Limits, m: map<Key, RID>)
    requires Sound(t, lim, m)
    ensures |m| <= Most(lim, Height(t))
    ensures Height(t) == 0 ==> |m| > 0
    ensures Height(t) > 0 ==> 2 * Least(lim, Height(t) - 1) <= |m|
  {
    var r := t.root;
    assert PageOK(t, r);
    HalfFull(t, lim, m, r);
    assert KeysIn(m, t.span[r]) == m.Keys;
    if t.nodes[r].Leaf? {
      LeafKeys(t, m, r);
    } else {
      ChildrenBelow(t, lim, m, r);
      var level, n := Height(t) - 1, |t.nodes[r].slots|;
      PageKeys(t, m, r, Least(lim, level), Most(lim, level));
      LevelUp(lim, level);
      Widen(2, n, lim.internalMax, Least(lim, level), Most(lim, level), |KeysIn(m, t.span[r])|);
    }
  }

  // A tree with a root stands for a map with a pair.
  lemma SomePair(t: Tree, lim: Limits, m: map<Key, RID>)
    requires Sound(t, lim, m) && lim.Valid()
    ensures m != map[]
  {
    HeightBound(t, lim, m);
    if Height(t) > 0 {
      PowPositive(lim.internalMax / 2, Height(t) - 1);
      Product(Pow(lim.internalMax / 2, Height(t) - 1), lim.leafMax / 2);
    }
  }

  lemma {:induction false} PowPositive(b: nat, e: nat)
    requires b > 0
    ensures Pow(b, e) > 0
  {
    if e > 0 {
      PowPositive(b, e - 1);
      Product(b, Pow(b, e - 1));
    }
  }

  lemma Product(a: nat, b: nat)
    requires a > 0 && b > 0
    ensures a * b > 0
  {}

  // --- the leaves ---

  function LeavesOf(t: Tree): set<PageId> {
    set p | p in t.nodes && t.nodes[p].Leaf?
  }

  ghost predicate CoveredBy(t: Tree, ps: set<PageId>, k: Key) {
    exists p :: p in ps && p in t.span && Covers(t.span[p], k)
  }

  // The keys that the leaves in ps hold.
  ghost function Held(t: Tree, m: map<Key, RID>, ps: set<PageId>): set<Key> {
    set k | k in m && CoveredBy(t, ps, k)
  }

  lemma OneLeafMore(t: Tree, m: map<Key, RID>, ps: set<PageId>, p: PageId)
    requires WellFormed(t) && ps <= LeavesOf(t) && p in LeavesOf(t) && p !in ps
    ensures |Held(t, m, ps + {p})| == |Held(t, m, ps)| + |KeysIn(m, t.span[p])|
  {
    var a, b, c := Held(t, m, ps + {p}), Held(t, m, ps), KeysIn(m, t.span[p]);
    forall k | k in b && k in c ensures false {
      assert CoveredBy(t, ps, k);
      var q :| q in ps && q in t.span && Covers(t.span[q], k);
      assert PageOK(t, p) && PageOK(t, q);
      UniqueCover(t, p, q, k);
    }
    forall k ensures k in a <==> k in b || k in c {
      if k in b {
        var q :| q in ps && q in t.span && Covers(t.span[q], k);
        assert q in ps + {p};
      }
      if k in c {
        assert p in ps + {p} && Covers(t.span[p], k);
      }
    }
    assert a == b + c;
  }

  lemma LeafBounds(t: Tree, lim: Limits, m: map<Key, RID>, p: PageId)
    requires Sound(t, lim, m) && p in LeavesOf(t) && t.nodes[t.root].Internal?
    ensures lim.leafMax / 2 <= |KeysIn(m, t.span[p])| <= lim.leafMax
  {
    LeafKeys(t, m, p);
    HalfFull(t, lim, m, p);
  }

  lemma SumBounds(n: nat, low: nat, high: nat, sum: nat, k: nat)
    requires n * low <= sum <= n * high && low <= k <= high
    ensures (n + 1) * low <= sum + k <= (n + 1) * high
  {
    assert (n + 1) * low == n * low + low && (n + 1) * high == n * high + high;
  }

  lemma Pick<T>(ps: set<T>) returns (p: T)
    requires ps != {}
    ensures p in ps
  {
    p :| p in ps;
  }

  lemma NoLeaves(t: Tree, m: map<Key, RID>)
    ensures Held(t, m, {}) == {}
  {}

  // Between low and high pairs in every leaf.
  ghost predicate AllBetween(t: Tree, m: map<Key, RID>, low: nat, high: nat) {
    forall p :: p in LeavesOf(t) && p in t.span ==> low <= |KeysIn(m, t.span[p])| <= high
  }

  lemma {:induction false} LeafCount(t: Tree, m: map<Key, RID>, ps: set<PageId>, low: nat, high: nat)
    requires WellFormed(t) && ps <= LeavesOf(t) && AllBetween(t, m, low, high)
    ensures |ps| * low <= |Held(t, m, ps)| <= |ps| * high
    decreases ps
  {
    if ps == {} {
      NoLeaves(t, m);
    } else {
      var p := Pick(ps);
      var rest := ps - {p};
      LeafCount(t, m, rest, low, high);
      OneLeafMore(t, m, rest, p);
      assert rest + {p} == ps;
      SumBounds(|rest|, low, high, |Held(t, m, rest)|, |KeysIn(m, t.span[p])|);
    }
  }

  // On a tree of more than one leaf, the leaves are half full on their own account.
  lemma LeavesHalfFull(t: Tree, lim: Limits, m: map<Key, RID>)
    requires Sound(t, lim, m) && t.nodes[t.root].Internal?
    ensures |LeavesOf(t)| * (lim.leafMax / 2) <= |m| <= |LeavesOf(t)| * lim.leafMax
  {
    forall p | p in LeavesOf(t) ensures lim.leafMax / 2 <= |KeysIn(m, t.span[p])| <= lim.leafMax {
      LeafBounds(t, lim, m, p);
    }
    LeafCount(t, m, LeavesOf(t), lim.leafMax / 2, lim.leafMax);
    assert Held(t, m, LeavesOf(t)) == m.Keys by {
      forall k | k in m ensures k in Held(t, m, LeavesOf(t)) {
        var q :| HoldsEntry(t, q, Entry(k, m[k]));
        var es := t.nodes[q].entries;
        var i :| 0 <= i < |es| && es[i] == Entry(k, m[k]);
        assert PageOK(t, q);
        assert q in LeavesOf(t) && Covers(t.span[q], es[i].key);
      }
    }
  }
}
