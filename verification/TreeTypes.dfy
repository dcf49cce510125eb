/**
 The values held in the pages of the B+ tree index: page ids, keys, record ids, the
 (key, record) pairs of a leaf and the (key, child) pairs of an internal page, and the
 size thresholds that splitting, merging and latch release all depend on.
 */
module TreeTypes {

  type PageId = int
  const INVALID_PAGE_ID: PageId := -1

  // Keys are compared only through a total order; integers stand for them.
  type Key = int

  datatype RID = RID(pageId: PageId, slotNum: int)

  datatype Entry = Entry(key: Key, value: RID)
  datatype Slot = Slot(key: Key, child: PageId)

  // What a page says, read through its header and its array up to its size.
  datatype Node =
    | Leaf(parent: PageId, entries: seq<Entry>, next: PageId)
    | Internal(parent: PageId, slots: seq<Slot>)
  {
    function Size(): nat {
      if Leaf? then |entries| else |slots|
    }

    function WithParent(p: PageId): Node {
      if Leaf? then Leaf(p, entries, next) else Internal(p, slots)
    }

    // Everything but the parent id, which is written without a latch.
    predicate SameEntries(other: Node) {
      other == this.WithParent(other.parent)
    }
  }

  // The page capacities. Leaves split evenly only when their capacity is odd.
  datatype Limits = Limits(leafMax: nat, internalMax: nat)
  {
    predicate Valid() {
      leafMax >= 3 && leafMax % 2 == 1 && internalMax >= 4
    }

    function MaxSize(n: Node): nat {
      if n.Leaf? then leafMax else internalMax
    }

    function MinSize(n: Node): nat {
      if n.parent == INVALID_PAGE_ID then (if n.Leaf? then 1 else 2)
      else MaxSize(n) / 2
    }

    predicate IsSafe(n: Node, op: OpType) {
      match op
      case INSERT => n.Size() < MaxSize(n)
      case DELETE => if n.Leaf? then n.Size() >= MinSize(n) + 1 else n.Size() > MinSize(n) + 1
      case READ => false
    }

    predicate SizeOK(n: Node) {
      MinSize(n) <= n.Size() <= MaxSize(n)
    }
  }

  datatype OpType = READ | INSERT | DELETE

  // The position of the first entry whose key is at least k.
  function LowerBound(es: seq<Entry>, k: Key): (i: nat)
    ensures i <= |es|
    ensures forall j :: 0 <= j < i ==> es[j].key < k
    ensures i < |es| ==> k <= es[i].key
  {
    if es == [] || k <= es[0].key then 0 else 1 + LowerBound(es[1..], k)
  }

  ghost predicate SortedEntries(es: seq<Entry>) {
    forall i, j :: 0 <= i < j < |es| ==> es[i].key < es[j].key
  }

  function InsertEntry(es: seq<Entry>, e: Entry): seq<Entry> {
    var i := LowerBound(es, e.key);
    es[..i] + [e] + es[i..]
  }

  predicate HasKey(es: seq<Entry>, k: Key) {
    var i := LowerBound(es, k);
    i < |es| && es[i].key == k
  }

  function RemoveKey(es: seq<Entry>, k: Key): seq<Entry> {
    var i := LowerBound(es, k);
    if i < |es| && es[i].key == k then es[..i] + es[i + 1..] else es
  }

  // The first position of child c, or the number of slots when c is absent.
  function IndexOf(ss: seq<Slot>, c: PageId): (i: nat)
    ensures i <= |ss|
    ensures i < |ss| ==> ss[i].child == c
    ensures forall j :: 0 <= j < i ==> ss[j].child != c
  {
    if ss == [] || ss[0].child == c then 0 else 1 + IndexOf(ss[1..], c)
  }
}
