/**
 The pages of the tree as objects updated in place: a header and an array of pairs, of which
 the first `size` are in use. Every method says what page it leaves behind as a Node.
 */
module TreePages {
  import opened TreeTypes
  import opened TreeShape
  import opened TreeSplit
  import opened TreeMerge
  import opened TreeBorrow

  class InternalPage {
    const pageId: PageId
    const maxSize: nat
    var arr: seq<Slot>
    var parent: PageId
    var size: nat

    ghost predicate Valid()
      reads this
    {
      size <= |arr| == maxSize + 1
    }

    ghost function View(): Node
      requires Valid()
      reads this
    {
      Internal(parent, arr[..size])
    }

    constructor Init(pageId: PageId, parent: PageId, maxSize: nat)
      ensures Valid()
      ensures this.pageId == pageId && this.maxSize == maxSize
      ensures View() == Internal(parent, [])
    {
      this.pageId := pageId;
      this.maxSize := maxSize;
      this.parent := parent;
      this.size := 0;
      this.arr := seq(maxSize + 1, _ => Slot(0, INVALID_PAGE_ID));
    }

    method ValueIndex(value: PageId) returns (r: int)
      requires Valid()
      ensures r == if HasChild(View(), value) then IndexOf(arr[..size], value) else -1
    {
      var i := 0;
      while i < size
        invariant 0 <= i <= size
        invariant forall j :: 0 <= j < i ==> arr[..size][j].child != value
      {
        if arr[i].child == value {
          assert arr[..size][i].child == value;
          return i;
        }
        i := i + 1;
      }
      return -1;
    }

    // The child whose span holds the key: the last slot whose separator is not above it.
    method Lookup(key: Key) returns (child: PageId, ghost i: nat)
      requires Valid() && size >= 2
      requires forall a, b :: 1 <= a < b < size ==> arr[a].key < arr[b].key
      ensures i < size && child == arr[i].child
      ensures i > 0 ==> arr[i].key <= key
      ensures i + 1 < size ==> key < arr[i + 1].key
    {
      var left, right := 1, size - 1;
      while left <= right
        invariant 1 <= left <= right + 1 <= size
        invariant left > 1 ==> arr[left - 1].key <= key
        invariant right + 1 < size ==> key < arr[right + 1].key
      {
        var mid := (left + right) / 2;
        if arr[mid].key <= key {
          left := mid + 1;
        } else {
          right := mid - 1;
        }
      }
      i := left - 1;
      child := arr[left - 1].child;
    }

    method PopulateNewRoot(oldValue: PageId, newKey: Key, newValue: PageId) returns (ghost unset: Key)
      requires Valid() && maxSize >= 2
      modifies this`size, this`arr
      ensures Valid()
      ensures View() == Internal(parent, [Slot(unset, oldValue), Slot(newKey, newValue)])
    {
      unset := arr[0].key;
      arr := arr[0 := Slot(arr[0].key, oldValue)];
      arr := arr[1 := Slot(newKey, newValue)];
      size := 2;
    }

    method InsertNodeAfter(oldValue: PageId, newKey: Key, newValue: PageId)
      requires Valid() && size <= maxSize && HasChild(View(), oldValue)
      modifies this`size, this`arr
      ensures Valid()
      ensures View() == Internal(parent, InsertAfter(old(arr[..size]), IndexOf(old(arr[..size]), oldValue),
              Slot(newKey, newValue)))
    {
      ghost var before := arr[..size];
      var found := ValueIndex(oldValue);
      var index := found + 1;
      size := size + 1;
      arr := ShiftUp(arr, index, size - 1);
      arr := arr[index := Slot(newKey, newValue)];
      assert arr[..size] == arr[..index] + [arr[index]] + arr[index + 1..size];
    }

    method MoveHalfTo(recipient: InternalPage)
      requires Valid() && recipient.Valid() && recipient != this
      requires recipient.maxSize == maxSize && size == maxSize + 1
      modifies this`size, recipient`size, recipient`arr
      ensures Valid() && recipient.Valid()
      ensures var h := (maxSize + 1) / 2;
              && View() == Internal(parent, old(arr[..size])[..h])
              && recipient.View() == Internal(recipient.parent, old(arr[..size])[h..])
    {
      var total := maxSize + 1;
      var h := (maxSize + 1) / 2;
      recipient.arr := CopyPairs(arr, h, total - h, recipient.arr, 0);
      size := h;
      recipient.size := total - h;
    }

    method Remove(index: nat)
      requires Valid() && index < size
      modifies this`size, this`arr
      ensures Valid()
      ensures View() == Internal(parent, RemoveAt(old(arr[..size]), index))
    {
      ghost var before := arr[..size];
      arr := ShiftDown(arr, index, size);
      size := size - 1;
      assert arr[..size] == arr[..index] + arr[index..size];
    }

    method RemoveAndReturnOnlyChild() returns (child: PageId)
      requires Valid() && size == 1
      modifies this`size
      ensures Valid() && View() == Internal(parent, [])
      ensures child == old(arr[0].child)
    {
      child := arr[0].child;
      size := size - 1;
    }

    method MoveAllTo(recipient: InternalPage, indexInParent: nat, parentPage: InternalPage)
      requires Valid() && recipient.Valid() && parentPage.Valid()
      requires recipient != this
      requires indexInParent < parentPage.size && size > 0
      requires recipient.maxSize == maxSize && recipient.size + size <= maxSize
      modifies this`size, this`arr, recipient`size, recipient`arr
      ensures Valid() && recipient.Valid()
      ensures recipient.View() == Joined(old(recipient.View()), old(View()), old(parentPage.arr[indexInParent].key))
      ensures View() == Internal(parent, [])
    {
      var start := recipient.size;
      ghost var left, right := recipient.arr[..start], arr[..size];
      SetKey(0, parentPage.arr[indexInParent].key);
      assert arr[..size] == [right[0].(key := old(parentPage.arr[indexInParent].key))] + right[1..];
      recipient.arr := CopyPairs(arr, 0, size, recipient.arr, start);
      recipient.size := start + size;
      assert recipient.arr[..start + size] == left + arr[..size];
      size := 0;
    }

    method SetKey(index: nat, key: Key)
      requires Valid() && index < size
      modifies this`arr
      ensures Valid() && View() == Internal(parent, SetKeyAt(old(arr[..size]), index, key))
    {
      arr := arr[index := Slot(key, arr[index].child)];
    }

    method PopFirst() returns (pair: Slot)
      requires Valid() && size > 0
      modifies this`size, this`arr
      ensures Valid() && View() == Internal(parent, old(arr[..size])[1..]) && pair == old(arr[0])
    {
      pair := arr[0];
      arr := ShiftDown(arr, 0, size);
      size := size - 1;
      assert old(arr[..size])[1..] == old(arr[1..size]);
    }

    method CopyLastFrom(pair: Slot)
      requires Valid() && size < maxSize
      modifies this`size, this`arr
      ensures Valid() && View() == Internal(parent, old(arr[..size]) + [pair])
    {
      arr := arr[size := pair];
      size := size + 1;
    }

    method CopyFirstFrom(pair: Slot)
      requires Valid() && size + 1 < maxSize
      modifies this`size, this`arr
      ensures Valid() && View() == Internal(parent, [pair] + old(arr[..size]))
    {
      arr := ShiftUp(arr, 0, size);
      size := size + 1;
      arr := arr[0 := pair];
      assert arr[..size] == [pair] + arr[1..size];
    }

    // The first pair moves to the end of the left sibling; the new first key goes up.
    method MoveFirstToEndOf(recipient: InternalPage, parentPage: InternalPage) returns (child: PageId)
      requires Valid() && recipient.Valid() && parentPage.Valid()
      requires recipient != this && parentPage != this && parentPage != recipient
      requires size > 1 && recipient.size < recipient.maxSize && HasChild(parentPage.View(), pageId)
      modifies this`size, this`arr, recipient`size, recipient`arr, parentPage`arr
      ensures Valid() && recipient.Valid() && parentPage.Valid()
      ensures child == old(arr[0].child)
      ensures recipient.View() == Internal(recipient.parent, old(recipient.arr[..recipient.size]) +
              old(arr[..size])[..1])
      ensures View() == Internal(parent, old(arr[..size])[1..])
      ensures parentPage.View() == Internal(parentPage.parent,
                                            SetKeyAt(old(parentPage.arr[..parentPage.size]),
                                              IndexOf(old(parentPage.arr[..parentPage.size]), pageId), old(arr[1].key)))
    {
      var pair := PopFirst();
      child := pair.child;
      recipient.CopyLastFrom(pair);
      var i := parentPage.ValueIndex(pageId);
      parentPage.SetKey(i, arr[0].key);
    }

    // The last pair moves to the front of the right sibling; its key goes up.
    method MoveLastToFrontOf(recipient: InternalPage, parentIndex: nat, parentPage: InternalPage)
        returns (child: PageId)
      requires Valid() && recipient.Valid() && parentPage.Valid()
      requires recipient != this && parentPage != this && parentPage != recipient
      requires size > 1 && recipient.size + 1 < recipient.maxSize && parentIndex < parentPage.size
      modifies this`size, recipient`size, recipient`arr, parentPage`arr
      ensures Valid() && recipient.Valid() && parentPage.Valid()
      ensures child == old(arr[size - 1].child)
      ensures View() == Internal(parent, old(arr[..size])[..old(size) - 1])
      ensures recipient.View() == Internal(recipient.parent, old(arr[..size])[old(size) - 1..] +
              old(recipient.arr[..recipient.size]))
      ensures parentPage.View() == Internal(parentPage.parent,
                                            SetKeyAt(old(parentPage.arr[..parentPage.size]), parentIndex,
                                              old(arr[size - 1].key)))
    {
      var pair := arr[size - 1];
      child := pair.child;
      size := size - 1;
      recipient.CopyFirstFrom(pair);
      parentPage.SetKey(parentIndex, recipient.arr[0].key);
    }
  }

  class LeafPage {
    const pageId: PageId
    const maxSize: nat
    var arr: seq<Entry>
    var parent: PageId
    var next: PageId
    var size: nat

    ghost predicate Valid()
      reads this
    {
      size <= |arr| == maxSize + 1
    }

    ghost function View(): Node
      requires Valid()
      reads this
    {
      Leaf(parent, arr[..size], next)
    }

    constructor Init(pageId: PageId, parent: PageId, maxSize: nat)
      ensures Valid()
      ensures this.pageId == pageId && this.maxSize == maxSize
      ensures View() == Leaf(parent, [], INVALID_PAGE_ID)
    {
      this.pageId := pageId;
      this.maxSize := maxSize;
      this.parent := parent;
      this.next := INVALID_PAGE_ID;
      this.size := 0;
      this.arr := seq(maxSize + 1, _ => Entry(0, RID(INVALID_PAGE_ID, -1)));
    }

    method KeyIndex(key: Key) returns (i: nat)
      requires Valid() && SortedEntries(arr[..size])
      ensures i == LowerBound(arr[..size], key)
    {
      ghost var es := arr[..size];
      var left, right := 0, size - 1;
      while left <= right
        invariant 0 <= left <= right + 1 <= size
        invariant left > 0 ==> es[left - 1].key < key
        invariant right + 1 < size ==> key <= es[right + 1].key
      {
        var mid := (left + right) / 2;
        assert arr[mid] == es[mid];
        if arr[mid].key >= key {
          right := mid - 1;
        } else {
          left := mid + 1;
        }
      }
      i := right + 1;
    }

    method Lookup(key: Key) returns (found: bool, value: RID)
      requires Valid() && SortedEntries(arr[..size])
      ensures found == HasKey(arr[..size], key)
      ensures found ==> Entry(key, value) in arr[..size]
    {
      var i := KeyIndex(key);
      if i < size && arr[i].key == key {
        assert arr[..size][i] == Entry(key, arr[i].value);
        return true, arr[i].value;
      }
      return false, RID(INVALID_PAGE_ID, -1);
    }

    method Insert(key: Key, value: RID) returns (newSize: nat)
      requires Valid() && size <= maxSize && SortedEntries(arr[..size])
      modifies this`size, this`arr
      ensures Valid() && newSize == size
      ensures View() == Leaf(parent, InsertEntry(old(arr[..size]), Entry(key, value)), next)
    {
      ghost var before := arr[..size];
      var index := KeyIndex(key);
      size := size + 1;
      newSize := size;
      arr := ShiftUp(arr, index, size - 1);
      arr := arr[index := Entry(key, value)];
      assert arr[..size] == arr[..index] + [arr[index]] + arr[index + 1..size];
    }

    method RemoveAndDeleteRecord(key: Key) returns (newSize: nat)
      requires Valid() && SortedEntries(arr[..size])
      modifies this`size, this`arr
      ensures Valid() && newSize == size
      ensures View() == Leaf(parent, RemoveKey(old(arr[..size]), key), next)
    {
      ghost var before := arr[..size];
      var index := KeyIndex(key);
      if index >= size || arr[index].key != key {
        return size;
      }
      arr := ShiftDown(arr, index, size);
      size := size - 1;
      newSize := size;
      assert arr[..size] == arr[..index] + arr[index..size];
    }

    // The copy loop runs to maxSize, but both pages are then given the same size.
    method MoveHalfTo(recipient: LeafPage)
      requires Valid() && recipient.Valid() && recipient != this
      requires recipient.maxSize == maxSize && size == maxSize + 1
      modifies this`size, this`next, recipient`size, recipient`next, recipient`arr
      ensures Valid() && recipient.Valid()
      ensures var h := (maxSize + 1) / 2;
              && View() == Leaf(parent, old(arr[..size])[..h], recipient.pageId)
              && recipient.View() == Leaf(recipient.parent, old(arr[..size])[h..2 * h], old(next))
    {
      var h := (maxSize + 1) / 2;
      recipient.arr := CopyPairs(arr, h, maxSize + 1 - h, recipient.arr, 0);
      recipient.next := next;
      next := recipient.pageId;
      size := h;
      recipient.size := h;
      assert recipient.arr[..h] == recipient.arr[0..maxSize + 1 - h][..h];
    }

    method MoveAllTo(recipient: LeafPage)
      requires Valid() && recipient.Valid() && recipient != this
      requires recipient.maxSize == maxSize && recipient.size + size <= maxSize
      modifies this`size, recipient`size, recipient`next, recipient`arr
      ensures Valid() && recipient.Valid()
      ensures recipient.View() == Joined(old(recipient.View()), old(View()), 0)
      ensures View() == Leaf(parent, [], next)
    {
      var start := recipient.size;
      ghost var left := recipient.arr[..start];
      recipient.arr := CopyPairs(arr, 0, size, recipient.arr, start);
      assert recipient.arr[..start + size] == left + arr[..size];
      recipient.next := next;
      recipient.size := start + size;
      size := 0;
    }

    method PopFirst() returns (pair: Entry)
      requires Valid() && size > 0
      modifies this`size, this`arr
      ensures Valid() && View() == Leaf(parent, old(arr[..size])[1..], next) && pair == old(arr[0])
    {
      pair := arr[0];
      arr := ShiftDown(arr, 0, size);
      size := size - 1;
      assert old(arr[..size])[1..] == old(arr[1..size]);
    }

    method CopyLastFrom(pair: Entry)
      requires Valid() && size < maxSize
      modifies this`size, this`arr
      ensures Valid() && View() == Leaf(parent, old(arr[..size]) + [pair], next)
    {
      arr := arr[size := pair];
      size := size + 1;
    }

    method CopyFirstFrom(pair: Entry)
      requires Valid() && size + 1 < maxSize
      modifies this`size, this`arr
      ensures Valid() && View() == Leaf(parent, [pair] + old(arr[..size]), next)
    {
      arr := ShiftUp(arr, 0, size);
      size := size + 1;
      arr := arr[0 := pair];
      assert arr[..size] == [pair] + arr[1..size];
    }

    // The first pair moves to the end of the left sibling; the new first key goes up.
    method MoveFirstToEndOf(recipient: LeafPage, parentPage: InternalPage)
      requires Valid() && recipient.Valid() && parentPage.Valid()
      requires recipient != this
      requires size > 1 && recipient.size < recipient.maxSize && HasChild(parentPage.View(), pageId)
      modifies this`size, this`arr, recipient`size, recipient`arr, parentPage`arr
      ensures Valid() && recipient.Valid() && parentPage.Valid()
      ensures recipient.View() == Leaf(recipient.parent, old(recipient.arr[..recipient.size]) +
              old(arr[..size])[..1], recipient.next)
      ensures View() == Leaf(parent, old(arr[..size])[1..], next)
      ensures parentPage.View() == Internal(parentPage.parent,
                                            SetKeyAt(old(parentPage.arr[..parentPage.size]),
                                              IndexOf(old(parentPage.arr[..parentPage.size]), pageId), old(arr[1].key)))
    {
      ghost var above, mine := parentPage.arr[..parentPage.size], arr[..size];
      var pair := PopFirst();
      assert arr[0] == arr[..size][0] == mine[1];
      recipient.CopyLastFrom(pair);
      assert parentPage.arr[..parentPage.size] == above;
      var i := parentPage.ValueIndex(pageId);
      parentPage.SetKey(i, arr[0].key);
    }

    // The last pair moves to the front of the right sibling; its key goes up.
    method MoveLastToFrontOf(recipient: LeafPage, parentIndex: nat, parentPage: InternalPage)
      requires Valid() && recipient.Valid() && parentPage.Valid()
      requires recipient != this
      requires size > 1 && recipient.size + 1 < recipient.maxSize && parentIndex < parentPage.size
      modifies this`size, recipient`size, recipient`arr, parentPage`arr
      ensures Valid() && recipient.Valid() && parentPage.Valid()
      ensures View() == Leaf(parent, old(arr[..size])[..old(size) - 1], next)
      ensures recipient.View() == Leaf(recipient.parent, old(arr[..size])[old(size) - 1..] +
              old(recipient.arr[..recipient.size]), recipient.next)
      ensures parentPage.View() == Internal(parentPage.parent,
                                            SetKeyAt(old(parentPage.arr[..parentPage.size]), parentIndex,
                                              old(arr[size - 1].key)))
    {
      var pair := arr[size - 1];
      size := size - 1;
      recipient.CopyFirstFrom(pair);
      parentPage.SetKey(parentIndex, recipient.arr[0].key);
    }
  }

  // A leaf that overflowed by one keeps all its pairs when split exactly when its capacity is odd.
  lemma HalvesKeepAll(maxSize: nat, es: seq<Entry>)
    requires |es| == maxSize + 1
    ensures var h := (maxSize + 1) / 2;
            es[..h] + es[h..2 * h] == es <==> maxSize % 2 == 1
  {
    var h := (maxSize + 1) / 2;
    assert |es[..h] + es[h..2 * h]| == 2 * h;
  }

  // Copies n pairs from one page to another, one at a time.
  method CopyPairs<T>(src: seq<T>, from: nat, n: nat, dst: seq<T>, at: nat) returns (r: seq<T>)
    requires from + n <= |src| && at + n <= |dst|
    ensures r == dst[..at] + src[from..from + n] + dst[at + n..]
  {
    r := dst;
    var i := 0;
    while i < n
      invariant 0 <= i <= n
      invariant r == dst[..at] + src[from..from + i] + dst[at + i..]
    {
      r := r[at + i := src[from + i]];
      i := i + 1;
    }
  }

  // Moves the pairs after position `from`, up to n, one position down, over the one at `from`.
  method ShiftDown<T>(a: seq<T>, from: nat, n: nat) returns (r: seq<T>)
    requires from < n <= |a|
    ensures r == a[..from] + a[from + 1..n] + a[n - 1..]
  {
    r := a;
    var i := from + 1;
    while i < n
      invariant from + 1 <= i <= n
      invariant r == a[..from] + a[from + 1..i] + a[i - 1..]
    {
      r := r[i - 1 := r[i]];
      i := i + 1;
    }
  }

  // Moves the pairs from position `from` on, up to n, one position up.
  method ShiftUp<T>(a: seq<T>, from: nat, n: nat) returns (r: seq<T>)
    requires from <= n < |a|
    ensures r == a[..from + 1] + a[from..n] + a[n + 1..]
  {
    r := a;
    var i := n;
    while i > from
      invariant from <= i <= n
      invariant r == a[..i + 1] + a[i..n] + a[n + 1..]
    {
      r := r[i := r[i - 1]];
      i := i - 1;
    }
  }
}
