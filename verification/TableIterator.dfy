/**
 The iterator of a table heap and the live tuples it visits, in chain and slot order.
 */
module TableIteration {
  import opened SlottedPage
  import opened CellPage
  import opened TablePages
  import opened PageTables
  import opened HeapUndo
  import opened TableHeaps
  import opened HeapCommit
  import TransactionManager

  // The live places of a page from slot k on.
  function LiveOnPage(cs: seq<Cell>, i: nat, k: nat): seq<Rid>
    requires k <= |cs|
    decreases |cs| - k
  {
    if k == |cs| then []
    else if cs[k].Live? then [Rid(i, k)] + LiveOnPage(cs, i, k + 1)
    else LiveOnPage(cs, i, k + 1)
  }

  // The live places of the heap from slot k of page i on.
  function LiveFrom(h: Heap, i: nat, k: nat): seq<Rid>
    requires i < |h| && k <= |h[i]|
    decreases |h| - i
  {
    LiveOnPage(h[i], i, k) + if i + 1 < |h| then LiveFrom(h, i + 1, 0) else []
  }

  predicate Before(a: Rid, b: Rid) {
    a.page < b.page || (a.page == b.page && a.slot < b.slot)
  }

  predicate IsLive(h: Heap, r: Rid) {
    r.page < |h| && r.slot < |h[r.page]| && h[r.page][r.slot].Live?
  }

  ghost predicate Ordered(rs: seq<Rid>) {
    forall a, b :: 0 <= a < b < |rs| ==> Before(rs[a], rs[b])
  }

  lemma {:induction false} LivePlaces(cs: seq<Cell>, i: nat, k: nat)
    requires k <= |cs|
    ensures forall r :: r in LiveOnPage(cs, i, k) <==> r.page == i && k <= r.slot < |cs| && cs[r.slot].Live?
    ensures Ordered(LiveOnPage(cs, i, k))
    decreases |cs| - k
  {
    if k < |cs| {
      LivePlaces(cs, i, k + 1);
    }
  }

  // Exactly the live places at or after (i, k), each once, in order.
  lemma {:induction false} LiveIsAll(h: Heap, i: nat, k: nat)
    requires i < |h| && k <= |h[i]|
    ensures forall r :: r in LiveFrom(h, i, k) <==> IsLive(h, r) && !Before(r, Rid(i, k))
    ensures Ordered(LiveFrom(h, i, k))
    decreases |h| - i
  {
    LivePlaces(h[i], i, k);
    if i + 1 < |h| {
      LiveIsAll(h, i + 1, 0);
      var p, q := LiveOnPage(h[i], i, k), LiveFrom(h, i + 1, 0);
      forall a, b | 0 <= a < b < |p + q| ensures Before((p + q)[a], (p + q)[b]) {
        assert a < |p| ==> p[a] in p;
        assert b >= |p| ==> q[b - |p|] in q;
      }
    }
  }

  lemma {:induction false} SkipsDead(cs: seq<Cell>, i: nat, k: nat)
    requires k <= |cs|
    ensures var n := NextLive(cs, k);
            LiveOnPage(cs, i, k) == if n < |cs| then [Rid(i, n)] + LiveOnPage(cs, i, n + 1) else []
    decreases |cs| - k
  {
    if k < |cs| && !cs[k].Live? {
      SkipsDead(cs, i, k + 1);
    }
  }

  lemma TakesFirst(h: Heap, i: nat, k: nat)
    requires IsLive(h, Rid(i, k))
    ensures LiveFrom(h, i, k) == [Rid(i, k)] + LiveFrom(h, i, k + 1)
  {
    assert LiveOnPage(h[i], i, k) == [Rid(i, k)] + LiveOnPage(h[i], i, k + 1);
  }

  // The places ahead of a search on page i that stopped at a slot, or found none.
  ghost function From(h: Heap, i: nat, found: bool, slot: nat): seq<Rid>
    requires i < |h|
  {
    if found then (if slot <= |h[i]| then LiveFrom(h, i, slot) else [])
    else if i + 1 < |h| then LiveFrom(h, i + 1, 0) else []
  }

  lemma SearchFrom(h: Heap, i: nat, k: nat)
    requires i < |h| && k <= |h[i]|
    ensures var n := NextLive(h[i], k); LiveFrom(h, i, k) == From(h, i, n < |h[i]|, n)
  {
    SkipsDead(h[i], i, k);
    SkipsDead(h[i], i, NextLive(h[i], k));
  }

  // Looks for a live tuple on one page.
  method SearchPage(table: TableHeap, pid: int, ghost i: nat, k: nat) returns (found: bool, slot: nat)
    requires table.Valid() && i < |table.chain| && table.chain[i] == pid && k <= |table.heap[i]|
    ensures LiveFrom(table.heap, i, k) == From(table.heap, i, found, slot)
    ensures found ==> IsLive(table.heap, Rid(i, slot))
  {
    assert table.Link(i) && ShowsAt(table.table, table.heap, i);
    var page := table.pages[pid];
    if k == 0 {
      found, slot := page.GetFirstTuple();
    } else {
      found, slot := page.GetNextTuple(k - 1);
    }
    ghost var n := NextLive(table.heap[i], k);
    assert slot == n && found == (n < |table.heap[i]|);
    SearchFrom(table.heap, i, k);
  }

  // The page after pid, or none.
  method NextPage(table: TableHeap, pid: int, ghost i: nat) returns (q: int)
    requires table.Valid() && i < |table.chain| && table.chain[i] == pid
    ensures i + 1 < |table.chain| ==> q == table.chain[i + 1] != INVALID_PAGE_ID
    ensures i + 1 == |table.chain| ==> q == INVALID_PAGE_ID
  {
    assert table.Link(i);
    if i + 1 < |table.chain| {
      assert table.Link(i + 1);
    }
    q := table.next[pid];
  }

  // The first live tuple after (pid, slot), in chain and slot order.
  method Successor(table: TableHeap, pid: int, slot: nat, ghost i: nat)
      returns (found: bool, q: int, k: nat, ghost j: nat)
    requires table.Valid() && i < |table.chain| && table.chain[i] == pid && slot < |table.heap[i]|
    ensures j < |table.chain| && table.chain[j] == q && LiveFrom(table.heap, i, slot + 1) ==
            From(table.heap, j, found, k)
    ensures found ==> IsLive(table.heap, Rid(j, k))
    ensures !found ==> j + 1 == |table.chain|
  {
    q, j := pid, i;
    found, k := SearchPage(table, q, j, slot + 1);
    var next := NextPage(table, q, j);
    while !found && next != INVALID_PAGE_ID
      invariant j < |table.chain| && table.chain[j] == q
      invariant j + 1 < |table.chain| ==> next == table.chain[j + 1] != INVALID_PAGE_ID
      invariant j + 1 == |table.chain| ==> next == INVALID_PAGE_ID
      invariant LiveFrom(table.heap, i, slot + 1) == From(table.heap, j, found, k)
      invariant found ==> IsLive(table.heap, Rid(j, k))
      decreases |table.chain| - j
    {
      q, j := next, j + 1;
      found, k := SearchPage(table, q, j, 0);
      next := NextPage(table, q, j);
    }
  }

  class TableIterator {
    const table: TableHeap
    var rid: RID

    ghost predicate OnHeap()
      reads this, table
    {
      rid.pageId != INVALID_PAGE_ID ==> IsLive(table.heap, At(table.chain, rid))
    }

    // The places still to be visited, the current one first.
    ghost function Ahead(): seq<Rid>
      reads this, table
      requires OnHeap()
    {
      if rid.pageId == INVALID_PAGE_ID then []
      else LiveFrom(table.heap, Position(table.chain, rid.pageId), rid.slot)
    }

    // Starts at the first live tuple of the first page, or at the end.
    constructor Begin(table: TableHeap)
      requires table.Valid()
      ensures this.table == table && OnHeap()
      ensures Ahead() == if LiveOnPage(table.heap[0], 0, 0) != [] then LiveFrom(table.heap, 0, 0) else []
    {
      assert table.Link(0);
      var found, slot := SearchPage(table, table.firstPageId, 0, 0);
      SkipsDead(table.heap[0], 0, 0);
      this.table := table;
      rid := if found then RID(table.firstPageId, slot) else RID(INVALID_PAGE_ID, 0);
    }

    // Moves to the next live tuple, or to the end.
    method Next()
      requires table.Valid() && OnHeap() && rid.pageId != INVALID_PAGE_ID
      modifies this`rid
      ensures OnHeap() && old(Ahead()) == [old(At(table.chain, rid))] + Ahead()
    {
      ghost var i := Position(table.chain, rid.pageId);
      TakesFirst(table.heap, i, rid.slot);
      var found, pid, slot;
      ghost var j;
      found, pid, slot, j := Successor(table, rid.pageId, rid.slot, i);
      PositionOf(table.chain, j);
      assert table.Link(j);
      rid := if found then RID(pid, slot) else RID(INVALID_PAGE_ID, 0);
    }
  }

  // A scan from the beginning visits every live tuple once, in order, exactly when the first page
  // holds one or there is none.
  method Scan(table: TableHeap) returns (rids: seq<RID>, ghost places: seq<Rid>)
    requires table.Valid()
    ensures Stand(table.chain, rids, places)
    ensures var all := LiveFrom(table.heap, 0, 0);
            && (places == all || places == [])
            && (places == all <==> LiveOnPage(table.heap[0], 0, 0) != [] || all == [])
  {
    var it := new TableIterator.Begin(table);
    rids, places := Drain(it);
  }

  ghost predicate Stand(chain: seq<int>, rids: seq<RID>, places: seq<Rid>) {
    |places| == |rids| && forall n :: 0 <= n < |rids| ==> places[n] == At(chain, rids[n])
  }

  lemma StandMore(chain: seq<int>, rids: seq<RID>, places: seq<Rid>, rid: RID, rest: seq<Rid>)
    requires Stand(chain, rids, places)
    ensures Stand(chain, rids + [rid], places + [At(chain, rid)])
    ensures places + ([At(chain, rid)] + rest) == (places + [At(chain, rid)]) + rest
  {}

  method Drain(it: TableIterator) returns (rids: seq<RID>, ghost places: seq<Rid>)
    requires it.table.Valid() && it.OnHeap()
    modifies it`rid
    ensures Stand(it.table.chain, rids, places) && places == old(it.Ahead())
  {
    rids, places := [], [];
    ghost var all, left := it.Ahead(), it.Ahead();
    while it.rid.pageId != INVALID_PAGE_ID
      invariant it.OnHeap() && left == it.Ahead()
      invariant Stand(it.table.chain, rids, places) && places + left == all
      decreases |left|
    {
      var rid := it.rid;
      it.Next();
      left := it.Ahead();
      StandMore(it.table.chain, rids, places, rid, left);
      rids, places := rids + [rid], places + [At(it.table.chain, rid)];
    }
  }

  // --- a scan that misses a tuple ---

  lemma FullPage(big: seq<byte>, b: seq<byte>)
    requires |big| == PAGE_SIZE - HEADER_SIZE - SLOT_SIZE && b != [] && !TooLarge(b)
    ensures var h0: Heap, cs := [[]], [Live(big)];
            && Do(h0, Insert(big)) == [cs] && InsertRid(h0, big) == Rid(0, 0)
            && Do([cs], Insert(b)) == [cs, [Live(b)]] && InsertRid([cs], b) == Rid(1, 0)
  {
    var h0: Heap, cs := [[]], [Live(big)];
    assert FirstFit(h0, |big|) == 0;
    assert Put(h0[0], big) == cs;
    assert cs[1..] == [] && Room(cs) == 0;
    var h1: Heap := [cs];
    assert h1[1..] == [] && FirstFit(h1, |b|) == 1;
    assert Put([], b) == [Live(b)];
  }

  // Fill the first page, insert another tuple, delete the first one and commit: the second page holds
  // a live tuple, and a scan lists nothing.
  method MissedTuple(big: seq<byte>, b: seq<byte>) returns (table: TableHeap, rids: seq<RID>)
    requires |big| == PAGE_SIZE - HEADER_SIZE - SLOT_SIZE && b != [] && !TooLarge(b)
    ensures table.Valid() && table.heap == [[Empty], [Live(b)]] && rids == []
  {
    FullPage(big, b);
    table := new TableHeap();
    var txn := new Transaction();
    var ok, first, second;
    ghost var attempts;
    ok, first, attempts := table.InsertTuple(big, txn);
    ok, second, attempts := table.InsertTuple(b, txn);
    Forget(table, first, big, b);
    ghost var places;
    rids, places := Scan(table);
    assert LiveOnPage(table.heap[0], 0, 0) == [];
    assert LiveOnPage(table.heap[1], 1, 0) == [Rid(1, 0)];
    assert LiveFrom(table.heap, 0, 0) == [Rid(1, 0)];
  }

  // Deletes and commits the only tuple of the first page.
  method Forget(table: TableHeap, rid: RID, ghost big: seq<byte>, ghost b: seq<byte>)
    requires table.Valid() && table.heap == [[Live(big)], [Live(b)]] && At(table.chain, rid) == Rid(0, 0)
    modifies table`heap, table.table, Buffers(table.table)
    ensures table.Valid() && table.heap == [[Empty], [Live(b)]]
  {
    assert table.Link(0);
    var txn := new Transaction();
    table.MarkDelete(rid, txn);
    ghost var ws := TransactionManager.Records(table.chain, txn.writeSet);
    assert ws == [Deleted(Rid(0, 0))];
    assert table.heap[0] == [Marked(big)];
    assert CanPurgeFirst(Purge(table.heap, ws[0]), ws, 0);
    assert PurgeFirst(table.heap, ws, 1) == PurgeFirst(Purge(table.heap, ws[0]), ws, 0);
    TransactionManager.Commit(txn, table);
    assert table.heap[0] == [Empty];
  }
}
