/**
 Whole runs of the index: any sequence of inserts, removals and lookups is answered as by one
 finite map.
 */
module IndexRuns {
  import opened TreeTypes
  import opened BPlusTreeIndex
  import opened TreeInsert
  import S = TreeSizes

  datatype Request = Insert(key: Key, value: RID) | Remove(key: Key) | GetValue(key: Key)
  datatype Reply = Inserted(ok: bool) | Removed | Found(value: RID) | Absent

  function Apply(m: map<Key, RID>, q: Request): map<Key, RID> {
    match q
    case Insert(k, v) => if k in m then m else m[k := v]
    case Remove(k) => m - {k}
    case GetValue(_) => m
  }

  function Answer(m: map<Key, RID>, q: Request): Reply {
    match q
    case Insert(k, _) => Inserted(k !in m)
    case Remove(_) => Removed
    case GetValue(k) => if k in m then Found(m[k]) else Absent
  }

  function Final(m: map<Key, RID>, qs: seq<Request>): map<Key, RID> {
    if qs == [] then m else Apply(Final(m, qs[..|qs| - 1]), qs[|qs| - 1])
  }

  // One request against the index.
  method Serve(b: BPlusTree, q: Request) returns (r: Reply)
    requires b.Valid()
    modifies b, b.pages
    ensures b.Valid() && b.NewPages()
    ensures b.contents == Apply(old(b.contents), q) && r == Answer(old(b.contents), q)
  {
    match q
    case Insert(k, v) =>
      var ok := b.Insert(k, v);
      r := Inserted(ok);
    case Remove(k) =>
      b.Remove(k);
      r := Removed;
    case GetValue(k) =>
      var found, v := b.GetValue(k);
      r := if found then Found(v) else Absent;
  }

  // The height is logarithmic in the number of pairs.
  ghost predicate Shallow(b: BPlusTree)
    reads b
  {
    b.rootPageId != INVALID_PAGE_ID ==>
      && |b.contents| <= S.Most(b.lim, Height(b.tree))
      && (Height(b.tree) > 0 ==> 2 * S.Least(b.lim, Height(b.tree) - 1) <= |b.contents|)
  }

  lemma ValidIsShallow(b: BPlusTree)
    requires b.Valid()
    ensures Shallow(b) && (b.rootPageId == INVALID_PAGE_ID <==> b.contents == map[])
  {
    if b.rootPageId != INVALID_PAGE_ID {
      S.HeightBound(b.tree, b.lim, b.contents);
      S.SomePair(b.tree, b.lim, b.contents);
    }
  }

  // Every run from the empty tree is a run of the map, and leaves the index with that map.
  method Run(leafMax: nat, internalMax: nat, qs: seq<Request>) returns (b: BPlusTree, rs: seq<Reply>)
    requires Limits(leafMax, internalMax).Valid()
    ensures fresh(b) && b.Valid() && b.contents == Final(map[], qs)
    ensures b.rootPageId == INVALID_PAGE_ID <==> b.contents == map[]
    ensures Shallow(b)
    ensures |rs| == |qs|
    ensures forall i :: 0 <= i < |qs| ==> rs[i] == Answer(Final(map[], qs[..i]), qs[i])
  {
    b := new BPlusTree(leafMax, internalMax);
    rs := [];
    var i := 0;
    while i < |qs|
      invariant 0 <= i <= |qs| && |rs| == i
      invariant b.Valid() && fresh(b) && fresh(b.pages)
      invariant b.contents == Final(map[], qs[..i])
      invariant forall j :: 0 <= j < i ==> rs[j] == Answer(Final(map[], qs[..j]), qs[j])
    {
      var r := Serve(b, qs[i]);
      rs := rs + [r];
      assert qs[..i + 1][..i] == qs[..i];
      i := i + 1;
    }
    assert qs[..i] == qs;
    ValidIsShallow(b);
  }
}
