/**
 The extendible hash table: a directory of shared buckets, changed in place. The table is a
 finite map; a full bucket is split, and the directory doubled, until the key has room.
 */
module ExtendibleHashing {
  import opened HashBits
  import opened HashDirectory
  import opened Options

  class Bucket<V> {
    var localDepth: nat
    var keymap: map<Key, V>

    constructor (depth: nat)
      ensures localDepth == depth && keymap == map[]
    {
      localDepth := depth;
      keymap := map[];
    }
  }

  class ExtendibleHash<V> {
    const bucketSize: nat
    var globalDepth: nat
    var bucketNum: nat
    var buckets: seq<Bucket<V>>
    ghost var table: Table<Bucket<V>, V>
    ghost var contents: map<Key, V>

    // The objects hold what the ghost table says.
    ghost predicate Tied()
      reads this, buckets
    {
      && table.globalDepth == globalDepth && table.dir == buckets
      && forall b {:trigger b in buckets} :: b in buckets ==>
           b in table.depth && b in table.entries && b.localDepth == table.depth[b] && b.keymap == table.entries[b]
    }

    ghost predicate Valid()
      reads this, buckets
    {
      && bucketSize >= 1 && Tied() && Inv(table, bucketSize) && Represents(table, contents)
      && bucketNum == |Names(buckets)|
    }

    twostate predicate Grown()
      reads this
    {
      forall i :: 0 <= i < |buckets| ==> buckets[i] in old(buckets) || fresh(buckets[i])
    }

    constructor (size: nat)
      requires size >= 1
      ensures Valid() && contents == map[] && bucketSize == size && fresh(buckets)
    {
      var b := new Bucket<V>(0);
      bucketSize := size;
      globalDepth := 0;
      bucketNum := 1;
      buckets := [b];
      table := Table(0, [b], map[b := 0], map[b := map[]]);
      contents := map[];
      new;
      assert SlotOK(table, 0, size);
      assert Names(buckets) == {b};
    }

    function GetIndex(key: Key): (i: nat)
      reads this
    {
      Low(Hash(key), globalDepth)
    }

    // The bucket that the directory names for key.
    method BucketOf(key: Key) returns (b: Bucket<V>)
      requires Valid()
      ensures b in buckets && b == Home(table, key) && |b.keymap| <= bucketSize
      ensures key in contents <==> key in b.keymap
      ensures key in contents ==> contents[key] == b.keymap[key]
    {
      b := buckets[GetIndex(key)];
      assert Home(table, key) in table.entries && b in buckets;
      assert SlotOK(table, GetIndex(key), bucketSize);
    }

    method Find(key: Key) returns (r: Option<V>)
      requires Valid()
      ensures r == if key in contents then Some(contents[key]) else None
    {
      var b := BucketOf(key);
      r := if key in b.keymap then Some(b.keymap[key]) else None;
    }

    method Remove(key: Key) returns (ok: bool)
      requires Valid()
      modifies this`table, this`contents, buckets
      ensures Valid() && ok == (key in old(contents)) && contents == old(contents) - {key}
    {
      var b := BucketOf(key);
      if key !in b.keymap {
        assert contents - {key} == contents;
        return false;
      }
      CutSize(b.keymap, key);
      SetEntries(key, b, b.keymap - {key}, contents - {key});
      ok := true;
    }

    // Replaces the entries of the bucket of key, which change for key alone.
    method SetEntries(key: Key, b: Bucket<V>, e: map<Key, V>, ghost m: map<Key, V>)
      requires Valid() && b == Home(table, key) && b in buckets && |e| <= bucketSize
      requires SameBut(e, b.keymap, key) && SameBut(m, contents, key)
      requires (key in m <==> key in e) && (key in m ==> m[key] == e[key])
      modifies this`table, this`contents, b`keymap
      ensures Valid() && contents == m && table == Store(old(table), b, e)
    {
      StoreKeeps(table, bucketSize, key, e, contents, m);
      b.keymap := e;
      table := Store(table, b, e);
      contents := m;
    }

    // --- splitting ---

    // Appends the directory to itself, slot by slot.
    method CopyDirectory()
      modifies this`buckets
      ensures buckets == old(buckets) + old(buckets)
    {
      var length := |buckets|;
      for i := 0 to length
        invariant buckets == old(buckets) + old(buckets)[..i]
      {
        buckets := buckets + [buckets[i]];
      }
    }

    // Doubles the directory when a bucket has outgrown it.
    method MakeRoom(depth: nat)
      requires Valid()
      modifies this`buckets, this`globalDepth, this`table
      ensures Valid() && Names(buckets) == Names(old(buckets)) && forall k: Key :: Home(table, k) == Home(old(table), k)
      ensures table == if depth > old(table).globalDepth then Double(old(table)) else old(table)
    {
      if depth > globalDepth {
        DoubleInv(table, bucketSize);
        DoubleNames(table);
        forall k: Key ensures Home(Double(table), k) == Home(table, k) {
          DoubleHome(table, k);
        }
        CopyDirectory();
        globalDepth := globalDepth + 1;
        table := Double(table);
        assert forall k: Key :: Home(table, k) in table.entries;
      }
    }

    // Points the slots of b with bit d to nb.
    method RedirectSlots(b: Bucket<V>, nb: Bucket<V>, d: nat)
      modifies this`buckets
      ensures buckets == Redirect(old(buckets), b, nb, d)
    {
      for i := 0 to |buckets|
        invariant |buckets| == |old(buckets)|
        invariant forall j :: 0 <= j < i ==> buckets[j] == Redirect(old(buckets), b, nb, d)[j]
        invariant forall j :: i <= j < |buckets| ==> buckets[j] == old(buckets)[j]
      {
        if buckets[i] == b && Bit(i, d) {
          buckets := buckets[i := nb];
        }
      }
    }

    // Moves the entries with bit d from b to nb.
    method Distribute(b: Bucket<V>, nb: Bucket<V>, d: nat)
      requires b != nb && nb.keymap == map[]
      modifies b`keymap, nb`keymap
      ensures b.keymap == Keep(old(b.keymap), d, false) && nb.keymap == Keep(old(b.keymap), d, true)
    {
      ghost var was := b.keymap;
      var todo := b.keymap.Keys;
      while todo != {}
        invariant todo <= was.Keys
        invariant forall k :: k in b.keymap <==> k in was && (k in todo || !Bit(Hash(k), d))
        invariant forall k :: k in nb.keymap <==> k in was && k !in todo && Bit(Hash(k), d)
        invariant forall k :: k in b.keymap ==> b.keymap[k] == was[k]
        invariant forall k :: k in nb.keymap ==> nb.keymap[k] == was[k]
        decreases todo
      {
        var k :| k in todo;
        if Bit(Hash(k), d) {
          nb.keymap := nb.keymap[k := b.keymap[k]];
          b.keymap := b.keymap - {k};
        }
        todo := todo - {k};
      }
    }

    // Splits b: its entries and its slots are shared out by the next bit.
    method SplitBucket(b: Bucket<V>)
      requires Valid() && b in buckets
      modifies this, b
      ensures Valid() && contents == old(contents) && Grown() && bucketNum == old(bucketNum) + 1
      ensures globalDepth == if old(table.depth[b]) < old(globalDepth) then old(globalDepth) else old(globalDepth) + 1
      ensures forall k: Key {:trigger Home(table, k)} :: Home(old(table), k) == b ==>
                Home(table, k) in table.depth && table.depth[Home(table, k)] == old(table.depth[b]) + 1
    {
      DepthAtMost(table, b, bucketSize);
      ghost var t := table;
      MakeRoom(b.localDepth + 1);
      assert b in Names(buckets);
      assert forall k: Key {:trigger Home(t, k)} :: Home(table, k) == Home(t, k);
      Divide(b);
    }

    method Divide(b: Bucket<V>)
      requires Valid() && b in buckets && table.depth[b] < globalDepth
      modifies this`buckets, this`bucketNum, this`table, b
      ensures Valid() && Grown() && bucketNum == old(bucketNum) + 1
      ensures forall k: Key {:trigger Home(table, k)} :: Home(old(table), k) == b ==>
                Home(table, k) in table.depth && table.depth[Home(table, k)] == old(table.depth[b]) + 1
    {
      var d := b.localDepth;
      b.localDepth := d + 1;
      bucketNum := bucketNum + 1;
      var nb := new Bucket<V>(d + 1);
      SplitKeeps(table, b, nb, bucketSize, contents);
      ghost var was := buckets;
      Distribute(b, nb, d);
      RedirectSlots(b, nb, d);
      table := Split(table, b, nb);
      assert Tied() by {
        forall x | x in buckets ensures x == nb || x in was {}
      }
    }

    // The bucket of key holds it, or has room for it.
    ghost predicate Takes(key: Key)
      requires Valid()
      reads this, buckets
    {
      var b := Home(table, key);
      b in table.entries && (key in table.entries[b] || |table.entries[b]| < bucketSize)
    }

    // Splits until the bucket of key takes it: not at all if it does.
    method FindRoom(key: Key) returns (b: Bucket<V>)
      requires Valid()
      modifies this, buckets
      ensures Valid() && contents == old(contents) && Grown()
      ensures b in buckets && b == Home(table, key) && |b.keymap| <= bucketSize
      ensures key in b.keymap || |b.keymap| < bucketSize
      ensures old(Takes(key)) ==> table == old(table) && buckets == old(buckets) && globalDepth == old(globalDepth)
      ensures !old(Takes(key)) ==> bucketNum > old(bucketNum)
    {
      b := BucketOf(key);
      while key !in b.keymap && |b.keymap| >= bucketSize
        invariant Valid() && contents == old(contents) && Grown()
        invariant b in buckets && b == Home(table, key) && |b.keymap| <= bucketSize
        invariant (bucketNum > old(bucketNum) && !old(Takes(key)))
                  || (table == old(table) && buckets == old(buckets) && globalDepth == old(globalDepth))
        decreases KEY_BITS - b.localDepth
      {
        HasRoomToSplit(key, b);
        SplitBucket(b);
        b := BucketOf(key);
      }
    }

    // Stores value under key, after as many splits as it takes.
    method Insert(key: Key, value: V)
      requires Valid()
      modifies this, buckets
      ensures Valid() && contents == old(contents)[key := value] && Grown()
      ensures old(Takes(key)) ==> buckets == old(buckets) && globalDepth == old(globalDepth)
      ensures !old(Takes(key)) ==> bucketNum > old(bucketNum)
    {
      var b := FindRoom(key);
      PutSize(b.keymap, key, value);
      SetEntries(key, b, b.keymap[key := value], contents[key := value]);
    }

    // A full bucket without the key has fewer bits than the keys have.
    lemma HasRoomToSplit(key: Key, b: Bucket<V>)
      requires Valid() && b in buckets && b == Home(table, key) && key !in b.keymap && |b.keymap| >= bucketSize
      ensures b.localDepth < KEY_BITS
    {
      assert b.keymap != map[];
      var other :| other in b.keymap;
      DepthBound(table, bucketSize, key, other);
    }
  }

  lemma StoreKeeps<B, V>(t: Table<B, V>, capacity: nat, k: Key, e: map<Key, V>, m: map<Key, V>, m2: map<Key, V>)
    requires Inv(t, capacity) && Represents(t, m) && Home(t, k) in t.entries && |e| <= capacity
    requires SameBut(e, t.entries[Home(t, k)], k) && SameBut(m2, m, k)
    requires (k in m2 <==> k in e) && (k in m2 ==> m2[k] == e[k])
    ensures Inv(Store(t, Home(t, k), e), capacity) && Represents(Store(t, Home(t, k), e), m2)
  {
    StoreInv(t, capacity, k, e);
    StoreRepresents(t, k, e, m, m2);
  }

  lemma CutSize<V>(m: map<Key, V>, k: Key)
    ensures |m - {k}| <= |m|
  {
    Subset((m - {k}).Keys, m.Keys);
    assert |(m - {k}).Keys| == |m - {k}| && |m.Keys| == |m|;
  }

  lemma PutSize<V>(m: map<Key, V>, k: Key, v: V)
    ensures |m[k := v]| == if k in m then |m| else |m| + 1
  {
    assert |m[k := v].Keys| == |m[k := v]| && m[k := v].Keys == m.Keys + {k};
  }

  ghost predicate SameBut<V>(e: map<Key, V>, f: map<Key, V>, k: Key) {
    forall x: Key :: x != k ==> (x in e <==> x in f) && (x in e ==> e[x] == f[x])
  }

  // --- runs ---

  datatype Request<V> = Get(key: Key) | Put(key: Key, value: V) | Drop(key: Key)
  datatype Reply<V> = Value(found: Option<V>) | Done | Dropped(present: bool)

  function Apply<V>(m: map<Key, V>, r: Request<V>): map<Key, V> {
    match r
    case Get(_) => m
    case Put(k, v) => m[k := v]
    case Drop(k) => m - {k}
  }

  function Answer<V>(m: map<Key, V>, r: Request<V>): Reply<V> {
    match r
    case Get(k) => Value(if k in m then Some(m[k]) else None)
    case Put(_, _) => Done
    case Drop(k) => Dropped(k in m)
  }

  // The map after the first n requests.
  function After<V>(m: map<Key, V>, rs: seq<Request<V>>, n: nat): map<Key, V>
    requires n <= |rs|
  {
    if n == 0 then m else Apply(After(m, rs, n - 1), rs[n - 1])
  }

  method Serve<V>(hash: ExtendibleHash<V>, r: Request<V>) returns (a: Reply<V>)
    requires hash.Valid()
    modifies hash, hash.buckets
    ensures hash.Valid() && hash.Grown()
    ensures hash.contents == Apply(old(hash.contents), r) && a == Answer(old(hash.contents), r)
  {
    match r
    case Get(k) =>
      var v := hash.Find(k);
      a := Value(v);
    case Put(k, v) =>
      hash.Insert(k, v);
      a := Done;
    case Drop(k) =>
      var ok := hash.Remove(k);
      a := Dropped(ok);
  }

  // The replies so far are those of the map.
  ghost predicate Right<V>(m: map<Key, V>, rs: seq<Request<V>>, replies: seq<Reply<V>>) {
    |replies| <= |rs| && forall n :: 0 <= n < |replies| ==> RightAt(m, rs, replies[n], n)
  }

  ghost predicate RightAt<V>(m: map<Key, V>, rs: seq<Request<V>>, a: Reply<V>, n: nat)
    requires n < |rs|
  {
    a == Answer(After(m, rs, n), rs[n])
  }

  lemma {:induction false} RightMore<V>(m: map<Key, V>, rs: seq<Request<V>>, replies: seq<Reply<V>>, a: Reply<V>)
    requires Right(m, rs, replies) && |replies| < |rs| && a == Answer(After(m, rs, |replies|), rs[|replies|])
    ensures Right(m, rs, replies + [a])
    ensures After(m, rs, |replies| + 1) == Apply(After(m, rs, |replies|), rs[|replies|])
  {
    var more, k := replies + [a], |replies|;
    assert more[k] == a;
    forall n | 0 <= n < k ensures RightAt(m, rs, more[n], n) {
      assert more[n] == replies[n];
    }
  }

  // Every run answers as a plain map does.
  method Run<V>(hash: ExtendibleHash<V>, rs: seq<Request<V>>) returns (replies: seq<Reply<V>>)
    requires hash.Valid()
    modifies hash, hash.buckets
    ensures hash.Valid() && hash.contents == After(old(hash.contents), rs, |rs|)
    ensures |replies| == |rs| && Right(old(hash.contents), rs, replies)
  {
    ghost var m := hash.contents;
    replies := [];
    while |replies| < |rs|
      invariant hash.Valid() && hash.Grown() && Right(m, rs, replies) && hash.contents == After(m, rs, |replies|)
    {
      var a := Serve(hash, rs[|replies|]);
      RightMore(m, rs, replies, a);
      replies := replies + [a];
    }
  }
}
