/**
 The directory of an extendible hash table, as values over bucket names: which bucket every slot
 names, and the depth and the entries of every bucket.
 */
module HashDirectory {
  import opened HashBits

  const KEY_BITS := 32

  // The 32-bit integers that keys are. Their low 32 bits tell them apart.
  type Key = k: int | -0x8000_0000 <= k < 0x8000_0000

  function Hash(k: Key): (h: nat)
    ensures h < 0x1_0000_0000
  {
    k % 0x1_0000_0000
  }

  datatype Table<B(==), V> = Table(globalDepth: nat, dir: seq<B>, depth: map<B, nat>, entries: map<B, map<Key, V>>)

  // Slot i names a bucket whose entries all belong there.
  ghost predicate SlotOK<B, V>(t: Table<B, V>, i: nat, capacity: nat)
    requires i < |t.dir|
  {
    var b := t.dir[i];
    && b in t.depth && b in t.entries && t.depth[b] <= t.globalDepth && |t.entries[b]| <= capacity
    && forall k: Key :: k in t.entries[b] ==> Agree(Hash(k), i, t.depth[b])
  }

  // Two slots name the same bucket exactly when they agree on the low bits that it has.
  ghost predicate Shared<B, V>(t: Table<B, V>, i: nat, j: nat)
    requires i < |t.dir| && j < |t.dir|
  {
    t.dir[i] in t.depth && (t.dir[i] == t.dir[j] <==> Agree(i, j, t.depth[t.dir[i]]))
  }

  ghost predicate Inv<B, V>(t: Table<B, V>, capacity: nat) {
    && |t.dir| == Pow2(t.globalDepth)
    && (forall i {:trigger SlotOK(t, i, capacity)} :: 0 <= i < |t.dir| ==> SlotOK(t, i, capacity))
    && (forall i, j {:trigger Shared(t, i, j)} :: 0 <= i < |t.dir| && 0 <= j < |t.dir| ==> Shared(t, i, j))
  }

  // The bucket that a key is looked for in.
  function Home<B, V>(t: Table<B, V>, k: Key): B
    requires |t.dir| == Pow2(t.globalDepth)
  {
    t.dir[Low(Hash(k), t.globalDepth)]
  }

  // The entries found through the directory are m.
  ghost predicate Represents<B, V>(t: Table<B, V>, m: map<Key, V>) {
    && |t.dir| == Pow2(t.globalDepth)
    && forall k: Key :: Home(t, k) in t.entries
         && (k in m <==> k in t.entries[Home(t, k)]) && (k in m ==> m[k] == t.entries[Home(t, k)][k])
  }

  // --- doubling the directory ---

  function Double<B, V>(t: Table<B, V>): Table<B, V> {
    t.(globalDepth := t.globalDepth + 1, dir := t.dir + t.dir)
  }

  function Fold(i: nat, n: nat): (r: nat)
    requires i < 2 * n
    ensures r < n
  {
    if i < n then i else i - n
  }

  lemma FoldAgrees<B, V>(t: Table<B, V>, i: nat)
    requires |t.dir| == Pow2(t.globalDepth) && i < 2 * |t.dir|
    ensures Agree(i, Fold(i, |t.dir|), t.globalDepth)
    ensures Double(t).dir[i] == t.dir[Fold(i, |t.dir|)]
  {
    if i >= |t.dir| {
      UpperHalf(i, t.globalDepth);
    }
  }

  lemma AgreeLess(x: nat, y: nat, d: nat, e: nat)
    requires Agree(x, y, d) && e <= d
    ensures Agree(x, y, e)
  {}

  lemma AgreeTrans(x: nat, y: nat, z: nat, d: nat)
    requires Agree(x, y, d)
    ensures Agree(x, z, d) <==> Agree(y, z, d)
    ensures Agree(z, x, d) <==> Agree(z, y, d)
  {
    if Agree(x, z, d) || Agree(z, x, d) {
      assert forall n: nat :: n < d ==> Bit(x, n) == Bit(z, n) == Bit(y, n);
    }
    if Agree(y, z, d) || Agree(z, y, d) {
      assert forall n: nat :: n < d ==> Bit(y, n) == Bit(z, n) == Bit(x, n);
    }
  }

  lemma DoubleInv<B, V>(t: Table<B, V>, capacity: nat)
    requires Inv(t, capacity)
    ensures Inv(Double(t), capacity)
  {
    var t2, n := Double(t), |t.dir|;
    forall i | 0 <= i < |t2.dir| ensures SlotOK(t2, i, capacity) {
      var r := Fold(i, n);
      FoldAgrees(t, i);
      assert SlotOK(t, r, capacity);
      AgreeLess(i, r, t.globalDepth, t.depth[t.dir[r]]);
      forall k: Key | k in t.entries[t.dir[r]] ensures Agree(Hash(k), i, t.depth[t.dir[r]]) {
        AgreeTrans(i, r, Hash(k), t.depth[t.dir[r]]);
      }
    }
    forall i, j | 0 <= i < |t2.dir| && 0 <= j < |t2.dir| ensures Shared(t2, i, j) {
      DoubleShared(t, capacity, i, j);
    }
  }

  lemma DoubleShared<B, V>(t: Table<B, V>, capacity: nat, i: nat, j: nat)
    requires Inv(t, capacity) && i < 2 * |t.dir| && j < 2 * |t.dir|
    ensures Shared(Double(t), i, j)
  {
    var n := |t.dir|;
    var r, s := Fold(i, n), Fold(j, n);
    FoldAgrees(t, i);
    FoldAgrees(t, j);
    assert SlotOK(t, r, capacity) && Shared(t, r, s);
    var d := t.depth[t.dir[r]];
    AgreeLess(i, r, t.globalDepth, d);
    AgreeLess(j, s, t.globalDepth, d);
    AgreeTrans(i, r, j, d);
    AgreeTrans(j, s, r, d);
  }

  lemma DoubleHome<B, V>(t: Table<B, V>, k: Key)
    requires |t.dir| == Pow2(t.globalDepth)
    ensures Home(Double(t), k) == Home(t, k)
  {
    var g, x := t.globalDepth, Hash(k);
    var i := Low(x, g + 1);
    FoldAgrees(t, i);
    LowAgrees(x, g + 1);
    LowAgrees(x, g);
    AgreeLess(i, x, g + 1, g);
    AgreeTrans(i, Fold(i, |t.dir|), x, g);
    AgreeTrans(Low(x, g), x, Fold(i, |t.dir|), g);
    AgreeSame(Low(x, g), Fold(i, |t.dir|), g);
  }

  // --- splitting a bucket ---

  function Keep<V>(m: map<Key, V>, d: nat, high: bool): map<Key, V> {
    map k | k in m && Bit(Hash(k), d) == high :: m[k]
  }

  ghost function Redirect<B>(dir: seq<B>, b: B, nb: B, d: nat): (r: seq<B>)
    ensures |r| == |dir|
  {
    seq(|dir|, i requires 0 <= i < |dir| => if dir[i] == b && Bit(i, d) then nb else dir[i])
  }

  ghost function Split<B, V>(t: Table<B, V>, b: B, nb: B): Table<B, V>
    requires b in t.depth && b in t.entries
  {
    var d := t.depth[b];
    Table(t.globalDepth, Redirect(t.dir, b, nb, d), t.depth[b := d + 1][nb := d + 1],
          t.entries[b := Keep(t.entries[b], d, false)][nb := Keep(t.entries[b], d, true)])
  }

  lemma KeepSize<V>(m: map<Key, V>, d: nat, high: bool)
    ensures |Keep(m, d, high)| <= |m|
  {
    Subset(Keep(m, d, high).Keys, m.Keys);
    assert |Keep(m, d, high)| == |Keep(m, d, high).Keys| && |m| == |m.Keys|;
  }

  lemma {:induction false} Subset<T>(a: set<T>, b: set<T>)
    requires a <= b
    ensures |a| <= |b|
  {
    if a != {} {
      var x :| x in a;
      Subset(a - {x}, b - {x});
    }
  }

  ghost predicate Splittable<B, V>(t: Table<B, V>, b: B, nb: B, capacity: nat) {
    Inv(t, capacity) && b in t.dir && b in t.depth && b in t.entries && nb !in t.dir && t.depth[b] < t.globalDepth
  }

  lemma SplitSlot<B, V>(t: Table<B, V>, b: B, nb: B, capacity: nat, i: nat)
    requires Splittable(t, b, nb, capacity) && i < |t.dir|
    ensures SlotOK(Split(t, b, nb), i, capacity)
  {
    var d, t2 := t.depth[b], Split(t, b, nb);
    assert SlotOK(t, i, capacity);
    if t.dir[i] == b {
      KeepSize(t.entries[b], d, false);
      KeepSize(t.entries[b], d, true);
      forall k: Key | k in t2.entries[t2.dir[i]] ensures Agree(Hash(k), i, d + 1) {
        AgreeMore(Hash(k), i, d);
      }
    }
  }

  lemma SplitShared<B, V>(t: Table<B, V>, b: B, nb: B, capacity: nat, i: nat, j: nat)
    requires Splittable(t, b, nb, capacity) && i < |t.dir| && j < |t.dir|
    ensures Shared(Split(t, b, nb), i, j)
  {
    var d := t.depth[b];
    assert SlotOK(t, i, capacity) && Shared(t, i, j) && Shared(t, j, i);
    AgreeMore(i, j, d);
  }

  lemma SplitInv<B, V>(t: Table<B, V>, b: B, nb: B, capacity: nat)
    requires Splittable(t, b, nb, capacity)
    ensures Inv(Split(t, b, nb), capacity)
  {
    var t2 := Split(t, b, nb);
    forall i | 0 <= i < |t2.dir| ensures SlotOK(t2, i, capacity) {
      SplitSlot(t, b, nb, capacity, i);
    }
    forall i, j | 0 <= i < |t2.dir| && 0 <= j < |t2.dir| ensures Shared(t2, i, j) {
      SplitShared(t, b, nb, capacity, i, j);
    }
  }

  // A key is found in the half that its next bit selects.
  lemma SplitHome<B, V>(t: Table<B, V>, b: B, nb: B, capacity: nat, k: Key)
    requires Splittable(t, b, nb, capacity)
    ensures Home(Split(t, b, nb), k) == if Home(t, k) == b && Bit(Hash(k), t.depth[b]) then nb else Home(t, k)
  {
    LowAgrees(Hash(k), t.globalDepth);
  }

  lemma SplitRepresents<B, V>(t: Table<B, V>, b: B, nb: B, capacity: nat, m: map<Key, V>)
    requires Splittable(t, b, nb, capacity) && Represents(t, m)
    ensures Represents(Split(t, b, nb), m)
  {
    var t2 := Split(t, b, nb);
    forall k: Key
      ensures Home(t2, k) in t2.entries && (k in m <==> k in t2.entries[Home(t2, k)])
      ensures k in m ==> m[k] == t2.entries[Home(t2, k)][k]
    {
      SplitHome(t, b, nb, capacity, k);
      assert Home(t, k) in t.entries;
    }
  }

  // --- counting buckets ---

  ghost function Names<B>(dir: seq<B>): set<B> {
    set b | b in dir
  }

  // A split leaves both halves named by some slot.
  lemma SplitNames<B, V>(t: Table<B, V>, b: B, nb: B, capacity: nat)
    requires Splittable(t, b, nb, capacity)
    ensures Names(Split(t, b, nb).dir) == Names(t.dir) + {nb}
    ensures |Names(Split(t, b, nb).dir)| == |Names(t.dir)| + 1
  {
    var d, dir2 := t.depth[b], Split(t, b, nb).dir;
    var i :| 0 <= i < |t.dir| && t.dir[i] == b;
    FlipsBit(i, d, t.globalDepth);
    var j := Flip(i, d);
    assert Shared(t, i, j);
    assert dir2[if Bit(i, d) then i else j] == nb && dir2[if Bit(i, d) then j else i] == b;
    forall x | x in Names(t.dir) ensures x in Names(dir2) {
      if x != b {
        var n :| 0 <= n < |t.dir| && t.dir[n] == x;
        assert dir2[n] == x;
      }
    }
  }

  lemma DoubleNames<B, V>(t: Table<B, V>)
    ensures Names(Double(t).dir) == Names(t.dir)
  {}

  lemma DepthAtMost<B, V>(t: Table<B, V>, b: B, capacity: nat)
    requires Inv(t, capacity) && b in t.dir
    ensures b in t.depth && b in t.entries && t.depth[b] <= t.globalDepth
  {
    var i :| 0 <= i < |t.dir| && t.dir[i] == b;
    assert SlotOK(t, i, capacity);
  }

  // Everything that a split keeps.
  lemma SplitKeeps<B, V>(t: Table<B, V>, b: B, nb: B, capacity: nat, m: map<Key, V>)
    requires Splittable(t, b, nb, capacity) && Represents(t, m)
    ensures var t2 := Split(t, b, nb);
            && Inv(t2, capacity) && Represents(t2, m) && |Names(t2.dir)| == |Names(t.dir)| + 1
            && (forall x :: x in t2.dir ==> x == nb || x in t.dir)
            && forall k: Key {:trigger Home(t2, k)} :: Home(t, k) == b ==> Home(t2, k) == b || Home(t2, k) == nb
  {
    SplitInv(t, b, nb, capacity);
    SplitRepresents(t, b, nb, capacity, m);
    SplitNames(t, b, nb, capacity);
    var t2 := Split(t, b, nb);
    forall x | x in t2.dir ensures x == nb || x in t.dir {
      assert x in Names(t2.dir);
    }
    forall k: Key | Home(t, k) == b ensures Home(t2, k) == b || Home(t2, k) == nb {
      SplitHome(t, b, nb, capacity, k);
    }
  }

  // --- why splitting ends ---

  lemma {:induction false} Bits32()
    ensures Pow2(KEY_BITS) == 0x1_0000_0000
  {
    assert Pow2(4) == 16;
    assert Pow2(8) == 256 by { assert Pow2(6) == 64; }
    assert Pow2(12) == 4096 by { assert Pow2(10) == 1024; }
    assert Pow2(16) == 65536 by { assert Pow2(14) == 16384; }
    assert Pow2(20) == 0x10_0000 by { assert Pow2(18) == 0x4_0000; }
    assert Pow2(24) == 0x100_0000 by { assert Pow2(22) == 0x40_0000; }
    assert Pow2(28) == 0x1000_0000 by { assert Pow2(26) == 0x400_0000; }
    assert Pow2(30) == 0x4000_0000;
  }

  // A bucket that holds a key besides k, where k belongs, has fewer than 32 bits.
  lemma DepthBound<B, V>(t: Table<B, V>, capacity: nat, k: Key, other: Key)
    requires Inv(t, capacity) && other != k
    requires Home(t, k) in t.entries && other in t.entries[Home(t, k)]
    ensures Home(t, k) in t.depth && t.depth[Home(t, k)] < KEY_BITS
  {
    var i := Low(Hash(k), t.globalDepth);
    var b := t.dir[i];
    assert SlotOK(t, i, capacity);
    if t.depth[b] >= KEY_BITS {
      LowAgrees(Hash(k), t.globalDepth);
      AgreeLess(i, Hash(k), t.globalDepth, KEY_BITS);
      AgreeLess(Hash(other), i, t.depth[b], KEY_BITS);
      AgreeTrans(i, Hash(k), Hash(other), KEY_BITS);
      Bits32();
      AgreeSame(Hash(other), Hash(k), KEY_BITS);
      assert false;
    }
  }

  // --- storing and removing an entry where it belongs ---

  function Store<B, V>(t: Table<B, V>, b: B, m: map<Key, V>): Table<B, V> {
    t.(entries := t.entries[b := m])
  }

  // Only the bucket of k may hold k.
  lemma OnlyHome<B, V>(t: Table<B, V>, capacity: nat, k: Key, i: nat)
    requires Inv(t, capacity) && i < |t.dir| && t.dir[i] in t.entries && k in t.entries[t.dir[i]]
    ensures t.dir[i] == Home(t, k)
  {
    var j := Low(Hash(k), t.globalDepth);
    LowAgrees(Hash(k), t.globalDepth);
    assert SlotOK(t, i, capacity) && Shared(t, i, j);
    var d := t.depth[t.dir[i]];
    AgreeLess(j, Hash(k), t.globalDepth, d);
    AgreeTrans(j, Hash(k), i, d);
  }

  lemma StoreInv<B, V>(t: Table<B, V>, capacity: nat, k: Key, m: map<Key, V>)
    requires Inv(t, capacity) && Home(t, k) in t.entries && |m| <= capacity
    requires forall x :: x in m ==> x == k || x in t.entries[Home(t, k)]
    ensures Inv(Store(t, Home(t, k), m), capacity)
  {
    var b := Home(t, k);
    var t2 := Store(t, b, m);
    var j := Low(Hash(k), t.globalDepth);
    LowAgrees(Hash(k), t.globalDepth);
    forall i | 0 <= i < |t2.dir| ensures SlotOK(t2, i, capacity) {
      assert SlotOK(t, i, capacity) && Shared(t, i, j);
      if t.dir[i] == b {
        AgreeLess(j, Hash(k), t.globalDepth, t.depth[b]);
        AgreeTrans(j, Hash(k), i, t.depth[b]);
      }
    }
    forall i, j | 0 <= i < |t2.dir| && 0 <= j < |t2.dir| ensures Shared(t2, i, j) {
      assert Shared(t, i, j);
    }
  }

  lemma StoreRepresents<B, V>(t: Table<B, V>, k: Key, e: map<Key, V>, m: map<Key, V>, m2: map<Key, V>)
    requires Represents(t, m)
    requires forall x :: x != k ==>
               (x in e <==> x in t.entries[Home(t, k)]) && (x in e ==> e[x] == t.entries[Home(t, k)][x])
    requires forall x :: x != k ==> (x in m2 <==> x in m) && (x in m2 ==> m2[x] == m[x])
    requires (k in m2 <==> k in e) && (k in m2 ==> m2[k] == e[k])
    ensures Represents(Store(t, Home(t, k), e), m2)
  {
    var t2 := Store(t, Home(t, k), e);
    forall x: Key
      ensures Home(t2, x) in t2.entries && (x in m2 <==> x in t2.entries[Home(t2, x)])
      ensures x in m2 ==> m2[x] == t2.entries[Home(t2, x)][x]
    {
      assert Home(t2, x) == Home(t, x) && Home(t, x) in t.entries;
    }
  }
}
