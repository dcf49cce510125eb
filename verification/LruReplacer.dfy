/**
 The LRU replacer: a doubly linked list between two sentinels, newest first, and a map from
 values to their nodes.
 */
module LruReplacers {
  import opened Options

  class Node<T(0)> {
    const val: T
    var prev: Node?<T>
    var next: Node?<T>

    constructor (v: T)
      ensures val == v
    {
      val, prev, next := v, null, null;
    }
  }

  ghost predicate Distinct<T>(s: seq<T>) {
    forall i, j :: 0 <= i < j < |s| ==> s[i] != s[j]
  }

  ghost predicate LinkedAt<T(0)>(nodes: seq<Node<T>>, i: nat)
    requires i + 1 < |nodes|
    reads nodes
  {
    nodes[i].next == nodes[i + 1] && nodes[i + 1].prev == nodes[i]
  }

  // Neighbours in the sequence are linked both ways.
  ghost predicate Linked<T(0)>(nodes: seq<Node<T>>)
    reads nodes
  {
    forall i {:trigger LinkedAt(nodes, i)} :: 0 <= i < |nodes| - 1 ==> LinkedAt(nodes, i)
  }

  // The values between the sentinels, newest first.
  ghost function Values<T(0)>(nodes: seq<Node<T>>): (s: seq<T>)
    requires |nodes| >= 2
    ensures |s| == |nodes| - 2 && forall i :: 0 <= i < |s| ==> s[i] == nodes[i + 1].val
  {
    seq(|nodes| - 2, i requires 0 <= i < |nodes| - 2 => nodes[i + 1].val)
  }

  // The map sends exactly the listed values to their nodes.
  ghost predicate Mapped<T(0)>(nodes: seq<Node<T>>, m: map<T, Node<T>>) {
    && (forall i {:trigger nodes[i]} :: 0 < i < |nodes| - 1 ==> nodes[i].val in m && m[nodes[i].val] == nodes[i])
    && (forall v {:trigger v in m} :: v in m ==> exists i :: 0 < i < |nodes| - 1 && nodes[i] == m[v] && m[v].val == v)
  }

  function Without<T>(s: seq<T>, i: nat): (r: seq<T>)
    requires i < |s|
    ensures |r| == |s| - 1 && forall j {:trigger r[j]} :: 0 <= j < |r| ==> r[j] == s[Skip(i, j)]
  {
    s[..i] + s[i + 1..]
  }

  // Where the entries left after removing entry i come from.
  function Skip(i: nat, j: nat): (k: nat)
    ensures j <= k <= j + 1 && k != i
  {
    if j < i then j else j + 1
  }

  lemma DistinctValues<T(0)>(nodes: seq<Node<T>>, m: map<T, Node<T>>)
    requires |nodes| >= 2 && Distinct(nodes) && Mapped(nodes, m)
    ensures Distinct(Values(nodes))
  {
    forall a, b | 0 <= a < b < |Values(nodes)| ensures Values(nodes)[a] != Values(nodes)[b] {
      assert nodes[a + 1] != nodes[b + 1];
    }
  }

  lemma RemoveMapped<T(0)>(nodes: seq<Node<T>>, m: map<T, Node<T>>, i: nat)
    requires Distinct(nodes) && Mapped(nodes, m) && 0 < i < |nodes| - 1
    ensures Mapped(Without(nodes, i), m - {nodes[i].val})
  {
    var r, m2 := Without(nodes, i), m - {nodes[i].val};
    forall j | 0 < j < |r| - 1 ensures r[j].val in m2 && m2[r[j].val] == r[j] {
      var k := Skip(i, j);
      assert r[j] == nodes[k] != nodes[i];
    }
    forall v | v in m2 ensures exists j :: 0 < j < |r| - 1 && r[j] == m2[v] && m2[v].val == v {
      var k :| 0 < k < |nodes| - 1 && nodes[k] == m[v] && m[v].val == v;
      assert r[if k < i then k else k - 1] == m2[v];
    }
  }

  lemma RemoveNode<T(0)>(nodes: seq<Node<T>>, m: map<T, Node<T>>, i: nat)
    requires Distinct(nodes) && Mapped(nodes, m) && 0 < i < |nodes| - 1
    ensures var r := Without(nodes, i);
            && Distinct(r) && Mapped(r, m - {nodes[i].val}) && Values(r) == Without(Values(nodes), i - 1)
            && Distinct(Values(nodes))
  {
    DistinctValues(nodes, m);
    RemoveMapped(nodes, m, i);
    RemoveDistinct(nodes, i);
    assert Values(Without(nodes, i)) == Without(Values(nodes), i - 1);
  }

  lemma RemoveDistinct<T>(s: seq<T>, i: nat)
    requires Distinct(s) && i < |s|
    ensures Distinct(Without(s, i))
  {
    var r := Without(s, i);
    forall a, b | 0 <= a < b < |r| ensures r[a] != r[b] {
      assert r[a] == s[Skip(i, a)] && r[b] == s[Skip(i, b)];
    }
  }

  function IndexOf<T(==)>(s: seq<T>, v: T): (i: nat)
    ensures i <= |s| && (v in s <==> i < |s|) && (i < |s| ==> s[i] == v)
  {
    if s == [] || s[0] == v then 0 else 1 + IndexOf(s[1..], v)
  }

  // The sequence without v.
  function Drop<T(==)>(s: seq<T>, v: T): seq<T> {
    if v in s then Without(s, IndexOf(s, v)) else s
  }

  lemma DropAt<T>(s: seq<T>, i: nat)
    requires Distinct(s) && i < |s|
    ensures Drop(s, s[i]) == Without(s, i)
  {}

  lemma DropMembers<T(!new)>(s: seq<T>, v: T)
    requires Distinct(s)
    ensures v !in Drop(s, v) && forall w :: w != v ==> (w in Drop(s, v) <==> w in s)
    ensures Distinct(Drop(s, v))
  {
    if v in s {
      var i, r := IndexOf(s, v), Drop(s, v);
      RemoveDistinct(s, i);
      forall w | w != v ensures w in r <==> w in s {
        if w in s {
          var k :| 0 <= k < |s| && s[k] == w;
          assert r[if k < i then k else k - 1] == w;
        }
      }
    }
  }

  ghost function Elements<T>(s: seq<T>): set<T> {
    set v | v in s
  }

  lemma {:induction false} CountDistinct<T>(s: seq<T>)
    requires Distinct(s)
    ensures |Elements(s)| == |s|
  {
    if s == [] {
      assert Elements(s) == {};
    } else {
      CountDistinct(s[1..]);
      assert Elements(s) == Elements(s[1..]) + {s[0]};
    }
  }

  lemma MapSize<T(0)>(nodes: seq<Node<T>>, m: map<T, Node<T>>)
    requires |nodes| >= 2 && Distinct(nodes) && Mapped(nodes, m)
    ensures |m| == |nodes| - 2 && Distinct(Values(nodes)) && forall v :: v in m <==> v in Values(nodes)
  {
    DistinctValues(nodes, m);
    CountDistinct(Values(nodes));
    forall v ensures v in m <==> v in Values(nodes) {
      if v in m {
        var i :| 0 < i < |nodes| - 1 && nodes[i] == m[v] && m[v].val == v;
        assert Values(nodes)[i - 1] == v;
      }
    }
    assert m.Keys == Elements(Values(nodes));
    assert |m| == |m.Keys|;
  }

  // Links the neighbours of node i to each other.
  method Bypass<T(0)>(cur: Node<T>, ghost nodes: seq<Node<T>>, ghost i: nat)
    requires Distinct(nodes) && Linked(nodes) && 0 < i < |nodes| - 1 && nodes[i] == cur
    modifies nodes[i - 1], nodes[i + 1]
    ensures Linked(Without(nodes, i))
  {
    assert LinkedAt(nodes, i - 1) && LinkedAt(nodes, i);
    var prev, succ := cur.prev, cur.next;
    prev.next := succ;
    succ.prev := prev;
    ghost var r := Without(nodes, i);
    forall j | 0 <= j < |r| - 1 ensures LinkedAt(r, j) {
      if j != i - 1 {
        assert old(LinkedAt(nodes, Skip(i, j)));
        assert r[j] == nodes[Skip(i, j)] && r[j + 1] == nodes[Skip(i, j) + 1];
      }
    }
  }

  ghost function InFront<T(0)>(nodes: seq<Node<T>>, n: Node<T>): seq<Node<T>>
    requires |nodes| >= 2
  {
    [nodes[0], n] + nodes[1..]
  }

  lemma AddNode<T(0)>(nodes: seq<Node<T>>, m: map<T, Node<T>>, n: Node<T>)
    requires |nodes| >= 2 && Distinct(nodes) && Mapped(nodes, m) && n !in nodes && n.val !in m
    ensures var r := InFront(nodes, n);
            Distinct(r) && Mapped(r, m[n.val := n]) && Values(r) == [n.val] + Values(nodes)
  {
    var r, m2 := InFront(nodes, n), m[n.val := n];
    forall j | 0 < j < |r| - 1 ensures r[j].val in m2 && m2[r[j].val] == r[j] {
      assert j > 1 ==> r[j] == nodes[j - 1];
    }
    forall v | v in m2 ensures exists j :: 0 < j < |r| - 1 && r[j] == m2[v] && m2[v].val == v {
      if v == n.val {
        assert r[1] == n;
      } else {
        var k :| 0 < k < |nodes| - 1 && nodes[k] == m[v] && m[v].val == v;
        assert r[k + 1] == m2[v];
      }
    }
  }

  class LruReplacer<T(0,==)> {
    const head: Node<T>
    const tail: Node<T>
    var nodeOf: map<T, Node<T>>
    ghost var nodes: seq<Node<T>>

    ghost predicate Valid()
      reads this, nodes
    {
      && |nodes| >= 2 && nodes[0] == head && nodes[|nodes| - 1] == tail
      && Distinct(nodes) && Mapped(nodes, nodeOf) && Linked(nodes)
    }

    ghost function Order(): seq<T>
      requires |nodes| >= 2
      reads this
    {
      Values(nodes)
    }

    constructor (filler: T)
      ensures Valid() && Order() == [] && fresh(nodes)
    {
      var h := new Node<T>(filler);
      var t := new Node<T>(filler);
      h.next, t.prev := t, h;
      head, tail, nodeOf, nodes := h, t, map[], [h, t];
    }

    // Takes node i out of the list.
    method Unlink(cur: Node<T>, ghost i: nat)
      requires Valid() && 0 < i < |nodes| - 1 && nodes[i] == cur
      modifies this`nodes, this`nodeOf, nodes[i - 1], nodes[i + 1]
      ensures Valid() && nodes == Without(old(nodes), i) && nodeOf == old(nodeOf) - {cur.val}
      ensures Order() == Without(old(Order()), i - 1) && Distinct(old(Order()))
    {
      RemoveNode(nodes, nodeOf, i);
      Bypass(cur, nodes, i);
      nodeOf := nodeOf - {cur.val};
      nodes := Without(nodes, i);
    }

    // Puts a node behind the head.
    method LinkFront(cur: Node<T>)
      requires Valid() && cur !in nodes && cur.val !in nodeOf
      modifies this`nodes, this`nodeOf, cur, nodes[0], nodes[1]
      ensures Valid() && nodes == InFront(old(nodes), cur) && nodeOf == old(nodeOf)[cur.val := cur]
      ensures Order() == [cur.val] + old(Order())
    {
      AddNode(nodes, nodeOf, cur);
      assert LinkedAt(nodes, 0);
      var second := head.next;
      cur.next := second;
      second.prev := cur;
      head.next := cur;
      cur.prev := head;
      nodeOf := nodeOf[cur.val := cur];
      ghost var was := nodes;
      nodes := InFront(nodes, cur);
      forall j | 0 <= j < |nodes| - 1 ensures LinkedAt(nodes, j) {
        assert j >= 2 ==> old(LinkedAt(was, j - 1));
      }
    }

    // Makes v the newest value.
    method Insert(v: T)
      requires Valid()
      modifies this, nodes
      ensures Valid() && Order() == [v] + Drop(old(Order()), v) && Grown()
    {
      MapSize(nodes, nodeOf);
      if v in nodeOf {
        Renew(v);
      } else {
        var cur := new Node<T>(v);
        LinkFront(cur);
      }
    }

    // Moves the node of v to the front.
    method Renew(v: T)
      requires Valid() && v in nodeOf
      modifies this, nodes
      ensures Valid() && Order() == [v] + Drop(old(Order()), v) && Grown()
    {
      var cur := nodeOf[v];
      ghost var i := Place(v);
      Unlink(cur, i);
      LinkFront(cur);
    }

    // Removes and returns the oldest value.
    method Victim() returns (r: Option<T>)
      requires Valid()
      modifies this, nodes
      ensures Valid() && Grown()
      ensures old(Order()) == [] ==> r == None && Order() == []
      ensures old(Order()) != [] ==>
                r == Some(old(Order())[|old(Order())| - 1]) && Order() == old(Order())[..|old(Order())| - 1]
    {
      MapSize(nodes, nodeOf);
      if |nodeOf| == 0 {
        return None;
      }
      ghost var i := |nodes| - 2;
      assert LinkedAt(nodes, i);
      var last := tail.prev;
      r := Some(last.val);
      Unlink(last, i);
    }

    method Erase(v: T) returns (ok: bool)
      requires Valid()
      modifies this, nodes
      ensures Valid() && Order() == Drop(old(Order()), v) && ok == (v in old(Order())) && Grown()
    {
      MapSize(nodes, nodeOf);
      ok := v in nodeOf;
      if ok {
        ghost var i := Place(v);
        Unlink(nodeOf[v], i);
      }
    }

    method Size() returns (n: nat)
      requires Valid()
      ensures n == |Order()|
    {
      MapSize(nodes, nodeOf);
      n := |nodeOf|;
    }

    // Position of the node of v.
    lemma Place(v: T) returns (i: nat)
      requires Valid() && v in nodeOf
      ensures 0 < i < |nodes| - 1 && nodes[i] == nodeOf[v] && nodes[i].val == v
      ensures Drop(Order(), v) == Without(Order(), i - 1)
    {
      i :| 0 < i < |nodes| - 1 && nodes[i] == nodeOf[v] && nodeOf[v].val == v;
      DistinctValues(nodes, nodeOf);
      DropAt(Order(), i - 1);
    }

    twostate predicate Grown()
      reads this
    {
      forall i :: 0 <= i < |nodes| ==> nodes[i] in old(nodes) || fresh(nodes[i])
    }
  }
}
