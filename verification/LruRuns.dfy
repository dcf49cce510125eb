/**
 Whole runs of the replacer against time stamps: every value present carries the time of its
 latest insert, and the victim is the value with the oldest one.
 */
module LruRuns {
  import opened LruReplacers
  import opened Options

  datatype Event<T> = Insert(v: T) | Erase(v: T) | Victim
  datatype Reply<T> = Done | Erased(ok: bool) | Chosen(r: Option<T>)

  // Stamps after an event at time now that was answered by a.
  ghost function Stamp<T>(stamps: map<T, nat>, e: Event<T>, a: Reply<T>, now: nat): map<T, nat> {
    match e
    case Insert(v) => stamps[v := now]
    case Erase(v) => stamps - {v}
    case Victim => if a.Chosen? && a.r.Some? then stamps - {a.r.value} else stamps
  }

  // Stamps after the first n events.
  ghost function Stamps<T>(es: seq<Event<T>>, replies: seq<Reply<T>>, n: nat): map<T, nat>
    requires n <= |es| && n <= |replies|
  {
    if n == 0 then map[] else Stamp(Stamps(es, replies, n - 1), es[n - 1], replies[n - 1], n - 1)
  }

  ghost predicate Oldest<T>(stamps: map<T, nat>, v: T) {
    v in stamps && forall w :: w in stamps ==> stamps[v] <= stamps[w]
  }

  // The answer that the stamps call for.
  ghost predicate Right<T>(stamps: map<T, nat>, e: Event<T>, a: Reply<T>) {
    match e
    case Insert(_) => a == Done
    case Erase(v) => a == Erased(v in stamps)
    case Victim => a.Chosen? && (a.r.None? <==> stamps == map[]) && (a.r.Some? ==> Oldest(stamps, a.r.value))
  }

  // The order lists the stamped values, newest first.
  ghost predicate Aged<T(!new)>(order: seq<T>, stamps: map<T, nat>, now: nat) {
    && Distinct(order)
    && (forall v :: v in order <==> v in stamps)
    && (forall v :: v in stamps ==> stamps[v] < now)
    && (forall i, j :: 0 <= i < j < |order| ==> stamps[order[j]] < stamps[order[i]])
  }

  ghost function Next<T>(order: seq<T>, e: Event<T>): seq<T> {
    match e
    case Insert(v) => [v] + Drop(order, v)
    case Erase(v) => Drop(order, v)
    case Victim => if order == [] then [] else order[..|order| - 1]
  }

  ghost function AnswerOf<T>(order: seq<T>, e: Event<T>): Reply<T> {
    match e
    case Insert(_) => Done
    case Erase(v) => Erased(v in order)
    case Victim => Chosen(if order == [] then None else Some(order[|order| - 1]))
  }

  lemma DropAged<T(!new)>(order: seq<T>, stamps: map<T, nat>, now: nat, v: T)
    requires Aged(order, stamps, now)
    ensures Aged(Drop(order, v), stamps - {v}, now)
  {
    DropMembers(order, v);
    var r := Drop(order, v);
    forall i, j | 0 <= i < j < |r| ensures stamps[r[j]] < stamps[r[i]] {
      if v in order {
        var k := IndexOf(order, v);
        assert r[i] == order[Skip(k, i)] && r[j] == order[Skip(k, j)];
      }
    }
  }

  lemma ConsAged<T(!new)>(rest: seq<T>, stamps: map<T, nat>, now: nat, v: T)
    requires Aged(rest, stamps, now) && v !in stamps
    ensures Aged([v] + rest, stamps[v := now], now + 1)
  {
    var r, s2 := [v] + rest, stamps[v := now];
    assert forall i {:trigger r[i]} :: 0 < i < |r| ==> r[i] == rest[i - 1] && r[i] in rest && r[i] in stamps;
    forall i, j | 0 <= i < j < |r| ensures r[i] != r[j] && s2[r[j]] < s2[r[i]] {
      assert r[j] == rest[j - 1];
    }
  }

  lemma InsertAged<T(!new)>(order: seq<T>, stamps: map<T, nat>, now: nat, v: T)
    requires Aged(order, stamps, now)
    ensures Aged([v] + Drop(order, v), stamps[v := now], now + 1)
  {
    DropAged(order, stamps, now, v);
    ConsAged(Drop(order, v), stamps - {v}, now, v);
    assert (stamps - {v})[v := now] == stamps[v := now];
  }

  lemma LastIsOldest<T(!new)>(order: seq<T>, stamps: map<T, nat>, now: nat)
    requires Aged(order, stamps, now) && order != []
    ensures Oldest(stamps, order[|order| - 1])
    ensures Aged(order[..|order| - 1], stamps - {order[|order| - 1]}, now)
  {
    var n := |order| - 1;
    DropAt(order, n);
    DropAged(order, stamps, now, order[n]);
    assert Without(order, n) == order[..n];
    assert order[n] in stamps;
    forall w | w in stamps ensures stamps[order[n]] <= stamps[w] {
      var k :| 0 <= k < |order| && order[k] == w;
    }
  }

  // One event: the answer is right and the order keeps following the stamps.
  lemma StepAged<T(!new)>(order: seq<T>, stamps: map<T, nat>, e: Event<T>, now: nat)
    requires Aged(order, stamps, now)
    ensures Right(stamps, e, AnswerOf(order, e))
    ensures Aged(Next(order, e), Stamp(stamps, e, AnswerOf(order, e), now), now + 1)
  {
    match e
    case Insert(v) =>
      InsertAged(order, stamps, now, v);
    case Erase(v) =>
      DropAged(order, stamps, now, v);
    case Victim =>
      if order == [] {
        assert stamps == map[];
      } else {
        LastIsOldest(order, stamps, now);
      }
  }

  method Serve<T(0,==,!new)>(lru: LruReplacer<T>, e: Event<T>) returns (a: Reply<T>)
    requires lru.Valid()
    modifies lru, lru.nodes
    ensures lru.Valid() && lru.Grown()
    ensures lru.Order() == Next(old(lru.Order()), e) && a == AnswerOf(old(lru.Order()), e)
  {
    match e
    case Insert(v) =>
      lru.Insert(v);
      a := Done;
    case Erase(v) =>
      var ok := lru.Erase(v);
      a := Erased(ok);
    case Victim =>
      var r := lru.Victim();
      a := Chosen(r);
  }

  // Every answer of every run from an empty replacer is right.
  method Run<T(0,==,!new)>(lru: LruReplacer<T>, es: seq<Event<T>>) returns (replies: seq<Reply<T>>)
    requires lru.Valid() && lru.Order() == []
    modifies lru, lru.nodes
    ensures lru.Valid() && |replies| == |es| && Aged(lru.Order(), Stamps(es, replies, |es|), |es|)
    ensures forall n :: 0 <= n < |es| ==> Right(Stamps(es, replies, n), es[n], replies[n])
  {
    replies := [];
    for n := 0 to |es|
      invariant lru.Valid() && lru.Grown() && |replies| == n && Aged(lru.Order(), Stamps(es, replies, n), n)
      invariant forall i :: 0 <= i < n ==> Right(Stamps(es, replies, i), es[i], replies[i])
    {
      ghost var order, before := lru.Order(), replies;
      var a := Serve(lru, es[n]);
      StepAged(order, Stamps(es, replies, n), es[n], n);
      replies := replies + [a];
      forall i | 0 <= i <= n ensures Stamps(es, replies, i) == Stamps(es, before, i) {
        SameStamps(es, before, replies, i);
      }
    }
  }

  lemma {:induction false} SameStamps<T>(es: seq<Event<T>>, a: seq<Reply<T>>, b: seq<Reply<T>>, n: nat)
    requires n <= |es| && n <= |a| && a <= b
    ensures Stamps(es, a, n) == Stamps(es, b, n)
  {
    if n > 0 {
      SameStamps(es, a, b, n - 1);
    }
  }
}
