/**
 What the reader-writer lock gives: a test of its condition lets a thread in exactly when no other
 thread stands in its way, readers share the lock, and whoever waits can still get in.
 */
module RwProgress {
  import opened RwMutex

  // --- who stands in the way, told by the threads alone ---

  // A writer other than t has entered.
  ghost predicate WriterIn(s: State, t: nat) {
    exists i :: 0 <= i < |s.threads| && i != t && Is(Holders, s.threads[i])
  }

  ghost predicate ReaderIn(s: State) {
    exists i :: 0 <= i < |s.threads| && Is(Readers, s.threads[i])
  }

  lemma EnteredIff(s: State, t: nat)
    requires Safe(s) && t < |s.threads| && !Is(Holders, s.threads[t])
    ensures s.entered <==> WriterIn(s, t)
  {
    if s.entered {
      var i := Witness(s.threads, Holders);
    }
    if i :| 0 <= i < |s.threads| && i != t && Is(Holders, s.threads[i]) {
      CountAtLeast(s.threads, Holders, i);
    }
  }

  lemma ReadersIff(s: State)
    requires Safe(s)
    ensures s.readers > 0 <==> ReaderIn(s)
  {
    if s.readers > 0 {
      var i := Witness(s.threads, Readers);
    }
    if i :| 0 <= i < |s.threads| && Is(Readers, s.threads[i]) {
      CountAtLeast(s.threads, Readers, i);
    }
  }

  // Thread t tests for the lock as a reader, or as a writer that has not entered, or as one that has.
  predicate TestsRead(s: State, a: Action) {
    a.t < |s.threads| && (a.RLock? || (a.Resume? && s.threads[a.t].Queued?))
  }

  predicate TestsEnter(s: State, a: Action) {
    a.t < |s.threads| && (a.WLock? || (a.Resume? && s.threads[a.t].Entering?))
  }

  predicate TestsDrain(s: State, a: Action) {
    a.t < |s.threads| && a.Resume? && s.threads[a.t].Draining?
  }

  // A reader gets in exactly when no writer has entered and fewer read than may. A writer enters
  // exactly when no other has, and writes exactly when no one reads. Everyone else waits.
  lemma GrantedIff(run: seq<State>, actions: seq<Action>, maxReaders: nat, n: nat)
    requires IsRun(run, actions, maxReaders) && n < |actions|
    ensures var s, a, p := run[n], actions[n], PhaseOf(run[n + 1], actions[n].t);
            && (TestsRead(s, a) ==>
                  if WriterIn(s, a.t) || Count(s.threads, Readers) >= maxReaders then p == Queued(false)
                  else p == Reading)
            && (TestsEnter(s, a) ==>
                  if WriterIn(s, a.t) then p == Entering(false)
                  else if ReaderIn(s) then p == Draining(false)
                  else p == Writing)
            && (TestsDrain(s, a) ==> if ReaderIn(s) then p == Draining(false) else p == Writing)
  {
    RunSafe(run, actions, maxReaders, n);
    AtMostMax(run, actions, maxReaders, n);
    var s, a := run[n], actions[n];
    assert Enabled(s, a, maxReaders) && run[n + 1] == Step(s, a, maxReaders);
    ReadersIff(s);
    if !Is(Holders, s.threads[a.t]) {
      EnteredIff(s, a.t);
    }
  }

  function PhaseOf(s: State, t: nat): Phase {
    if t < |s.threads| then s.threads[t] else Idle
  }

  lemma {:induction false} AtMostMax(run: seq<State>, actions: seq<Action>, maxReaders: nat, n: nat)
    requires IsRun(run, actions, maxReaders) && n <= |actions|
    ensures run[n].readers <= maxReaders
  {
    if n > 0 {
      AtMostMax(run, actions, maxReaders, n - 1);
      var a := actions[n - 1];
      assert Enabled(run[n - 1], a, maxReaders) && run[n] == Step(run[n - 1], a, maxReaders);
    }
  }

  // --- going on ---

  lemma RunMore(run: seq<State>, actions: seq<Action>, maxReaders: nat, a: Action)
    requires IsRun(run, actions, maxReaders) && Enabled(run[|actions|], a, maxReaders)
    ensures IsRun(run + [Step(run[|actions|], a, maxReaders)], actions + [a], maxReaders)
  {
    var run2, more := run + [Step(run[|actions|], a, maxReaders)], actions + [a];
    forall n | 0 <= n < |more|
      ensures Enabled(run2[n], more[n], maxReaders) && run2[n + 1] == Step(run2[n], more[n], maxReaders)
    {
      if n < |actions| {
        assert more[n] == actions[n] && run2[n] == run[n] && run2[n + 1] == run[n + 1];
      }
    }
  }

  lemma GoOn(run: seq<State>, actions: seq<Action>, maxReaders: nat, a: Action)
    returns (run2: seq<State>, more: seq<Action>)
    requires IsRun(run, actions, maxReaders) && Enabled(run[|actions|], a, maxReaders)
    ensures IsRun(run2, more, maxReaders) && run <= run2 && more == actions + [a]
    ensures run2[|more|] == Step(run[|actions|], a, maxReaders)
  {
    RunMore(run, actions, maxReaders, a);
    run2, more := run + [Step(run[|actions|], a, maxReaders)], actions + [a];
  }

  // --- sharing ---

  // The first n threads read, the others are idle.
  ghost predicate Sharing(s: State, n: nat, k: nat) {
    && n <= k == |s.threads| && !s.entered && s.readers == n
    && forall i :: 0 <= i < k ==> s.threads[i] == if i < n then Reading else Idle
  }

  // Up to the limit, any number of threads can read at once.
  lemma {:induction false} Shared(n: nat, k: nat, maxReaders: nat) returns (run: seq<State>, actions: seq<Action>)
    requires n <= k && n <= maxReaders
    ensures IsRun(run, actions, maxReaders) && Sharing(run[|actions|], n, k)
  {
    if n == 0 {
      run, actions := [State(seq(k, _ => Idle), 0, false)], [];
    } else {
      run, actions := Shared(n - 1, k, maxReaders);
      run, actions := GoOn(run, actions, maxReaders, RLock(n - 1));
    }
  }

  // --- whoever waits can get in ---

  lemma Chosen(s: State, writers: bool) returns (k: nat)
    ensures Choice(s, k, writers)
  {
    if i :| 0 <= i < |s.threads| && (if writers then OnWriters(s.threads[i]) else OnReaders(s.threads[i])) {
      k := i;
    } else {
      k := |s.threads|;
    }
  }

  // What thread i waits for.
  predicate Wants(s: State, i: nat, write: bool) {
    i < |s.threads| && if write then s.threads[i].Entering? || s.threads[i].Draining? else s.threads[i].Queued?
  }

  // A reader leaves: one reader less, the same waiters.
  lemma OneLeaves(s: State, maxReaders: nat, i: nat, write: bool) returns (a: Action)
    requires Safe(s) && s.readers > 0 && Wants(s, i, write)
    ensures Enabled(s, a, maxReaders)
    ensures var s2 := Step(s, a, maxReaders); s2.readers == s.readers - 1 && Wants(s2, i, write)
  {
    var t := Witness(s.threads, Readers);
    var s1 := Left(s, t);
    var k := Chosen(s1, s1.entered);
    a := RUnlock(t, k);
  }

  lemma {:induction false} AllLeave(run: seq<State>, actions: seq<Action>, maxReaders: nat, i: nat, write: bool)
    returns (run2: seq<State>, more: seq<Action>)
    requires IsRun(run, actions, maxReaders) && Wants(run[|actions|], i, write)
    ensures IsRun(run2, more, maxReaders) && run <= run2
    ensures run2[|more|].readers == 0 && Wants(run2[|more|], i, write)
    decreases run[|actions|].readers
  {
    run2, more := run, actions;
    var s := run[|actions|];
    if s.readers > 0 {
      RunSafe(run, actions, maxReaders, |actions|);
      var a := OneLeaves(s, maxReaders, i, write);
      run2, more := GoOn(run, actions, maxReaders, a);
      run2, more := AllLeave(run2, more, maxReaders, i, write);
    }
  }

  // With no reader left, the writer that has entered writes.
  lemma WriterWrites(s: State, maxReaders: nat, j: nat)
    requires Safe(s) && NoneForgotten(s, maxReaders) && s.readers == 0 && j < |s.threads| && s.threads[j].Draining?
    ensures Enabled(s, Resume(j), maxReaders)
    ensures var s2 := Step(s, Resume(j), maxReaders); s2 == Set(s, j, Writing)
  {}

  // The lock is free, or the waiter has it.
  ghost predicate Free(s: State, i: nat, write: bool) {
    s.readers == 0 && !s.entered && Wants(s, i, write)
  }

  ghost predicate Has(s: State, i: nat, write: bool) {
    i < |s.threads| && s.threads[i] == if write then Writing else Reading
  }

  lemma GetFree(run: seq<State>, actions: seq<Action>, maxReaders: nat, i: nat, write: bool)
    returns (run2: seq<State>, more: seq<Action>)
    requires IsRun(run, actions, maxReaders) && |run[0].threads| <= maxReaders + 1
    requires run[|actions|].readers == 0 && Wants(run[|actions|], i, write)
    ensures IsRun(run2, more, maxReaders) && run <= run2
    ensures Free(run2[|more|], i, write) || Has(run2[|more|], i, write)
  {
    run2, more := run, actions;
    var s := run[|actions|];
    RunSafe(run, actions, maxReaders, |actions|);
    if s.entered {
      var j := Witness(s.threads, Holders);
      if s.threads[j].Draining? {
        WriterWrites(s, maxReaders, j);
        run2, more := GoOn(run2, more, maxReaders, Resume(j));
      }
      if j != i {
        run2, more := GoOn(run2, more, maxReaders, WUnlock(j));
      }
    }
  }

  // In every reachable state, with at most one thread beyond the limit, every thread that waits can get
  // the lock: there is no deadlock and no one is forgotten.
  lemma WaiterGetsIn(run: seq<State>, actions: seq<Action>, maxReaders: nat, i: nat, write: bool)
    returns (run2: seq<State>, more: seq<Action>)
    requires IsRun(run, actions, maxReaders) && |run[0].threads| <= maxReaders + 1 && maxReaders > 0
    requires Wants(run[|actions|], i, write)
    ensures IsRun(run2, more, maxReaders) && run <= run2 && Has(run2[|more|], i, write)
  {
    run2, more := AllLeave(run, actions, maxReaders, i, write);
    run2, more := GetFree(run2, more, maxReaders, i, write);
    if Free(run2[|more|], i, write) {
      RunSafe(run2, more, maxReaders, |more|);
      assert run2[0] == run[0];
      NoHolder(run2[|more|], i);
      run2, more := GoOn(run2, more, maxReaders, Resume(i));
    }
  }

  lemma NoHolder(s: State, i: nat)
    requires Safe(s) && !s.entered && i < |s.threads|
    ensures !Is(Holders, s.threads[i])
  {
    if Is(Holders, s.threads[i]) {
      CountAtLeast(s.threads, Holders, i);
    }
  }

  // --- beyond the limit ---

  // With two threads beyond the limit: the readers fill the lock, two more wait, one reader leaves. One
  // waiter is woken, the other sleeps although there is room for it as long as the first does not test.
  lemma LimitForgets(k: nat, maxReaders: nat) returns (run: seq<State>, actions: seq<Action>)
    requires k >= maxReaders + 2 && maxReaders > 0
    ensures IsRun(run, actions, maxReaders) && |run[0].threads| == k && !NoneForgotten(run[|actions|], maxReaders)
  {
    var m := maxReaders;
    run, actions := Shared(m, k, m);
    run, actions := GoOn(run, actions, m, RLock(m));
    run, actions := GoOn(run, actions, m, RLock(m + 1));
    var s := run[|actions|];
    assert s.threads[m] == Queued(false) && s.threads[m + 1] == Queued(false) && s.threads[0] == Reading;
    assert OnReaders(Left(s, 0).threads[m]);
    run, actions := GoOn(run, actions, m, RUnlock(0, m));
    RunSafe(run, actions, m, |actions|);
    var s2 := run[|actions|];
    assert s2.threads[m + 1] == Queued(false) && !s2.entered && s2.readers == m - 1;
  }

  ghost predicate AlwaysWakes(k: nat, maxReaders: nat) {
    forall run: seq<State>, actions :: IsRun(run, actions, maxReaders) && |run[0].threads| == k ==>
      NoneForgotten(run[|actions|], maxReaders)
  }

  // In all runs of k threads no one sleeps whose condition is false, exactly when k is at most one
  // more than the limit on readers.
  lemma AlwaysWakesIff(k: nat, maxReaders: nat)
    requires maxReaders > 0
    ensures AlwaysWakes(k, maxReaders) <==> k <= maxReaders + 1
  {
    if k <= maxReaders + 1 {
      forall run: seq<State>, actions | IsRun(run, actions, maxReaders) && |run[0].threads| == k
        ensures NoneForgotten(run[|actions|], maxReaders)
      {
        RunSafe(run, actions, maxReaders, |actions|);
      }
    } else {
      var run, actions := LimitForgets(k, maxReaders);
    }
  }
}
