/**
 The reader-writer lock as a step system over any number of threads. Every step is what a thread
 does while it holds the internal mutex; waiting on a condition variable ends a step.
 */
module RwMutex {

  // Where a thread is. A waiting thread is signalled once a notification, or a spurious wake-up,
  // allows it to test its condition again.
  datatype Phase =
    | Idle
    | Entering(signalled: bool)   // in WLock, on the readers' condition, until no writer has entered
    | Draining(signalled: bool)   // in WLock, on the writers' condition, until no reader is left
    | Writing
    | Queued(signalled: bool)     // in RLock, on the readers' condition
    | Reading

  datatype State = State(threads: seq<Phase>, readers: nat, entered: bool)

  datatype Action =
    | WLock(t: nat) | WUnlock(t: nat) | RLock(t: nat) | RUnlock(t: nat, woken: nat)
    | Resume(t: nat) | Spurious(t: nat)

  predicate Waits(p: Phase) {
    p.Entering? || p.Draining? || p.Queued?
  }

  predicate Asleep(p: Phase) {
    Waits(p) && !p.signalled
  }

  function Wake(p: Phase): Phase {
    if Waits(p) then p.(signalled := true) else p
  }

  function Set(s: State, t: nat, p: Phase): State
    requires t < |s.threads|
  {
    s.(threads := s.threads[t := p])
  }

  // The tests at the loops of WLock and RLock, and what follows when they pass.
  function TryEnter(s: State, t: nat): State
    requires t < |s.threads|
  {
    if s.entered then Set(s, t, Entering(false)) else TryDrain(s.(entered := true), t)
  }

  function TryDrain(s: State, t: nat): State
    requires t < |s.threads|
  {
    if s.readers > 0 then Set(s, t, Draining(false)) else Set(s, t, Writing)
  }

  function TryRead(s: State, t: nat, maxReaders: nat): State
    requires t < |s.threads|
  {
    if s.entered || s.readers == maxReaders then Set(s, t, Queued(false))
    else Set(s.(readers := s.readers + 1), t, Reading)
  }

  // All who wait on the readers' condition.
  function NotifyAllReaders(s: State): (r: State)
    ensures |r.threads| == |s.threads| && r.readers == s.readers && r.entered == s.entered
    ensures forall i :: 0 <= i < |s.threads| ==>
              r.threads[i] == if s.threads[i].Draining? then s.threads[i] else Wake(s.threads[i])
  {
    s.(threads := seq(|s.threads|, i requires 0 <= i < |s.threads| => if s.threads[i].Draining? then s.threads[i]
      else Wake(s.threads[i])))
  }

  predicate OnWriters(p: Phase) {
    p.Draining? && !p.signalled
  }

  predicate OnReaders(p: Phase) {
    (p.Entering? || p.Queued?) && !p.signalled
  }

  // One who waits on the condition, if any does.
  predicate Choice(s: State, k: nat, writers: bool) {
    if exists i :: 0 <= i < |s.threads| && (if writers then OnWriters(s.threads[i]) else OnReaders(s.threads[i]))
    then k < |s.threads| && (if writers then OnWriters(s.threads[k]) else OnReaders(s.threads[k]))
    else k == |s.threads|
  }

  function Notify(s: State, k: nat): State {
    if k < |s.threads| then Set(s, k, Wake(s.threads[k])) else s
  }

  function Left(s: State, t: nat): State
    requires t < |s.threads| && s.readers > 0
  {
    Set(s, t, Idle).(readers := s.readers - 1)
  }

  predicate Enabled(s: State, a: Action, maxReaders: nat) {
    && a.t < |s.threads|
    && match a
       case WLock(t) => s.threads[t] == Idle
       case WUnlock(t) => s.threads[t] == Writing
       case RLock(t) => s.threads[t] == Idle
       case RUnlock(t, k) =>
         && s.threads[t] == Reading && s.readers > 0
         && var s1 := Left(s, t);
         (if s1.entered then s1.readers == 0 ==> Choice(s1, k, true) else s1.readers == maxReaders - 1 ==>
             Choice(s1, k, false))
       case Resume(t) => Waits(s.threads[t]) && s.threads[t].signalled
       case Spurious(t) => Asleep(s.threads[t])
  }

  function Step(s: State, a: Action, maxReaders: nat): State
    requires Enabled(s, a, maxReaders)
  {
    match a
    case WLock(t) => TryEnter(s, t)
    case WUnlock(t) => NotifyAllReaders(Set(s, t, Idle).(entered := false))
    case RLock(t) => TryRead(s, t, maxReaders)
    case RUnlock(t, k) =>
      var s1 := Left(s, t);
      if s1.entered then (if s1.readers == 0 then Notify(s1, k) else s1)
      else (if s1.readers == maxReaders - 1 then Notify(s1, k) else s1)
    case Resume(t) =>
      (match s.threads[t]
       case Entering(_) => TryEnter(s, t)
       case Draining(_) => TryDrain(s, t)
       case Queued(_) => TryRead(s, t, maxReaders)
       case _ => s)
    case Spurious(t) => Set(s, t, Wake(s.threads[t]))
  }

  // --- safety ---

  datatype Kind = Readers | Holders

  // Readers at work; writers that have entered.
  predicate Is(k: Kind, p: Phase) {
    match k
    case Readers => p.Reading?
    case Holders => p.Draining? || p.Writing?
  }

  function One(k: Kind, p: Phase): nat {
    if Is(k, p) then 1 else 0
  }

  function Count(threads: seq<Phase>, k: Kind): nat {
    if threads == [] then 0 else Count(threads[1..], k) + One(k, threads[0])
  }

  // The counter counts the readers, the flag the one writer that has entered, and a writer at work
  // finds no readers.
  ghost predicate Safe(s: State) {
    && s.readers == Count(s.threads, Readers)
    && Count(s.threads, Holders) == (if s.entered then 1 else 0)
    && (forall i :: 0 <= i < |s.threads| && s.threads[i].Writing? ==> s.readers == 0)
  }

  // The conditions of the waiting loops.
  predicate MustWait(s: State, p: Phase, maxReaders: nat) {
    match p
    case Entering(_) => s.entered
    case Draining(_) => s.readers > 0
    case Queued(_) => s.entered || s.readers == maxReaders
    case _ => false
  }

  // No one sleeps whose condition for waiting is false.
  ghost predicate NoneForgotten(s: State, maxReaders: nat) {
    forall i :: 0 <= i < |s.threads| && Asleep(s.threads[i]) ==> MustWait(s, s.threads[i], maxReaders)
  }

  lemma {:induction false} CountSet(threads: seq<Phase>, t: nat, p: Phase, k: Kind)
    requires t < |threads|
    ensures Count(threads[t := p], k) == Count(threads, k) + One(k, p) - One(k, threads[t])
  {
    if t == 0 {
      assert threads[0 := p][1..] == threads[1..];
    } else {
      assert threads[t := p][1..] == threads[1..][t - 1 := p];
      CountSet(threads[1..], t - 1, p, k);
    }
  }

  lemma {:induction false} CountSame(a: seq<Phase>, b: seq<Phase>, k: Kind)
    requires |a| == |b| && forall i :: 0 <= i < |a| ==> (Is(k, a[i]) <==> Is(k, b[i]))
    ensures Count(a, k) == Count(b, k)
  {
    if a != [] {
      CountSame(a[1..], b[1..], k);
    }
  }

  // Two of a kind count at least two; a count above zero has a witness.
  lemma {:induction false} CountAtLeast(a: seq<Phase>, k: Kind, i: nat)
    requires i < |a| && Is(k, a[i])
    ensures Count(a, k) >= 1
    ensures forall j :: 0 <= j < |a| && j != i && Is(k, a[j]) ==> Count(a, k) >= 2
  {
    if i == 0 {
      forall j | 0 < j < |a| && Is(k, a[j]) ensures Count(a, k) >= 2 {
        CountAtLeast(a[1..], k, j - 1);
      }
    } else {
      CountAtLeast(a[1..], k, i - 1);
      forall j | 0 <= j < |a| && j != i && Is(k, a[j]) ensures Count(a, k) >= 2 {
        assert j > 0 ==> a[1..][j - 1] == a[j];
      }
    }
  }

  lemma {:induction false} Witness(a: seq<Phase>, k: Kind) returns (i: nat)
    requires Count(a, k) > 0
    ensures i < |a| && Is(k, a[i])
  {
    if Is(k, a[0]) {
      i := 0;
    } else {
      i := Witness(a[1..], k);
      i := i + 1;
    }
  }

  lemma {:induction false} CountBound(a: seq<Phase>, k: Kind)
    ensures Count(a, k) <= |a|
  {
    if a != [] {
      CountBound(a[1..], k);
    }
  }

  // At most one writer, and never a writer together with a reader.
  lemma Exclusive(s: State, i: nat, j: nat)
    requires Safe(s) && i < |s.threads| && j < |s.threads| && i != j && s.threads[i] == Writing
    ensures s.threads[j] != Writing && s.threads[j] != Reading
  {
    CountAtLeast(s.threads, Holders, i);
    if s.threads[j] == Reading {
      CountAtLeast(s.threads, Readers, j);
    }
  }

  lemma Counts(s: State, t: nat, p: Phase)
    requires t < |s.threads|
    ensures forall k :: Count(s.threads[t := p], k) == Count(s.threads, k) + One(k, p) - One(k, s.threads[t])
  {
    CountSet(s.threads, t, p, Readers);
    CountSet(s.threads, t, p, Holders);
    forall k ensures Count(s.threads[t := p], k) == Count(s.threads, k) + One(k, p) - One(k, s.threads[t]) {
      match k
      case Readers =>
      case Holders =>
    }
  }

  lemma SameCounts(a: seq<Phase>, b: seq<Phase>)
    requires |a| == |b| && forall i :: 0 <= i < |a| ==> a[i] == b[i] || (Waits(a[i]) && b[i] == Wake(a[i]))
    ensures Count(a, Readers) == Count(b, Readers) && Count(a, Holders) == Count(b, Holders)
  {
    CountSame(a, b, Readers);
    CountSame(a, b, Holders);
  }

  // A writer at work is the one that has entered.
  lemma NoWriter(s: State)
    requires Safe(s) && !s.entered
    ensures forall i :: 0 <= i < |s.threads| ==> !s.threads[i].Writing?
  {
    forall i | 0 <= i < |s.threads| ensures !s.threads[i].Writing? {
      if Is(Holders, s.threads[i]) {
        CountAtLeast(s.threads, Holders, i);
      }
    }
  }

  lemma TrySafe(s: State, t: nat, maxReaders: nat)
    requires Safe(s) && t < |s.threads|
    ensures s.threads[t] == Idle || s.threads[t].Entering? ==> Safe(TryEnter(s, t))
    ensures s.threads[t].Draining? ==> Safe(TryDrain(s, t))
    ensures s.threads[t] == Idle || s.threads[t].Queued? ==> Safe(TryRead(s, t, maxReaders))
  {
    Counts(s, t, TryEnter(s, t).threads[t]);
    Counts(s, t, TryDrain(s, t).threads[t]);
    Counts(s, t, TryRead(s, t, maxReaders).threads[t]);
    if !s.entered {
      NoWriter(s);
    }
  }

  lemma LeaveSafe(s: State, t: nat)
    requires Safe(s) && t < |s.threads| && s.threads[t] == Reading
    ensures s.readers > 0 && Safe(Left(s, t))
  {
    CountAtLeast(s.threads, Readers, t);
    Counts(s, t, Idle);
  }

  lemma WakeSafe(s: State, s2: State)
    requires Safe(s) && s2.readers == s.readers && s2.entered == s.entered && |s2.threads| == |s.threads|
    requires forall i :: 0 <= i < |s.threads| ==>
             s2.threads[i] == s.threads[i] || (Waits(s.threads[i]) && s2.threads[i] == Wake(s.threads[i]))
    ensures Safe(s2)
  {
    SameCounts(s.threads, s2.threads);
  }

  lemma UnlockSafe(s: State, t: nat)
    requires Safe(s) && t < |s.threads| && s.threads[t] == Writing
    ensures Safe(Set(s, t, Idle).(entered := false))
  {
    CountAtLeast(s.threads, Holders, t);
    Counts(s, t, Idle);
  }

  lemma StepSafe(s: State, a: Action, maxReaders: nat)
    requires Safe(s) && Enabled(s, a, maxReaders)
    ensures Safe(Step(s, a, maxReaders))
  {
    match a
    case WLock(t) => TrySafe(s, t, maxReaders);
    case RLock(t) => TrySafe(s, t, maxReaders);
    case Resume(t) => TrySafe(s, t, maxReaders);
    case WUnlock(t) =>
      UnlockSafe(s, t);
      WakeSafe(Set(s, t, Idle).(entered := false), Step(s, a, maxReaders));
    case RUnlock(t, k) =>
      LeaveSafe(s, t);
      WakeSafe(Left(s, t), Step(s, a, maxReaders));
    case Spurious(t) =>
      WakeSafe(s, Step(s, a, maxReaders));
  }

  // --- wake-ups ---

  lemma TryWakes(s: State, t: nat, maxReaders: nat)
    requires Safe(s) && NoneForgotten(s, maxReaders) && t < |s.threads|
    ensures NoneForgotten(TryEnter(s, t), maxReaders) && NoneForgotten(TryDrain(s, t), maxReaders)
    ensures s.threads[t] != Reading ==> NoneForgotten(TryRead(s, t, maxReaders), maxReaders)
  {}

  // Two threads that are not of the kind count for nothing.
  lemma TwoOut(a: seq<Phase>, k: Kind, i: nat, j: nat)
    requires i < |a| && j < |a| && i != j && !Is(k, a[i]) && !Is(k, a[j])
    ensures Count(a, k) + 2 <= |a|
  {
    var p := if k == Readers then Reading else Writing;
    CountSet(a, i, p, k);
    CountSet(a[i := p], j, p, k);
    CountBound(a[i := p][j := p], k);
  }

  // The last reader wakes the writer that waits for it: there is only one. The reader that makes room
  // wakes the reader that waits for it: with no more than one thread beyond the limit there is only one.
  lemma LeaveWakes(s: State, t: nat, k: nat, maxReaders: nat)
    requires Safe(s) && NoneForgotten(s, maxReaders) && |s.threads| <= maxReaders + 1
    requires Enabled(s, RUnlock(t, k), maxReaders)
    ensures NoneForgotten(Step(s, RUnlock(t, k), maxReaders), maxReaders)
  {
    var s1, s2 := Left(s, t), Step(s, RUnlock(t, k), maxReaders);
    forall i | 0 <= i < |s2.threads| && Asleep(s2.threads[i]) ensures MustWait(s2, s2.threads[i], maxReaders) {
      assert s2.threads[i] == s1.threads[i] == s.threads[i];
      assert MustWait(s, s.threads[i], maxReaders);
      if s2.threads[i].Draining? {
        CountAtLeast(s.threads, Holders, i);
      } else if !s.entered {
        assert OnReaders(s1.threads[i]);
        TwoOut(s.threads, Readers, i, k);
      }
    }
  }

  lemma StepWakes(s: State, a: Action, maxReaders: nat)
    requires Safe(s) && NoneForgotten(s, maxReaders) && Enabled(s, a, maxReaders) && |s.threads| <= maxReaders + 1
    ensures NoneForgotten(Step(s, a, maxReaders), maxReaders)
  {
    match a
    case WLock(t) => TryWakes(s, t, maxReaders);
    case RLock(t) => TryWakes(s, t, maxReaders);
    case Resume(t) => TryWakes(s, t, maxReaders);
    case WUnlock(t) =>
      CountAtLeast(s.threads, Holders, t);
    case RUnlock(t, k) => LeaveWakes(s, t, k, maxReaders);
    case Spurious(t) =>
  }

  // --- every run ---

  predicate Initial(s: State) {
    s.readers == 0 && !s.entered && forall i :: 0 <= i < |s.threads| ==> s.threads[i] == Idle
  }

  ghost predicate IsRun(run: seq<State>, actions: seq<Action>, maxReaders: nat) {
    && |run| == |actions| + 1 && Initial(run[0])
    && forall n {:trigger actions[n]} :: 0 <= n < |actions| ==>
         Enabled(run[n], actions[n], maxReaders) && run[n + 1] == Step(run[n], actions[n], maxReaders)
  }

  lemma {:induction false} IdleCounts(a: seq<Phase>, k: Kind)
    requires forall i :: 0 <= i < |a| ==> a[i] == Idle
    ensures Count(a, k) == 0
  {
    if a != [] {
      IdleCounts(a[1..], k);
    }
  }

  lemma {:induction false} RunSafe(run: seq<State>, actions: seq<Action>, maxReaders: nat, n: nat)
    requires IsRun(run, actions, maxReaders) && n <= |actions|
    ensures Safe(run[n]) && |run[n].threads| == |run[0].threads|
    ensures |run[0].threads| <= maxReaders + 1 ==> NoneForgotten(run[n], maxReaders)
  {
    if n == 0 {
      IdleCounts(run[0].threads, Readers);
      IdleCounts(run[0].threads, Holders);
    } else {
      RunSafe(run, actions, maxReaders, n - 1);
      var a := actions[n - 1];
      StepSafe(run[n - 1], a, maxReaders);
      if |run[0].threads| <= maxReaders + 1 {
        StepWakes(run[n - 1], a, maxReaders);
      }
    }
  }

  // As long as anyone waits, some thread works inside the lock or is about to test its condition.
  lemma SomeoneMoves(s: State, maxReaders: nat, i: nat) returns (j: nat)
    requires Safe(s) && NoneForgotten(s, maxReaders) && maxReaders > 0 && i < |s.threads| && Waits(s.threads[i])
    ensures j < |s.threads| && s.threads[j] != Idle && !Asleep(s.threads[j])
  {
    j := i;
    if Asleep(s.threads[j]) && !s.threads[j].Draining? && s.entered {
      j := Witness(s.threads, Holders);
    }
    if Asleep(s.threads[j]) {
      j := Witness(s.threads, Readers);
    }
  }
}
