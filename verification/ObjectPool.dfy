/** The blocking object pool (MemoryPool.cpp): any number of threads acquiring and releasing objects,
    as interleaved atomic steps. The three pools of the source share this protocol. */
module ObjectPool {
  import opened Common

  /** What an object holds: its construction state, nothing, or a client's data. */
  datatype Content = Initial | Empty | InUse

  /** Where a thread is: outside the pool, waiting, woken but not rechecking yet, or inside release,
      with an object cleared but not pushed or with a notification still to send. */
  datatype Status = Running | Blocked | Woken | Returning(obj: nat) | Notifying

  datatype State = State(free: seq<nat>, borrowed: set<nat>, contents: seq<Content>, threads: seq<Status>)

  datatype Step =
    | Acquire(t: nat)
    | Recheck(t: nat)
    | SpuriousWake(t: nat)
    | Use(obj: nat)
    | BeginRelease(t: nat, obj: nat)
    | ReleaseNull(t: nat)
    | Push(t: nat)
    | Notify(t: nat, wake: nat)

  predicate At(s: State, t: nat, st: Status) { t < |s.threads| && s.threads[t] == st }

  /** A holder releases what it holds; a notification wakes some blocked thread when there is one. */
  predicate Enabled(s: State, step: Step) {
    match step
    case Acquire(t) => At(s, t, Running)
    case Recheck(t) => At(s, t, Woken)
    case SpuriousWake(t) => At(s, t, Blocked)
    case Use(obj) => obj in s.borrowed && obj < |s.contents|
    case BeginRelease(t, obj) => At(s, t, Running) && obj in s.borrowed && obj < |s.contents|
    case ReleaseNull(t) => At(s, t, Running)
    case Push(t) => t < |s.threads| && s.threads[t].Returning?
    case Notify(t, wake) => At(s, t, Notifying) && (At(s, wake, Blocked) || Count(s.threads, Blocked) == 0)
  }

  /** The waiting predicate, checked with the lock held: take the front object or block. */
  function TakeOrBlock(s: State, t: nat): State
    requires t < |s.threads|
  {
    if s.free == [] then s.(threads := s.threads[t := Blocked])
    else s.(free := s.free[1..], borrowed := s.borrowed + {s.free[0]}, threads := s.threads[t := Running])
  }

  /** release up to the lock: the object is wiped. */
  function Wiped(s: State, t: nat, obj: nat): State
    requires t < |s.threads| && obj < |s.contents|
  {
    s.(borrowed := s.borrowed - {obj}, contents := s.contents[obj := Empty], threads := s.threads[t := Returning(obj)])
  }

  function Apply(s: State, step: Step): State
    requires Enabled(s, step)
  {
    match step
    case Acquire(t) => TakeOrBlock(s, t)
    case Recheck(t) => TakeOrBlock(s, t)
    case SpuriousWake(t) => s.(threads := s.threads[t := Woken])
    case Use(obj) => s.(contents := s.contents[obj := InUse])
    case BeginRelease(t, obj) => Wiped(s, t, obj)
    case ReleaseNull(t) => s
    case Push(t) => s.(free := s.free + [s.threads[t].obj], threads := s.threads[t := Notifying])
    case Notify(t, wake) =>
      var done := s.threads[t := Running];
      s.(threads := if Count(s.threads, Blocked) > 0 then done[wake := Woken] else done)
  }

  // ---- Counting threads and objects ----

  function Count(ts: seq<Status>, st: Status): nat {
    if ts == [] then 0 else Count(Front(ts), st) + One(Last(ts) == st)
  }

  lemma {:induction false} CountUpdate(ts: seq<Status>, t: nat, now: Status, st: Status)
    requires t < |ts|
    ensures Count(ts[t := now], st) + One(ts[t] == st) == Count(ts, st) + One(now == st)
  {
    if t == |ts| - 1 {
      assert Front(ts[t := now]) == Front(ts);
    } else {
      assert Front(ts[t := now]) == Front(ts)[t := now];
      CountUpdate(Front(ts), t, now, st);
    }
  }

  lemma {:induction false} Counted(ts: seq<Status>, t: nat)
    requires t < |ts|
    ensures Count(ts, ts[t]) >= 1
  {
    if t < |ts| - 1 {
      Counted(Front(ts), t);
    }
  }

  /** How often an object is in the queue, borrowed, or on its way back. */
  function Places(s: State, o: nat): nat {
    multiset(s.free)[o] + One(o in s.borrowed) + Count(s.threads, Returning(o))
  }

  // ---- The invariant ----

  /** Every object of the pool is in exactly one place, and nothing else is. */
  ghost predicate Partition(s: State, n: nat) {
    forall o: nat :: Places(s, o) == One(o < n)
  }

  /** If a thread waits without having been woken, the free objects are at most the wake-ups under way. */
  predicate NoLostWakeup(s: State) {
    Count(s.threads, Blocked) > 0 ==> |s.free| <= Count(s.threads, Notifying) + Count(s.threads, Woken)
  }

  /** Nothing in the queue or on its way there holds a client's data. */
  predicate Clean(s: State) {
    && (forall o :: o in s.free ==> o < |s.contents| && s.contents[o] != InUse)
    && (forall t :: 0 <= t < |s.threads| && s.threads[t].Returning? ==>
          s.threads[t].obj < |s.contents| && s.contents[s.threads[t].obj] == Empty)
  }

  /** The queue, the borrowed objects and those in transit partition the pool without duplicates. */
  ghost predicate Inv(s: State, n: nat) {
    |s.contents| == n && Partition(s, n) && NoLostWakeup(s) && Clean(s)
  }

  lemma OnePlace(s: State, n: nat, o: nat)
    requires Partition(s, n)
    ensures Places(s, o) == One(o < n)
    ensures o in s.free ==> multiset(s.free)[o] == 1 && o !in s.borrowed && o < n
  {
    assert o in s.free <==> o in multiset(s.free);
  }

  /** A thread that moves on changes the counts it left and joined. */
  lemma ThreadMoves(ts: seq<Status>, t: nat, now: Status)
    requires t < |ts|
    ensures forall st :: Count(ts[t := now], st) + One(ts[t] == st) == Count(ts, st) + One(now == st)
  {
    forall st ensures Count(ts[t := now], st) + One(ts[t] == st) == Count(ts, st) + One(now == st) {
      CountUpdate(ts, t, now, st);
    }
  }

  lemma TakeKeeps(s: State, n: nat, t: nat)
    requires Inv(s, n) && t < |s.threads| && (s.threads[t] == Running || s.threads[t] == Woken)
    ensures Inv(TakeOrBlock(s, t), n)
  {
    hide Count;
    var r := TakeOrBlock(s, t);
    ThreadMoves(s.threads, t, r.threads[t]);
    if s.free != [] {
      OnePlace(s, n, s.free[0]);
      assert s.free == [s.free[0]] + s.free[1..];
      assert multiset(s.free) == multiset{s.free[0]} + multiset(s.free[1..]);
      assert forall o :: o in s.free[1..] ==> o in s.free;
    }
    forall o: nat ensures Places(r, o) == Places(s, o) {}
  }

  /** Releasing keeps the partition if and only if the object is one the holder has not released yet. */
  lemma ReleaseKeepsPartition(s: State, n: nat, t: nat, obj: nat)
    requires Partition(s, n) && |s.contents| == n && t < |s.threads| && s.threads[t] == Running && obj < n
    ensures Partition(Wiped(s, t, obj), n) <==> obj in s.borrowed
  {
    hide Count;
    var r := Wiped(s, t, obj);
    ThreadMoves(s.threads, t, Returning(obj));
    if obj in s.borrowed {
      forall o: nat ensures Places(r, o) == Places(s, o) {}
    } else {
      assert Places(r, obj) == Places(s, obj) + 1;
    }
  }

  lemma WipeKeeps(s: State, n: nat, t: nat, obj: nat)
    requires Inv(s, n) && Enabled(s, BeginRelease(t, obj))
    ensures Inv(Wiped(s, t, obj), n)
  {
    hide Count;
    ReleaseKeepsPartition(s, n, t, obj);
    ThreadMoves(s.threads, t, Returning(obj));
  }

  lemma UseKeeps(s: State, n: nat, obj: nat)
    requires Inv(s, n) && Enabled(s, Use(obj))
    ensures Inv(Apply(s, Use(obj)), n)
  {
    hide Count;
    OnePlace(s, n, obj);
    var r := Apply(s, Use(obj));
    forall o: nat ensures Places(r, o) == Places(s, o) {}
    forall t | 0 <= t < |r.threads| && r.threads[t].Returning? ensures r.threads[t].obj != obj {
      Counted(s.threads, t);
    }
  }

  lemma PushKeeps(s: State, n: nat, t: nat)
    requires Inv(s, n) && Enabled(s, Push(t))
    ensures Inv(Apply(s, Push(t)), n)
  {
    hide Count;
    var r := Apply(s, Push(t));
    ThreadMoves(s.threads, t, Notifying);
    assert multiset(r.free) == multiset(s.free) + multiset{s.threads[t].obj};
    forall o: nat ensures Places(r, o) == Places(s, o) {}
  }

  lemma NotifyKeeps(s: State, n: nat, t: nat, wake: nat)
    requires Inv(s, n) && Enabled(s, Notify(t, wake))
    ensures Inv(Apply(s, Notify(t, wake)), n)
  {
    hide Count;
    var r, done := Apply(s, Notify(t, wake)), s.threads[t := Running];
    ThreadMoves(s.threads, t, Running);
    if Count(s.threads, Blocked) > 0 {
      ThreadMoves(done, wake, Woken);
    }
    forall o: nat ensures Places(r, o) == Places(s, o) {}
  }

  lemma WakeKeeps(s: State, n: nat, t: nat)
    requires Inv(s, n) && Enabled(s, SpuriousWake(t))
    ensures Inv(Apply(s, SpuriousWake(t)), n)
  {
    hide Count;
    ThreadMoves(s.threads, t, Woken);
    forall o: nat ensures Places(Apply(s, SpuriousWake(t)), o) == Places(s, o) {}
  }

  lemma StepKeeps(s: State, n: nat, step: Step)
    requires Inv(s, n) && Enabled(s, step)
    ensures Inv(Apply(s, step), n)
  {
    match step {
      case Acquire(t) => TakeKeeps(s, n, t);
      case Recheck(t) => TakeKeeps(s, n, t);
      case SpuriousWake(t) => WakeKeeps(s, n, t);
      case Use(obj) => UseKeeps(s, n, obj);
      case BeginRelease(t, obj) => WipeKeeps(s, n, t, obj);
      case ReleaseNull(t) =>
      case Push(t) => PushKeeps(s, n, t);
      case Notify(t, wake) => NotifyKeeps(s, n, t, wake);
    }
  }

  /** A run of any interleaving of enabled steps. */
  ghost predicate Run(s: State, steps: seq<Step>, end: State)
    decreases |steps|
  {
    if steps == [] then end == s else Enabled(s, steps[0]) && Run(Apply(s, steps[0]), steps[1..], end)
  }

  function Start(n: nat, threads: nat): State {
    State(seq(n, i requires 0 <= i < n => i), {}, seq(n, _ => Initial), seq(threads, _ => Running))
  }

  lemma {:induction false} StartCounts(k: nat, st: Status)
    requires st != Running
    ensures Count(seq(k, _ => Running), st) == 0
  {
    if k > 0 {
      StartCounts(k - 1, st);
      assert Front(seq(k, _ => Running)) == seq(k - 1, _ => Running);
    }
  }

  lemma {:induction false} StartQueue(n: nat, o: nat)
    ensures multiset(seq(n, i requires 0 <= i < n => i))[o] == One(o < n)
  {
    if n > 0 {
      assert seq(n, i requires 0 <= i < n => i) == seq(n - 1, i requires 0 <= i < n - 1 => i) + [n - 1];
      StartQueue(n - 1, o);
    }
  }

  lemma StartInv(n: nat, threads: nat)
    ensures Inv(Start(n, threads), n)
  {
    forall o: nat ensures Places(Start(n, threads), o) == One(o < n) {
      StartCounts(threads, Returning(o));
      StartQueue(n, o);
    }
    StartCounts(threads, Blocked);
  }

  /** From the initialised pool, every reachable state keeps the partition, loses no wake-up and has
      nothing of a client's in the queue. */
  lemma {:induction false} RunKeeps(s: State, steps: seq<Step>, end: State, n: nat)
    requires Inv(s, n) && Run(s, steps, end)
    ensures Inv(end, n)
    decreases |steps|
  {
    hide Inv;
    if steps != [] {
      StepKeeps(s, n, steps[0]);
      RunKeeps(Apply(s, steps[0]), steps[1..], end, n);
    }
  }

  lemma Reachable(n: nat, threads: nat, steps: seq<Step>, end: State)
    requires Run(Start(n, threads), steps, end)
    ensures Partition(end, n) && NoLostWakeup(end) && Clean(end)
  {
    StartInv(n, threads);
    RunKeeps(Start(n, threads), steps, end, n);
  }

  /** What a thread takes from the queue nobody else holds, and it holds no client's data. */
  lemma TakesUnshared(n: nat, threads: nat, steps: seq<Step>, end: State)
    requires Run(Start(n, threads), steps, end) && end.free != []
    ensures var o := end.free[0];
            && o < |end.contents| && end.contents[o] != InUse && o !in end.borrowed && o !in end.free[1..]
            && forall t :: 0 <= t < |end.threads| ==> end.threads[t] != Returning(o)
  {
    hide Run, Start;
    Reachable(n, threads, steps, end);
    var o := end.free[0];
    assert o in end.free;
    OnePlace(end, n, o);
    assert end.free == [o] + end.free[1..];
    assert o in end.free[1..] <==> o in multiset(end.free[1..]);
    forall t | 0 <= t < |end.threads| ensures end.threads[t] != Returning(o) {
      Counted(end.threads, t);
    }
  }

  /** The object a step takes from the queue, and the one it puts there. */
  function Taken(s: State, step: Step): seq<nat> {
    if (step.Acquire? || step.Recheck?) && s.free != [] then [s.free[0]] else []
  }

  function Returned(s: State, step: Step): seq<nat>
    requires Enabled(s, step)
  {
    if step.Push? then [s.threads[step.t].obj] else []
  }

  function AllTaken(s: State, steps: seq<Step>): seq<nat>
    decreases |steps|
  {
    if steps == [] || !Enabled(s, steps[0]) then []
    else Taken(s, steps[0]) + AllTaken(Apply(s, steps[0]), steps[1..])
  }

  function AllReturned(s: State, steps: seq<Step>): seq<nat>
    decreases |steps|
  {
    if steps == [] || !Enabled(s, steps[0]) then []
    else Returned(s, steps[0]) + AllReturned(Apply(s, steps[0]), steps[1..])
  }

  /** Objects are handed out in the order in which they came back, the initial ones first: what is taken over
      a run, and then what is still queued, is what was queued, and then what was returned. */
  lemma {:induction false} FirstInFirstOut(s: State, steps: seq<Step>, end: State)
    requires Run(s, steps, end)
    ensures AllTaken(s, steps) + end.free == s.free + AllReturned(s, steps)
    decreases |steps|
  {
    if steps != [] {
      hide Run, Apply, Enabled, Taken, Returned;
      var step := steps[0];
      RunFirst(s, steps, end);
      var next := Apply(s, step);
      FirstInFirstOut(next, steps[1..], end);
      StepQueue(s, step);
      MoveFront(Taken(s, step), AllTaken(next, steps[1..]), end.free, next.free, s.free, Returned(s, step),
                AllReturned(next, steps[1..]));
    }
  }

  lemma MoveFront(taken: seq<nat>, later: seq<nat>, last: seq<nat>, between: seq<nat>, first: seq<nat>,
                  returned: seq<nat>, rest: seq<nat>)
    requires taken + between == first + returned && later + last == between + rest
    ensures (taken + later) + last == first + (returned + rest)
  {
    assert (taken + later) + last == taken + (between + rest) == (first + returned) + rest;
  }

  lemma RunFirst(s: State, steps: seq<Step>, end: State)
    requires steps != [] && Run(s, steps, end)
    ensures Enabled(s, steps[0]) && Run(Apply(s, steps[0]), steps[1..], end)
  {}

  lemma StepQueue(s: State, step: Step)
    requires Enabled(s, step)
    ensures Taken(s, step) + Apply(s, step).free == s.free + Returned(s, step)
  {
    hide Count;
  }

  /** One object and two threads: the second waits for the first to return it, is woken and gets it. */
  lemma KnownRun()
    ensures var end := State([], {0}, [Empty], [Running, Running]);
            Run(Start(1, 2), [Acquire(0), Use(0), Acquire(1), BeginRelease(0, 0), Push(0), Notify(0, 1), Recheck(1)], end)
  {
    hide Run, Count, Apply, Enabled;
    var s0, end := State([0], {}, [Initial], [Running, Running]), State([], {0}, [Empty], [Running, Running]);
    assert Start(1, 2) == s0;
    RunNothing(end);
    HandedOver();
    HandedOut();
    var s1, s2 := Apply(s0, Acquire(0)), Apply(Apply(s0, Acquire(0)), Use(0));
    var s3 := Apply(s2, Acquire(1));
    var s4 := Apply(s3, BeginRelease(0, 0));
    var s5 := Apply(s4, Push(0));
    var s6 := Apply(s5, Notify(0, 1));
    var steps := [Acquire(0), Use(0), Acquire(1), BeginRelease(0, 0), Push(0), Notify(0, 1), Recheck(1)];
    assert steps[7..] == [];
    RunStep(s6, steps[6..], end);
    RunStep(s5, steps[5..], end);
    RunStep(s4, steps[4..], end);
    RunStep(s3, steps[3..], end);
    RunStep(s2, steps[2..], end);
    RunStep(s1, steps[1..], end);
    RunStep(s0, steps[0..], end);
    assert steps[0..] == steps;
  }

  /** The first thread gets the object and the second blocks. */
  lemma HandedOut()
    ensures var s0, s1 := State([0], {}, [Initial], [Running, Running]), State([], {0}, [Initial], [Running, Running]);
            Enabled(s0, Acquire(0)) && Apply(s0, Acquire(0)) == s1
            && Enabled(s1, Use(0)) && Apply(s1, Use(0)) == State([], {0}, [InUse], [Running, Running])
    ensures var s2 := State([], {0}, [InUse], [Running, Running]);
            Enabled(s2, Acquire(1)) && Apply(s2, Acquire(1)) == State([], {0}, [InUse], [Running, Blocked])
  {
    var running := [Running, Running];
    assert running[0 := Running] == running && running[1 := Blocked] == [Running, Blocked];
    assert [Initial][0 := InUse] == [InUse];
  }

  /** The first thread returns the object, and the second is woken and gets it. */
  lemma HandedOver()
    ensures var s3, s4 := State([], {0}, [InUse], [Running, Blocked]), State([], {}, [Empty], [Returning(0), Blocked]);
            Enabled(s3, BeginRelease(0, 0)) && Apply(s3, BeginRelease(0, 0)) == s4
            && Enabled(s4, Push(0)) && Apply(s4, Push(0)) == State([0], {}, [Empty], [Notifying, Blocked])
    ensures var s5, s6 := State([0], {}, [Empty], [Notifying, Blocked]), State([0], {}, [Empty], [Running, Woken]);
            Enabled(s5, Notify(0, 1)) && Apply(s5, Notify(0, 1)) == s6
            && Enabled(s6, Recheck(1)) && Apply(s6, Recheck(1)) == State([], {0}, [Empty], [Running, Running])
  {
    hide Count;
    Counted([Notifying, Blocked], 1);
    assert [Running, Blocked][0 := Returning(0)] == [Returning(0), Blocked] && [InUse][0 := Empty] == [Empty];
    assert [Returning(0), Blocked][0 := Notifying] == [Notifying, Blocked];
    assert [Notifying, Blocked][0 := Running][1 := Woken] == [Running, Woken];
    assert [Running, Woken][1 := Running] == [Running, Running];
  }

  lemma RunNothing(s: State)
    ensures Run(s, [], s)
  {}

  lemma RunStep(s: State, steps: seq<Step>, end: State)
    requires steps != [] && Enabled(s, steps[0]) && Run(Apply(s, steps[0]), steps[1..], end)
    ensures Run(s, steps, end)
  {}

  /** Once no wake-up is under way, a waiting thread means an empty queue; and if on top of that every
      object is back in the queue, nobody waits. */
  lemma Quiescent(n: nat, threads: nat, steps: seq<Step>, end: State)
    requires Run(Start(n, threads), steps, end)
    requires Count(end.threads, Woken) == 0 && Count(end.threads, Notifying) == 0
    ensures Count(end.threads, Blocked) > 0 ==> end.free == []
    ensures n > 0 && end.borrowed == {} && (forall t :: 0 <= t < |end.threads| ==> !end.threads[t].Returning?) ==>
              Count(end.threads, Blocked) == 0
  {
    hide Run, Start;
    Reachable(n, threads, steps, end);
    if n > 0 && end.borrowed == {} && (forall t :: 0 <= t < |end.threads| ==> !end.threads[t].Returning?) {
      OnePlace(end, n, 0);
      NoneReturning(end.threads, 0);
    }
  }

  lemma {:induction false} NoneReturning(ts: seq<Status>, o: nat)
    requires forall t :: 0 <= t < |ts| ==> !ts[t].Returning?
    ensures Count(ts, Returning(o)) == 0
  {
    if ts != [] {
      NoneReturning(Front(ts), o);
    }
  }

  /** The pool itself: the queue and the objects are real, the threads around it are not. Each method
      is one atomic section of acquire or release. */
  class Pool {
    var storage: seq<nat>
    var ownedBuffers: seq<Content>
    ghost var borrowed: set<nat>
    ghost var threads: seq<Status>

    ghost function Now(): State
      reads this
    {
      State(storage, borrowed, ownedBuffers, threads)
    }

    ghost predicate Valid()
      reads this
    {
      Inv(Now(), |ownedBuffers|)
    }

    /** Init_MemoryPool: every object is made once and queued once. */
    constructor (poolSize: nat, ghost threadCount: nat)
      ensures Valid() && Now() == Start(poolSize, threadCount)
    {
      storage, ownedBuffers := [], [];
      borrowed, threads := {}, seq(threadCount, _ => Running);
      new;
      for i := 0 to poolSize
        invariant borrowed == {} && threads == seq(threadCount, _ => Running)
        invariant |ownedBuffers| == i && forall k :: 0 <= k < i ==> ownedBuffers[k] == Initial
        invariant |storage| == i && forall k :: 0 <= k < i ==> storage[k] == k
      {
        ownedBuffers := ownedBuffers + [Initial];
        storage := storage + [i];
      }
      assert ownedBuffers == Start(poolSize, threadCount).contents;
      assert storage == Start(poolSize, threadCount).free;
      StartInv(poolSize, threadCount);
    }

    /** The locked part of acquire, on the first check and on every recheck after a wake-up. */
    method TakeFront(t: nat) returns (taken: bool, buffer: nat)
      requires Valid() && (At(Now(), t, Running) || At(Now(), t, Woken))
      modifies this
      ensures Valid() && Now() == TakeOrBlock(old(Now()), t)
      ensures taken <==> old(storage) != []
      ensures taken ==> buffer == old(storage)[0]
      ensures taken ==> buffer !in old(borrowed) && buffer in borrowed && buffer < |ownedBuffers|
                        && ownedBuffers[buffer] != InUse
    {
      TakeKeeps(Now(), |ownedBuffers|, t);
      taken, buffer := false, 0;
      if storage == [] {
        threads := threads[t := Blocked];
        return;
      }
      taken, buffer := true, storage[0];
      assert buffer in storage;
      OnePlace(Now(), |ownedBuffers|, buffer);
      storage := storage[1..];
      borrowed := borrowed + {buffer};
      threads := threads[t := Running];
    }

    /** release before the lock. */
    method Clear(t: nat, buffer: nat)
      requires Valid() && Enabled(Now(), BeginRelease(t, buffer))
      modifies this
      ensures Valid() && Now() == Wiped(old(Now()), t, buffer)
    {
      WipeKeeps(Now(), |ownedBuffers|, t, buffer);
      ownedBuffers := ownedBuffers[buffer := Empty];
      borrowed := borrowed - {buffer};
      threads := threads[t := Returning(buffer)];
    }

    /** The locked part of release. */
    method PushBack(t: nat, buffer: nat)
      requires Valid() && At(Now(), t, Returning(buffer))
      modifies this
      ensures Valid() && Now() == Apply(old(Now()), Push(t))
    {
      PushKeeps(Now(), |ownedBuffers|, t);
      storage := storage + [buffer];
      threads := threads[t := Notifying];
    }
  }
}
