/** The reference-counted locks of the artifact cache: lockArtifactKey and the unlock it
    returns, internal/cataloggenerator/cache.go, for any number of threads. Each section under
    the cache's mutex is one step, and so are locking and unlocking a key's own mutex. */
module KeyLocks {
  datatype Key = Key(text: string)
  datatype Thread = Thread(number: nat)

  /** The identity of a lock object. */
  datatype Lock = Lock(number: nat)

  datatype Stage = Waiting | Holding | Leaving

  /** A thread between its registration for a key and its deregistration. */
  datatype Visit = Visit(key: Key, lock: Lock, stage: Stage)

  /** `keyLocks` is the cache's map, `users` the counter of each lock object, `held` the thread
      that has locked it; `made` counts the lock objects made. */
  datatype State = State(
    keyLocks: map<Key, Lock>, users: map<Lock, int>, held: map<Lock, Thread>, made: nat, visits: map<Thread, Visit>)

  const START := State(map[], map[], map[], 0, map[])

  datatype Step =
    | Register(thread: Thread, key: Key)
    | Acquire(thread: Thread)
    | Unlock(thread: Thread)
    | Deregister(thread: Thread)

  predicate At(s: State, t: Thread, stage: Stage) { t in s.visits && s.visits[t].stage == stage }

  predicate Enabled(s: State, step: Step) {
    match step
    case Register(t, _) => t !in s.visits
    case Acquire(t) => At(s, t, Waiting) && s.visits[t].lock !in s.held
    case Unlock(t) => At(s, t, Holding)
    case Deregister(t) => At(s, t, Leaving)
  }

  function UsersOf(s: State, lock: Lock): int { if lock in s.users then s.users[lock] else 0 }

  function Moved(s: State, t: Thread, stage: Stage): map<Thread, Visit>
    requires t in s.visits
  {
    s.visits[t := s.visits[t].(stage := stage)]
  }

  function Apply(s: State, step: Step): State {
    match step
    case Register(t, key) =>
      var lock := if key in s.keyLocks then s.keyLocks[key] else Lock(s.made);
      var grown := if key in s.keyLocks then s else s.(keyLocks := s.keyLocks[key := lock], made := s.made + 1);
      grown.(users := grown.users[lock := UsersOf(grown, lock) + 1],
             visits := grown.visits[t := Visit(key, lock, Waiting)])
    case Acquire(t) =>
      if t in s.visits then s.(held := s.held[s.visits[t].lock := t], visits := Moved(s, t, Holding)) else s
    case Unlock(t) =>
      if t in s.visits then s.(held := s.held - {s.visits[t].lock}, visits := Moved(s, t, Leaving)) else s
    case Deregister(t) =>
      if t !in s.visits then s
      else
        var visit := s.visits[t];
        var left := UsersOf(s, visit.lock) - 1;
        s.(users := s.users[visit.lock := left],
           keyLocks := if left == 0 then s.keyLocks - {visit.key} else s.keyLocks,
           visits := s.visits - {t})
  }

  function Run(s: State, steps: seq<Step>): State
    decreases |steps|
  {
    if steps == [] then s
    else
      var before := Run(s, steps[..|steps| - 1]);
      if Enabled(before, steps[|steps| - 1]) then Apply(before, steps[|steps| - 1]) else before
  }

  // ----- What every step keeps -----

  ghost function Registered(s: State, key: Key): set<Thread> { set t | t in s.visits && s.visits[t].key == key }

  /** All threads registered for a key share the lock the map holds for it. */
  ghost predicate Shared(s: State) {
    && (forall t | t in s.visits :: s.visits[t].key in s.keyLocks && s.keyLocks[s.visits[t].key] == s.visits[t].lock)
    && (forall key | key in s.keyLocks :: s.keyLocks[key].number < s.made)
    && (forall a, b | a in s.keyLocks && b in s.keyLocks && s.keyLocks[a] == s.keyLocks[b] :: a == b)
  }

  ghost predicate CountedAt(s: State, key: Key)
    requires key in s.keyLocks
  {
    UsersOf(s, s.keyLocks[key]) == |Registered(s, key)| > 0
  }

  /** A key is in the map while someone is registered for it, with the right count. */
  ghost predicate Counted(s: State) {
    && (forall key | key in s.keyLocks :: CountedAt(s, key))
    && (forall lock | lock in s.users && lock.number >= s.made :: s.users[lock] == 0)
  }

  ghost predicate Exclusive(s: State) {
    && (forall lock | lock in s.held :: At(s, s.held[lock], Holding) && s.visits[s.held[lock]].lock == lock)
    && (forall t | At(s, t, Holding) :: s.visits[t].lock in s.held && s.held[s.visits[t].lock] == t)
  }

  ghost predicate Inv(s: State) { Shared(s) && Counted(s) && Exclusive(s) }

  lemma RegisterKeeps(s: State, t: Thread, key: Key)
    requires Inv(s) && t !in s.visits
    ensures Inv(Apply(s, Register(t, key)))
  {
    hide Shared, Counted, Exclusive, Apply;
    RegisterShares(s, t, key);
    RegisterCounts(s, t, key);
    RegisterExcludes(s, t, key);
  }

  lemma RegisterShares(s: State, t: Thread, key: Key)
    requires Shared(s) && t !in s.visits
    ensures Shared(Apply(s, Register(t, key)))
  {
    var after := Apply(s, Register(t, key));
    var lock := after.keyLocks[key];
    assert after.keyLocks == s.keyLocks[key := lock] && after.visits == s.visits[t := Visit(key, lock, Waiting)];
    assert key !in s.keyLocks ==> forall other | other in s.keyLocks :: s.keyLocks[other] != lock;
  }

  /** Keys with the same lock, count and threads before and after are counted alike. */
  lemma CountedSame(s: State, after: State, key: Key)
    requires key in s.keyLocks && key in after.keyLocks && s.keyLocks[key] == after.keyLocks[key]
    requires UsersOf(s, s.keyLocks[key]) == UsersOf(after, s.keyLocks[key])
    requires forall t :: (t in s.visits && s.visits[t].key == key) <==>
      (t in after.visits && after.visits[t].key == key)
    requires CountedAt(s, key)
    ensures CountedAt(after, key)
  {
    assert Registered(s, key) == Registered(after, key);
  }

  lemma OneMore(s: State, t: Thread, key: Key)
    requires t !in s.visits
    ensures |Registered(Apply(s, Register(t, key)), key)| == |Registered(s, key)| + 1
  {
    assert Registered(Apply(s, Register(t, key)), key) == Registered(s, key) + {t};
  }

  lemma NoneRegistered(s: State, key: Key)
    requires Shared(s) && key !in s.keyLocks
    ensures Registered(s, key) == {}
  {
  }

  lemma RegisterCounts(s: State, t: Thread, key: Key)
    requires Shared(s) && Counted(s) && t !in s.visits
    ensures Counted(Apply(s, Register(t, key)))
  {
    hide Registered;
    var after := Apply(s, Register(t, key));
    OneMore(s, t, key);
    if key !in s.keyLocks {
      NoneRegistered(s, key);
    }
    assert CountedAt(after, key);
    forall other | other in s.keyLocks && other != key ensures CountedAt(after, other) {
      CountedSame(s, after, other);
    }
  }

  lemma RegisterExcludes(s: State, t: Thread, key: Key)
    requires Exclusive(s) && t !in s.visits
    ensures Exclusive(Apply(s, Register(t, key)))
  {
  }

  lemma MoveShares(s: State, t: Thread, stage: Stage, held: map<Lock, Thread>)
    requires Shared(s) && Counted(s) && t in s.visits
    ensures Shared(s.(held := held, visits := Moved(s, t, stage)))
    ensures Counted(s.(held := held, visits := Moved(s, t, stage)))
  {
    var after := s.(held := held, visits := Moved(s, t, stage));
    forall key ensures Registered(after, key) == Registered(s, key) {}
  }

  lemma AcquireKeeps(s: State, t: Thread)
    requires Inv(s) && Enabled(s, Acquire(t))
    ensures Inv(Apply(s, Acquire(t)))
  {
    hide Counted, Shared;
    MoveShares(s, t, Holding, s.held[s.visits[t].lock := t]);
  }

  lemma UnlockKeeps(s: State, t: Thread)
    requires Inv(s) && Enabled(s, Unlock(t))
    ensures Inv(Apply(s, Unlock(t)))
  {
    hide Counted, Shared;
    MoveShares(s, t, Leaving, s.held - {s.visits[t].lock});
  }

  lemma OneFewer(s: State, t: Thread)
    requires t in s.visits
    ensures |Registered(s, s.visits[t].key)| == |Registered(Apply(s, Deregister(t)), s.visits[t].key)| + 1
  {
    hide Apply;
    DeregisterLeaves(s, t);
    assert Registered(s, s.visits[t].key) == Registered(Apply(s, Deregister(t)), s.visits[t].key) + {t};
  }

  lemma DeregisterLeaves(s: State, t: Thread)
    requires t in s.visits
    ensures Apply(s, Deregister(t)).visits == s.visits - {t}
  {
  }

  /** Nobody else is registered when the last user leaves. */
  lemma LastOne(s: State, t: Thread, other: Thread)
    requires Inv(s) && t in s.visits && other in s.visits && other != t && s.visits[other].key == s.visits[t].key
    ensures UsersOf(s, s.visits[t].lock) > 1
  {
    hide Exclusive;
    OneFewer(s, t);
    assert CountedAt(s, s.visits[t].key);
    assert other in Registered(Apply(s, Deregister(t)), s.visits[t].key);
  }

  lemma DeregisterShares(s: State, t: Thread)
    requires Inv(s) && t in s.visits
    ensures Shared(Apply(s, Deregister(t)))
    ensures forall other | other in s.visits && other != t :: s.visits[other].key in Apply(s, Deregister(t)).keyLocks
  {
    hide Counted, Exclusive;
    forall other | other in s.visits && other != t && s.visits[other].key == s.visits[t].key
      ensures UsersOf(s, s.visits[t].lock) > 1
    {
      LastOne(s, t, other);
    }
  }

  lemma DeregisterCounts(s: State, t: Thread)
    requires Shared(s) && Counted(s) && t in s.visits
    ensures Counted(Apply(s, Deregister(t)))
  {
    hide Registered;
    var after := Apply(s, Deregister(t));
    var key := s.visits[t].key;
    OneFewer(s, t);
    assert CountedAt(s, key);
    forall other | other in after.keyLocks && other != key ensures CountedAt(after, other) {
      CountedSame(s, after, other);
    }
  }

  lemma DeregisterExcludes(s: State, t: Thread)
    requires Exclusive(s) && At(s, t, Leaving)
    ensures Exclusive(Apply(s, Deregister(t)))
  {
  }

  lemma DeregisterKeeps(s: State, t: Thread)
    requires Inv(s) && Enabled(s, Deregister(t))
    ensures Inv(Apply(s, Deregister(t)))
    ensures forall other | other in s.visits && other != t :: s.visits[other].key in Apply(s, Deregister(t)).keyLocks
  {
    hide Shared, Counted, Exclusive, Apply;
    DeregisterShares(s, t);
    DeregisterCounts(s, t);
    DeregisterExcludes(s, t);
  }

  lemma StepKeeps(s: State, step: Step)
    requires Inv(s) && Enabled(s, step)
    ensures Inv(Apply(s, step))
  {
    hide Inv, Apply;
    match step
    case Register(t, key) => RegisterKeeps(s, t, key);
    case Acquire(t) => AcquireKeeps(s, t);
    case Unlock(t) => UnlockKeeps(s, t);
    case Deregister(t) => DeregisterKeeps(s, t);
  }

  lemma {:induction false} RunKeeps(steps: seq<Step>)
    ensures Inv(Run(START, steps))
    decreases |steps|
  {
    hide Inv, Apply, Enabled;
    if steps == [] {
      StartKeeps();
    } else {
      RunKeeps(steps[..|steps| - 1]);
      var before := Run(START, steps[..|steps| - 1]);
      if Enabled(before, steps[|steps| - 1]) {
        StepKeeps(before, steps[|steps| - 1]);
      }
    }
  }

  lemma StartKeeps()
    ensures Inv(START)
  {
  }

  // ----- What follows, in every run -----

  /** At most one thread holds a key. */
  lemma AtMostOneHolder(steps: seq<Step>, a: Thread, b: Thread)
    requires At(Run(START, steps), a, Holding) && At(Run(START, steps), b, Holding)
    requires Run(START, steps).visits[a].key == Run(START, steps).visits[b].key
    ensures a == b
  {
    RunKeeps(steps);
  }

  /** The map holds a key exactly while some thread is registered for it, and the count of its
      lock is the number of those threads. */
  lemma MapHoldsRegistered(steps: seq<Step>, key: Key)
    ensures var s := Run(START, steps);
      && (key in s.keyLocks <==> Registered(s, key) != {})
      && (key in s.keyLocks ==> UsersOf(s, s.keyLocks[key]) == |Registered(s, key)|)
  {
    hide Run, Exclusive;
    RunKeeps(steps);
    var s := Run(START, steps);
    if key in s.keyLocks {
      assert |Registered(s, key)| > 0;
    } else {
      assert forall t | t in s.visits :: s.visits[t].key != key;
    }
  }

  /** Deleting a key never removes a lock that a thread still uses. */
  lemma DeleteSpares(steps: seq<Step>, t: Thread, other: Thread)
    requires var s := Run(START, steps); At(s, t, Leaving) && other in s.visits && other != t
    ensures var s := Run(START, steps); var after := Apply(s, Deregister(t));
      && other in after.visits && after.visits[other].key in after.keyLocks
      && after.keyLocks[after.visits[other].key] == s.visits[other].lock
  {
    hide Run;
    RunKeeps(steps);
    DeregisterKeeps(Run(START, steps), t);
  }

  /** No deadlock: while a thread is on its way, some thread registered for the same key can
      take its next step. */
  lemma SomeoneMoves(steps: seq<Step>, t: Thread)
    requires t in Run(START, steps).visits
    ensures var s := Run(START, steps);
      exists other :: other in Registered(s, s.visits[t].key)
        && (Enabled(s, Acquire(other)) || Enabled(s, Unlock(other)) || Enabled(s, Deregister(other)))
  {
    hide Run;
    RunKeeps(steps);
    var s := Run(START, steps);
    var lock := s.visits[t].lock;
    if s.visits[t].stage == Waiting && lock in s.held {
      var other := s.held[lock];
      assert s.visits[other].lock == lock;
      assert other in Registered(s, s.visits[t].key) && Enabled(s, Unlock(other));
    } else {
      assert t in Registered(s, s.visits[t].key);
    }
  }
}
