/** What the store of the catalog service holds over whole runs, and what eviction removes:
    internal/catalogservice/service.go, the handlers, finishOperation and evictOperationsLocked. */
module ServiceRecords {
  import opened Wrappers
  import opened Digraph
  import opened Scheduler

  // ----- Who wrote a record -----

  predicate TookEffect(write: Write) { !write.NotDone? }

  /** The status a step writes for an operation, if it writes one: a finished generation its
      outcome, a handler that saves the operation a pending record. */
  function Writes(c: Config, s: State, step: Step, id: Id): Option<Status> {
    match step
    case FinishStep(x, status, write) =>
      if x == id && id in s.active && !status.Pending? && TookEffect(write) then Some(status) else None
    case PostStep(x, env) => if x == id && PostSaves(c, s, id, env) && TookEffect(env.save) then Some(Pending) else None
    case GetStep(x, env) => if x == id && GetSaves(c, s, id, env) && TookEffect(env.save) then Some(Pending) else None
    case _ => None
  }

  /** A step writes what it is said to write, changes no other record, and removes a record only
      to make room for a new operation, never one that runs or is to be run. */
  ghost predicate RecordedBy(s: State, after: State, step: Step, id: Id, written: Option<Status>) {
    match written
    case Some(status) => id in after.stored && after.stored[id] == status
    case None =>
      && (id in after.stored ==> id in s.stored && after.stored[id] == s.stored[id])
      && (id in s.stored && id !in after.stored ==>
            && step.PostStep? && step.id !in s.stored
            && id !in s.active && (s.stored[id].Pending? ==> id in s.terminal))
  }

  lemma StartStores(c: Config, s: State, id: Id, cloned: Option<Request>)
    ensures Start(c, s, id, cloned).stored == s.stored
  {
  }

  lemma EvictStores(s: State, env: EvictEnv, max: int)
    ensures var after := Evict(s, env, max).0;
      && (forall id | id in after.stored :: id in s.stored && after.stored[id] == s.stored[id])
      && (forall id | id in s.stored && id !in after.stored ::
            id !in s.active && (s.stored[id].Pending? ==> id in s.terminal))
  {
    hide EvictFrom;
    if env.infos.Some? {
      EvictFromSpares(s, env.infos.value, env, max, |env.infos.value|);
    }
  }

  lemma PostRecords(c: Config, s: State, x: Id, env: HandlerEnv, id: Id)
    ensures RecordedBy(s, Post(c, s, x, env), PostStep(x, env), id, Writes(c, s, PostStep(x, env), id))
  {
    hide Evict, Start, HasCapacity;
    var evicted := Evict(s, env.evict, c.maxStored - 1).0;
    EvictStores(s, env.evict, c.maxStored - 1);
    StartStores(c, s, x, env.cloned);
    StartStores(c, Save(s, x, Pending, env.save), x, env.cloned);
    StartStores(c, Save(evicted, x, Pending, env.save), x, env.cloned);
  }

  lemma GetRecords(c: Config, s: State, x: Id, env: HandlerEnv, id: Id)
    ensures RecordedBy(s, Get(c, s, x, env), GetStep(x, env), id, Writes(c, s, GetStep(x, env), id))
  {
    hide Start, HasCapacity;
    StartStores(c, s, x, env.cloned);
    StartStores(c, Save(s, x, Pending, env.save), x, env.cloned);
  }

  lemma StepRecords(c: Config, s: State, step: Step, id: Id)
    ensures RecordedBy(s, Apply(c, s, step), step, id, Writes(c, s, step, id))
  {
    hide Post, Get, PostSaves, GetSaves;
    match step
    case PostStep(x, env) => PostRecords(c, s, x, env, id);
    case GetStep(x, env) => GetRecords(c, s, x, env, id);
    case FinishStep(x, status, write) =>
    case DoneStep(x) => DrainStored(c, Freed(s, x));
    case CloseStep =>
  }

  // ----- Over runs -----

  /** What the k-th step of a run writes for an operation. */
  function WritesAt(c: Config, s: State, steps: seq<Step>, k: nat, id: Id): Option<Status>
    requires k < |steps|
  {
    Writes(c, Run(c, s, steps[..k]), steps[k], id)
  }

  /** The k-th step is the last one that wrote the record of an operation. */
  ghost predicate LastWriter(c: Config, s: State, steps: seq<Step>, k: nat, id: Id) {
    && k < |steps| && WritesAt(c, s, steps, k, id).Some?
    && forall j | k < j < |steps| :: WritesAt(c, s, steps, j, id).None?
  }

  ghost predicate WrittenBy(c: Config, s: State, steps: seq<Step>, k: nat, id: Id)
    requires id in Run(c, s, steps).stored
  {
    LastWriter(c, s, steps, k, id) && Some(Run(c, s, steps).stored[id]) == WritesAt(c, s, steps, k, id)
  }

  ghost predicate Untouched(c: Config, s: State, steps: seq<Step>, id: Id)
    requires id in Run(c, s, steps).stored
  {
    && (forall k: nat | k < |steps| :: WritesAt(c, s, steps, k, id).None?)
    && id in s.stored && Run(c, s, steps).stored[id] == s.stored[id]
  }

  /** Every record has the status written by the last step that wrote it, or the one it had at the
      start if no step did. */
  lemma {:induction false} RecordIsLastWritten(c: Config, s: State, steps: seq<Step>, id: Id)
    requires id in Run(c, s, steps).stored
    ensures (exists k: nat :: WrittenBy(c, s, steps, k, id)) || Untouched(c, s, steps, id)
    decreases |steps|
  {
    hide Apply, Writes;
    if steps != [] {
      var n, front := |steps| - 1, steps[..|steps| - 1];
      StepRecords(c, Run(c, s, front), steps[n], id);
      FrontWrites(c, s, steps, id);
      if WritesAt(c, s, steps, n, id).Some? {
        assert WrittenBy(c, s, steps, n, id);
      } else {
        RecordIsLastWritten(c, s, front, id);
        if k: nat :| WrittenBy(c, s, front, k, id) {
          assert WrittenBy(c, s, steps, k, id);
        }
      }
    }
  }

  lemma FrontWrites(c: Config, s: State, steps: seq<Step>, id: Id)
    requires steps != []
    ensures forall k: nat | k < |steps| - 1 ::
      WritesAt(c, s, steps[..|steps| - 1], k, id) == WritesAt(c, s, steps, k, id)
  {
    hide Run, Writes;
    var front := steps[..|steps| - 1];
    assert forall k | 0 <= k < |front| :: front[..k] == steps[..k] && front[k] == steps[k];
  }

  /** In a run from an empty store, a record is completed exactly when the last step that wrote it
      is a generation that completed, with a write that took effect. */
  lemma CompletedByGeneration(c: Config, steps: seq<Step>, id: Id)
    requires id in Run(c, Fresh(map[]), steps).stored
    ensures exists k: nat ::
      LastWriter(c, Fresh(map[]), steps, k, id) && CompletesAt(Run(c, Fresh(map[]), steps), steps, k, id)
  {
    hide Run;
    var s := Fresh(map[]);
    RecordIsLastWritten(c, s, steps, id);
    var k: nat :| WrittenBy(c, s, steps, k, id);
    assert CompletesAt(Run(c, s, steps), steps, k, id);
  }

  /** The record is completed exactly when the k-th step finished its operation so. */
  ghost predicate CompletesAt(end: State, steps: seq<Step>, k: nat, id: Id) {
    && k < |steps| && id in end.stored
    && (end.stored[id].Completed? <==>
          && steps[k].FinishStep? && steps[k].id == id && steps[k].status.Completed?
          && (steps[k].write.Done? || steps[k].write.DoneButFailed?))
  }

  // ----- What a record does to later requests -----

  /** A completed operation whose result is up to date is served: nothing is launched, queued,
      stored or removed. */
  lemma CompletedIsServed(c: Config, s: State, id: Id, env: HandlerEnv)
    requires id in s.stored && s.stored[id].Completed? && env.upToDate
    ensures Apply(c, s, PostStep(id, env)) == s && Apply(c, s, GetStep(id, env)) == s
  {
  }

  /** Nor does a request change anything while its operation has a terminal error, and nor does
      the GET of a failed operation; but a POST of a failed one is taken on again. */
  lemma FailedIsReported(c: Config, s: State, id: Id, env: HandlerEnv)
    ensures id in s.terminal ==> Apply(c, s, PostStep(id, env)) == s && Apply(c, s, GetStep(id, env)) == s
    ensures id in s.stored && s.stored[id].Failed? ==> Apply(c, s, GetStep(id, env)) == s
    ensures (&& id in s.stored && s.stored[id].Failed? && !s.closed
             && PostSaves(c, s, id, env) && env.save.Done? && env.cloned.Some?) ==>
      var after := Apply(c, s, PostStep(id, env)); id in after.active || id in after.queued
  {
    hide Evict;
  }

  /** A terminal error is set exactly by a generation whose save does not succeed or a request that
      cannot be cloned, and goes with a later save that succeeds or with the record. */
  lemma StepTerminal(c: Config, s: State, step: Step, id: Id)
    ensures id in Apply(c, s, step).terminal && id !in s.terminal ==>
      || (step.FinishStep? && step.id == id && id in s.active && !step.write.Done?)
      || ((step.PostStep? || step.GetStep?) && step.id == id && step.env.cloned.None?)
    ensures id !in Apply(c, s, step).terminal && id in s.terminal ==>
      || (step.FinishStep? && step.id == id && step.write.Done?)
      || (step.PostStep? && id !in Apply(c, s, step).stored)
    ensures step.FinishStep? && step.id == id && id in s.active && !step.status.Pending? ==>
      (id in Apply(c, s, step).terminal <==> !step.write.Done?)
  {
    hide Post, Get, Drain;
    match step
    case PostStep(x, env) => PostTerminal(c, s, x, env, id);
    case GetStep(x, env) => GetTerminal(c, s, x, env, id);
    case FinishStep(x, status, write) =>
    case DoneStep(x) => DrainTerminal(c, Freed(s, x));
    case CloseStep =>
  }

  lemma {:induction false} DrainTerminal(c: Config, s: State)
    ensures Drain(c, s).terminal == s.terminal
    decreases |s.queue|
  {
    if s.queue != [] {
      DrainTerminal(c, Pop(s));
    }
  }

  lemma StartTerminal(c: Config, s: State, x: Id, cloned: Option<Request>, id: Id)
    ensures id in Start(c, s, x, cloned).terminal <==>
      id in s.terminal || (id == x && cloned.None? && id in Start(c, s, x, cloned).terminal)
  {
  }

  lemma PostTerminal(c: Config, s: State, x: Id, env: HandlerEnv, id: Id)
    ensures var after := Post(c, s, x, env);
      && (id in after.terminal && id !in s.terminal ==> id == x && env.cloned.None?)
      && (id !in after.terminal && id in s.terminal ==> id !in after.stored)
  {
    hide Evict, Start, HasCapacity;
    var evicted := Evict(s, env.evict, c.maxStored - 1).0;
    EvictTerminal(s, env.evict, c.maxStored - 1, id);
    StartTerminal(c, s, x, env.cloned, id);
    StartTerminal(c, Save(s, x, Pending, env.save), x, env.cloned, id);
    StartTerminal(c, Save(evicted, x, Pending, env.save), x, env.cloned, id);
    StartStores(c, Save(evicted, x, Pending, env.save), x, env.cloned);
  }

  lemma EvictTerminal(s: State, env: EvictEnv, max: int, id: Id)
    ensures var after := Evict(s, env, max).0;
      after.terminal <= s.terminal && (id in s.terminal && id !in after.terminal ==> id !in after.stored)
  {
    hide EvictFrom;
    if env.infos.Some? {
      EvictFromSpares(s, env.infos.value, env, max, |env.infos.value|);
      EvictForgets(s, env.infos.value, env, max, |env.infos.value|);
    }
  }

  lemma GetTerminal(c: Config, s: State, x: Id, env: HandlerEnv, id: Id)
    ensures var after := Get(c, s, x, env);
      && s.terminal <= after.terminal
      && (id in after.terminal && id !in s.terminal ==> id == x && env.cloned.None?)
  {
    hide Start, HasCapacity;
    StartTerminal(c, s, x, env.cloned, id);
    StartTerminal(c, Save(s, x, Pending, env.save), x, env.cloned, id);
    forall t | t in s.terminal ensures t in Get(c, s, x, env).terminal {
      StartTerminal(c, s, x, env.cloned, t);
      StartTerminal(c, Save(s, x, Pending, env.save), x, env.cloned, t);
    }
  }

  // ----- What eviction removes -----

  /** A record that may go: readable, not running, and not to be run. */
  predicate MayGo(s: State, env: EvictEnv, id: Id) {
    && id in s.stored && id !in s.active && env.readable(id)
    && !(s.stored[id].Pending? && id !in s.terminal)
  }

  /** The records that may go, in the order of the listing, oldest first. */
  function Oldest(s: State, env: EvictEnv, infos: seq<Id>): seq<Id> {
    if infos == [] then []
    else if MayGo(s, env, infos[0]) then [infos[0]] + Oldest(s, env, infos[1..])
    else Oldest(s, env, infos[1..])
  }

  lemma {:induction false} OldestSame(s: State, s': State, env: EvictEnv, infos: seq<Id>)
    requires forall id | id in infos :: MayGo(s', env, id) <==> MayGo(s, env, id)
    ensures Oldest(s', env, infos) == Oldest(s, env, infos)
  {
    hide MayGo;
    if infos != [] {
      OldestSame(s, s', env, infos[1..]);
    }
  }

  ghost predicate Removed(s: State, after: State, gone: set<Id>, forgotten: set<Id>) {
    after.stored == s.stored - gone && after.terminal == s.terminal - forgotten
  }

  /** The first n of `oldest` are removed, and eviction goes on as long as there is one too many; it
      stops at the first removal that fails, which may have taken effect. */
  ghost predicate EvictedFirst(s: State, after: State, ok: bool, env: EvictEnv, oldest: seq<Id>, excess: int, n: nat) {
    && n <= |oldest| && (n == 0 || n <= excess)
    && (forall j | 0 <= j < n :: env.removal(oldest[j]).Done?)
    && if ok then (n == |oldest| || n >= excess) && Removed(s, after, Elems(oldest[..n]), Elems(oldest[..n]))
       else
         && n < |oldest| && n < excess && !env.removal(oldest[n]).Done?
         && Removed(s, after, Elems(oldest[..n]) + (if env.removal(oldest[n]).DoneButFailed? then {oldest[n]} else {}),
                    Elems(oldest[..n]))
  }

  lemma {:induction false} EvictFromOldest(s: State, infos: seq<Id>, env: EvictEnv, max: int, remaining: int)
    returns (n: nat)
    requires NoRepeats(infos)
    ensures var (after, ok) := EvictFrom(s, infos, env, max, remaining);
      EvictedFirst(s, after, ok, env, Oldest(s, env, infos), remaining - max, n)
    decreases |infos|
  {
    n := 0;
    var all := Oldest(s, env, infos);
    assert all[..0] == [];
    if infos != [] && remaining > max {
      var id, rest := infos[0], infos[1..];
      assert forall k | 0 <= k < |rest| :: rest[k] == infos[k + 1] != id;
      if !MayGo(s, env, id) {
        n := EvictFromOldest(s, rest, env, max, remaining);
      } else if env.removal(id).Done? {
        var removed := s.(stored := s.stored - {id}, terminal := s.terminal - {id});
        OldestSame(s, removed, env, rest);
        var m := EvictFromOldest(removed, rest, env, max, remaining - 1);
        n := m + 1;
        EvictedOneMore(s, removed, id, env, rest, max, remaining, m);
      }
    }
  }

  lemma EvictedOneMore(s: State, removed: State, id: Id, env: EvictEnv, rest: seq<Id>, max: int, remaining: int, m: nat)
    requires removed == s.(stored := s.stored - {id}, terminal := s.terminal - {id})
    requires env.removal(id).Done? && remaining > max
    requires var (after, ok) := EvictFrom(removed, rest, env, max, remaining - 1);
      EvictedFirst(removed, after, ok, env, Oldest(s, env, rest), remaining - 1 - max, m)
    ensures var (after, ok) := EvictFrom(removed, rest, env, max, remaining - 1);
      EvictedFirst(s, after, ok, env, [id] + Oldest(s, env, rest), remaining - max, m + 1)
  {
    hide EvictFrom, Oldest;
    var tail := Oldest(s, env, rest);
    var all := [id] + tail;
    assert all[..m + 1] == [id] + tail[..m];
    assert Elems(all[..m + 1]) == {id} + Elems(tail[..m]);
    assert forall j | 0 < j < |all| :: all[j] == tail[j - 1];
  }

  /** Eviction removes the oldest records that may go, one for each operation over the limit and
      no more, and stops short only where none is left or a removal fails. */
  lemma EvictsOldest(s: State, env: EvictEnv, max: int) returns (n: nat)
    requires env.infos.Some? && NoRepeats(env.infos.value)
    ensures var (after, ok) := Evict(s, env, max);
      EvictedFirst(s, after, ok, env, Oldest(s, env, env.infos.value), |env.infos.value| - max, n)
  {
    n := EvictFromOldest(s, env.infos.value, env, max, |env.infos.value|);
  }
}
