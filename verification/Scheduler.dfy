/** The scheduler of the catalog service as a state machine: internal/catalogservice/service.go.
    Handlers and workers interleave, and each section that holds the mutex is one step. A write
    to the store may fail, also after it took effect. */
module Scheduler {
  import opened Wrappers
  import opened Digraph

  datatype Id = Id(digest: string)

  datatype Request = Request(canonical: string)

  datatype Status = Pending | Completed | Failed

  /** `capacity` is the size of the slot channel. */
  datatype Config = Config(capacity: nat, maxPending: nat, maxStored: nat)

  /** `slots` is how many values the slot channel holds, `stored` the persisted operations and
      `launched` the generations started so far. `stuck` records a channel operation that
      would have blocked while the mutex was held. */
  datatype State = State(
    active: set<Id>, queued: map<Id, Request>, queue: seq<Id>, slots: nat, terminal: set<Id>, closed: bool,
    stored: map<Id, Status>, launched: seq<Id>, stuck: bool)

  // ----- The steps -----

  predicate HasCapacity(c: Config, s: State, id: Id) {
    id in s.active || id in s.queued || |s.active| + |s.queued| < c.maxPending
  }

  function Send(c: Config, s: State): State {
    if s.slots < c.capacity then s.(slots := s.slots + 1) else s.(stuck := true)
  }

  function Receive(s: State): State {
    if s.slots > 0 then s.(slots := s.slots - 1) else s.(stuck := true)
  }

  function Launch(s: State, id: Id): State {
    s.(active := s.active + {id}, launched := s.launched + [id])
  }

  /** startLocked; `cloned` is None when the request cannot be cloned. */
  function Start(c: Config, s: State, id: Id, cloned: Option<Request>): State {
    if s.closed || id in s.terminal || id in s.active || id in s.queued || !HasCapacity(c, s, id) then s
    else if cloned.None? then s.(terminal := s.terminal + {id})
    else if s.slots < c.capacity then Launch(s.(slots := s.slots + 1), id)
    else s.(queued := s.queued[id := cloned.value], queue := s.queue + [id])
  }

  /** The loop of generationDone over the queue. */
  function Drain(c: Config, s: State): State
    decreases |s.queue|
  {
    if s.queue == [] then s
    else
      var next := s.queue[0];
      var popped := s.(queue := s.queue[1..], queued := s.queued - {next});
      if next !in s.queued || next in s.terminal then Drain(c, popped)
      else Launch(Send(c, popped), next)
  }

  /** The state once a generation has given up its slot. */
  function Freed(s: State, id: Id): State { Receive(s.(active := s.active - {id})) }

  /** generationDone */
  function Finished(c: Config, s: State, id: Id): State {
    var freed := Freed(s, id);
    if freed.closed then freed else Drain(c, freed)
  }

  function Save(s: State, id: Id, status: Status, write: Write): State {
    if write.NotDone? then s else s.(stored := s.stored[id := status])
  }

  /** finishOperation */
  function Finish(s: State, id: Id, status: Status, write: Write): State {
    var saved := Save(s, id, status, write);
    if write.Done? then saved.(terminal := s.terminal - {id}) else saved.(terminal := s.terminal + {id})
  }

  /** What eviction meets: the stored operations in the order of their times (None when they
      cannot be listed), which of them can be read, and how each removal ends. */
  datatype EvictEnv = EvictEnv(infos: Option<seq<Id>>, readable: Id -> bool, removal: Id -> Write)

  predicate Spared(s: State, id: Id) {
    id in s.active || (id in s.stored && s.stored[id].Pending? && id !in s.terminal)
  }

  function EvictFrom(s: State, infos: seq<Id>, env: EvictEnv, max: int, remaining: int): (State, bool)
    decreases |infos|
  {
    if infos == [] || remaining <= max then (s, true)
    else
      var id := infos[0];
      if Spared(s, id) || id !in s.stored || !env.readable(id) then EvictFrom(s, infos[1..], env, max, remaining)
      else
        match env.removal(id)
        case NotDone => (s, false)
        case DoneButFailed => (s.(stored := s.stored - {id}), false)
        case Done =>
          EvictFrom(s.(stored := s.stored - {id}, terminal := s.terminal - {id}), infos[1..], env, max, remaining - 1)
  }

  /** evictOperationsLocked */
  function Evict(s: State, env: EvictEnv, max: int): (State, bool) {
    match env.infos
    case None => (s, false)
    case Some(infos) => EvictFrom(s, infos, env, max, |infos|)
  }

  /** What a request handler meets in the store. */
  datatype HandlerEnv = HandlerEnv(
    readable: bool, requestStored: bool, upToDate: bool, evict: EvictEnv, listed: bool, save: Write,
    cloned: Option<Request>)

  /** The locked part of POST. */
  function Post(c: Config, s: State, id: Id, env: HandlerEnv): State {
    if id in s.terminal || !env.readable then s
    else if id !in s.stored then
      if !HasCapacity(c, s, id) then s
      else
        var (evicted, ok) := Evict(s, env.evict, c.maxStored - 1);
        if !ok || !env.listed || |evicted.stored| >= c.maxStored || !env.requestStored then evicted
        else SaveAndStart(c, evicted, id, env)
    else if !env.requestStored || (s.stored[id].Completed? && env.upToDate) || !HasCapacity(c, s, id) then s
    else if !s.stored[id].Pending? then SaveAndStart(c, s, id, env)
    else Start(c, s, id, env.cloned)
  }

  function SaveAndStart(c: Config, s: State, id: Id, env: HandlerEnv): State {
    var saved := Save(s, id, Pending, env.save);
    if env.save.Done? then Start(c, saved, id, env.cloned) else saved
  }

  /** The locked part of GET. */
  function Get(c: Config, s: State, id: Id, env: HandlerEnv): State {
    if id in s.terminal || id !in s.stored || !env.readable || !env.requestStored then s
    else if s.stored[id].Completed? && !env.upToDate then
      if HasCapacity(c, s, id) then SaveAndStart(c, s, id, env) else s
    else if s.stored[id].Pending? then
      if HasCapacity(c, s, id) then Start(c, s, id, env.cloned) else s
    else s
  }

  datatype Step =
    | PostStep(id: Id, env: HandlerEnv)
    | GetStep(id: Id, env: HandlerEnv)
    | FinishStep(id: Id, status: Status, write: Write)
    | DoneStep(id: Id)
    | CloseStep

  /** One step; only a generation that is running can finish or be done. */
  function Apply(c: Config, s: State, step: Step): State {
    match step
    case PostStep(id, env) => Post(c, s, id, env)
    case GetStep(id, env) => Get(c, s, id, env)
    case FinishStep(id, status, write) => if id in s.active && !status.Pending? then Finish(s, id, status, write) else s
    case DoneStep(id) => if id in s.active then Finished(c, s, id) else s
    case CloseStep => s.(closed := true)
  }

  function Run(c: Config, s: State, steps: seq<Step>): State
    decreases |steps|
  {
    if steps == [] then s else Apply(c, Run(c, s, steps[..|steps| - 1]), steps[|steps| - 1])
  }

  function Fresh(stored: map<Id, Status>): State { State({}, map[], [], 0, {}, false, stored, [], false) }

  /** resumePending once the pending operations are listed: each is started in turn. */
  function Resume(c: Config, s: State, pending: seq<(Id, Option<Request>)>): State
    decreases |pending|
  {
    if pending == [] then s
    else
      var last := pending[|pending| - 1];
      Start(c, Resume(c, s, pending[..|pending| - 1]), last.0, last.1)
  }

  // ----- What every step keeps -----

  ghost predicate QueueListsQueued(s: State) {
    NoRepeats(s.queue) && Elems(s.queue) == s.queued.Keys && s.active !! s.queued.Keys
  }

  ghost predicate Bounded(c: Config, s: State) {
    && !s.stuck && s.slots == |s.active| <= c.capacity
    && |s.active| + |s.queued| <= c.maxPending
    && (s.queue != [] && !s.closed ==> s.slots == c.capacity)
  }

  /** An active operation has its record, and a queued one is recorded as pending and has no
      terminal error. */
  ghost predicate Recorded(s: State) {
    && s.active <= s.stored.Keys
    && forall id | id in s.queued :: id in s.stored && s.stored[id].Pending? && id !in s.terminal
  }

  ghost predicate Inv(c: Config, s: State) {
    QueueListsQueued(s) && Bounded(c, s) && Recorded(s)
  }

  lemma AddOne<T>(a: set<T>, x: T)
    requires x !in a
    ensures |a + {x}| == |a| + 1
  {
  }

  lemma AddKey<K, V>(m: map<K, V>, k: K, v: V)
    ensures |m[k := v]| == if k in m then |m| else |m| + 1
  {
    assert m[k := v].Keys == m.Keys + {k};
    if k in m {
      assert m.Keys + {k} == m.Keys;
    } else {
      AddOne(m.Keys, k);
    }
  }

  lemma RemoveKey<K, V>(m: map<K, V>, k: K)
    requires k in m
    ensures |m - {k}| == |m| - 1
  {
    assert (m - {k}).Keys == m.Keys - {k};
  }

  lemma LaunchKeeps(c: Config, s: State, id: Id)
    requires Inv(c, s) && id !in s.active && id !in s.queued && HasCapacity(c, s, id) && s.slots < c.capacity
    requires id in s.stored
    ensures Inv(c, Launch(s.(slots := s.slots + 1), id))
  {
    hide NoRepeats;
    AddOne(s.active, id);
  }

  lemma EnqueueKeeps(c: Config, s: State, id: Id, request: Request)
    requires Inv(c, s) && id !in s.active && id !in s.queued && HasCapacity(c, s, id) && s.slots >= c.capacity
    requires id in s.stored && s.stored[id].Pending? && id !in s.terminal
    ensures Inv(c, s.(queued := s.queued[id := request], queue := s.queue + [id]))
  {
    SnocElems(s.queue, id);
    AddKey(s.queued, id, request);
  }

  lemma StartKeeps(c: Config, s: State, id: Id, cloned: Option<Request>)
    requires Inv(c, s) && id in s.stored && s.stored[id].Pending?
    ensures Inv(c, Start(c, s, id, cloned))
  {
    hide Launch;
    if s.closed || id in s.terminal || id in s.active || id in s.queued || !HasCapacity(c, s, id) || cloned.None? {
    } else if s.slots < c.capacity {
      LaunchKeeps(c, s, id);
    } else {
      EnqueueKeeps(c, s, id, cloned.value);
    }
  }

  /** An operation admitted by the capacity check runs or waits. */
  lemma StartTakes(c: Config, s: State, id: Id, request: Request)
    requires !s.closed && id !in s.terminal && HasCapacity(c, s, id)
    ensures var after := Start(c, s, id, Some(request)); id in after.active || id in after.queued
  {
  }

  /** Once a generation is done, the slot it gives back takes the head of the queue: nothing
      is skipped, and the send finds room. */
  lemma DrainTakesHead(c: Config, s: State)
    requires QueueListsQueued(s) && Recorded(s) && s.queue != []
    ensures Drain(c, s) == Launch(Send(c, Pop(s)), s.queue[0])
  {
    hide NoRepeats;
    assert s.queue[0] in Elems(s.queue);
  }

  lemma FinishedKeeps(c: Config, s: State, id: Id)
    requires Inv(c, s) && id in s.active
    ensures Inv(c, Finished(c, s, id))
    ensures !s.closed && s.queue != [] ==>
      && Finished(c, s, id).launched == s.launched + [s.queue[0]]
      && Finished(c, s, id).queue == s.queue[1..]
      && Finished(c, s, id).slots == c.capacity
    ensures s.closed || s.queue == [] ==> Finished(c, s, id).launched == s.launched
  {
    hide Finished, Inv, QueueListsQueued, Recorded;
    var freed := Freed(s, id);
    FreedKeeps(c, s, id, freed);
    FinishedShape(c, s, id);
    if !s.closed && s.queue != [] {
      HeadRuns(c, freed);
      HeadFields(c, freed);
    }
  }

  /** Finishing gives up the slot and hands it to the head of the queue, if the service is open
      and something waits. */
  lemma FinishedShape(c: Config, s: State, id: Id)
    requires Inv(c, s) && id in s.active
    ensures Finished(c, s, id) ==
            if s.closed || s.queue == [] then Freed(s, id)
            else Launch(Send(c, Pop(Freed(s, id))), s.queue[0])
  {
    hide Drain, Inv, QueueListsQueued, Recorded;
    var freed := Freed(s, id);
    FreedKeeps(c, s, id, freed);
    if s.closed {
    } else if s.queue == [] {
      EmptyDrain(c, freed);
    } else {
      DrainTakesHead(c, freed);
    }
  }

  lemma HeadFields(c: Config, s: State)
    requires s.queue != []
    ensures var after := Launch(Send(c, Pop(s)), s.queue[0]);
      && after.launched == s.launched + [s.queue[0]] && after.queue == s.queue[1..]
      && after.active == s.active + {s.queue[0]} && after.queued == s.queued - {s.queue[0]}
      && after.stored == s.stored && after.terminal == s.terminal
  {
  }

  lemma SlotHeld(c: Config, s: State, id: Id)
    requires Inv(c, s) && id in s.active
    ensures s.slots > 0
  {
    hide NoRepeats;
    AddOne(s.active - {id}, id);
    assert s.active - {id} + {id} == s.active;
  }

  lemma EmptyDrain(c: Config, s: State)
    requires s.queue == []
    ensures Drain(c, s) == s
  {
  }

  lemma FreedKeeps(c: Config, s: State, id: Id, freed: State)
    requires Inv(c, s) && id in s.active && freed == Freed(s, id)
    ensures s.slots > 0 && QueueListsQueued(s) && Bounded(c, s)
    ensures QueueListsQueued(freed) && Recorded(freed) && freed.slots == |freed.active| < c.capacity
    ensures |freed.active| + |freed.queued| < c.maxPending && !freed.stuck
    ensures s.queue != [] && !s.closed ==> freed.slots + 1 == c.capacity
    ensures s.queue == [] || s.closed ==> Inv(c, freed)
  {
    hide NoRepeats;
    SlotHeld(c, s, id);
    assert s.active == freed.active + {id};
    AddOne(freed.active, id);
  }

  lemma TailElems<T>(s: seq<T>)
    requires NoRepeats(s) && s != []
    ensures NoRepeats(s[1..]) && Elems(s[1..]) == Elems(s) - {s[0]} && s[0] in Elems(s)
  {
    var rest := s[1..];
    assert forall k | 0 <= k < |rest| :: rest[k] == s[k + 1];
    assert forall k | 1 <= k < |s| :: s[k] == rest[k - 1];
  }

  function Pop(s: State): State
    requires s.queue != []
  {
    s.(queue := s.queue[1..], queued := s.queued - {s.queue[0]})
  }

  lemma PopKeeps(s: State)
    requires QueueListsQueued(s) && Recorded(s) && s.queue != []
    ensures QueueListsQueued(Pop(s)) && Recorded(Pop(s)) && |Pop(s).queued| == |s.queued| - 1
    ensures s.queue[0] !in s.active && s.queue[0] !in Pop(s).queued && s.queue[0] in s.stored
  {
    hide NoRepeats;
    TailElems(s.queue);
    RemoveKey(s.queued, s.queue[0]);
  }

  lemma HeadRuns(c: Config, s: State)
    requires QueueListsQueued(s) && Recorded(s) && s.queue != [] && !s.stuck && !s.closed
    requires s.slots == |s.active| && s.slots + 1 == c.capacity && |s.active| + |s.queued| < c.maxPending
    ensures Inv(c, Launch(Send(c, Pop(s)), s.queue[0])) && Launch(Send(c, Pop(s)), s.queue[0]).slots == c.capacity
  {
    hide NoRepeats, Pop;
    PopKeeps(s);
    PopFields(s);
    RunsKeeps(c, Pop(s), s.queue[0]);
  }

  lemma PopFields(s: State)
    requires s.queue != []
    ensures Pop(s) == s.(queue := Pop(s).queue, queued := Pop(s).queued)
  {
  }

  lemma RunsKeeps(c: Config, s: State, id: Id)
    requires QueueListsQueued(s) && Recorded(s) && !s.stuck && id !in s.active && id !in s.queued && id in s.stored
    requires s.slots == |s.active| && s.slots + 1 == c.capacity && |s.active| + |s.queued| < c.maxPending
    ensures Inv(c, Launch(Send(c, s), id)) && Launch(Send(c, s), id).slots == c.capacity
  {
    hide NoRepeats;
    AddOne(s.active, id);
  }

  /** Saving and the terminal errors of a running operation touch nothing that is queued. */
  lemma FinishKeeps(c: Config, s: State, id: Id, status: Status, write: Write)
    requires Inv(c, s) && id in s.active
    ensures Inv(c, Finish(s, id, status, write))
  {
    hide NoRepeats;
    assert id !in s.queued;
  }

  lemma SaveKeeps(c: Config, s: State, id: Id, write: Write)
    requires Inv(c, s)
    ensures Inv(c, Save(s, id, Pending, write))
    ensures write.Done? ==> id in Save(s, id, Pending, write).stored && Save(s, id, Pending, write).stored[id].Pending?
  {
    hide NoRepeats;
  }

  lemma SaveAndStartKeeps(c: Config, s: State, id: Id, env: HandlerEnv)
    requires Inv(c, s)
    ensures Inv(c, SaveAndStart(c, s, id, env))
  {
    hide Inv, Start, Save;
    SaveKeeps(c, s, id, env.save);
    if env.save.Done? {
      StartKeeps(c, Save(s, id, Pending, env.save), id, env.cloned);
    }
  }

  /** Eviction changes only the store and the terminal errors, removes records only, and never
      the record of an operation that is active or queued. */
  ghost predicate Evicted(s: State, after: State) {
    && after == s.(stored := after.stored, terminal := after.terminal)
    && after.stored.Keys <= s.stored.Keys && after.terminal <= s.terminal
    && (forall id | id in after.stored :: after.stored[id] == s.stored[id])
    && (forall id | id in s.stored && Spared(s, id) :: id in after.stored)
  }

  lemma EvictOne(s: State, id: Id, terminal: set<Id>)
    requires !Spared(s, id) && (terminal == s.terminal || (terminal == s.terminal - {id}))
    ensures Evicted(s, s.(stored := s.stored - {id}, terminal := terminal))
  {
  }

  lemma EvictedTwice(s: State, mid: State, after: State)
    requires Evicted(s, mid) && Evicted(mid, after)
    ensures Evicted(s, after)
  {
    forall id | id in s.stored && Spared(s, id) ensures id in after.stored {
      assert id in mid.stored && mid.stored[id] == s.stored[id];
      assert Spared(mid, id);
    }
  }

  lemma {:induction false} EvictFromSpares(s: State, infos: seq<Id>, env: EvictEnv, max: int, remaining: int)
    ensures Evicted(s, EvictFrom(s, infos, env, max, remaining).0)
    decreases |infos|
  {
    hide Spared, Evicted;
    NothingEvicted(s);
    if infos != [] && remaining > max {
      var id := infos[0];
      if Spared(s, id) || id !in s.stored || !env.readable(id) {
        EvictFromSpares(s, infos[1..], env, max, remaining);
      } else {
        var removed := s.(stored := s.stored - {id}, terminal := s.terminal - {id});
        EvictOne(s, id, s.terminal - {id});
        EvictOne(s, id, s.terminal);
        EvictFromSpares(removed, infos[1..], env, max, remaining - 1);
        EvictedTwice(s, removed, EvictFrom(removed, infos[1..], env, max, remaining - 1).0);
        assert s.(stored := s.stored - {id}) == s.(stored := s.stored - {id}, terminal := s.terminal);
      }
    }
  }

  lemma NothingEvicted(s: State)
    ensures Evicted(s, s)
  {
  }

  lemma EvictKeeps(c: Config, s: State, env: EvictEnv, max: int)
    requires Inv(c, s)
    ensures Inv(c, Evict(s, env, max).0) && Evicted(s, Evict(s, env, max).0)
    ensures Evict(s, env, max).0.active == s.active && Evict(s, env, max).0.queued == s.queued
  {
    hide NoRepeats, EvictFrom;
    NothingEvicted(s);
    if env.infos.Some? {
      EvictFromSpares(s, env.infos.value, env, max, |env.infos.value|);
    }
    var after := Evict(s, env, max).0;
    assert forall id | id in s.queued :: Spared(s, id);
    assert forall id | id in s.active :: Spared(s, id);
  }

  lemma PostKeeps(c: Config, s: State, id: Id, env: HandlerEnv)
    requires Inv(c, s)
    ensures Inv(c, Post(c, s, id, env))
  {
    hide Inv, Evict, SaveAndStart, Start, Evicted;
    EvictKeeps(c, s, env.evict, c.maxStored - 1);
    SaveAndStartKeeps(c, Evict(s, env.evict, c.maxStored - 1).0, id, env);
    SaveAndStartKeeps(c, s, id, env);
    if id in s.stored && s.stored[id].Pending? {
      StartKeeps(c, s, id, env.cloned);
    }
  }

  lemma GetKeeps(c: Config, s: State, id: Id, env: HandlerEnv)
    requires Inv(c, s)
    ensures Inv(c, Get(c, s, id, env))
  {
    hide Inv, SaveAndStart, Start;
    SaveAndStartKeeps(c, s, id, env);
    if id in s.stored && s.stored[id].Pending? {
      StartKeeps(c, s, id, env.cloned);
    }
  }

  lemma CloseKeeps(c: Config, s: State)
    requires Inv(c, s)
    ensures Inv(c, s.(closed := true))
  {
    hide NoRepeats;
  }

  lemma StepKeeps(c: Config, s: State, step: Step)
    requires Inv(c, s)
    ensures Inv(c, Apply(c, s, step))
  {
    hide Inv, Post, Get, Finish, Finished;
    InvExposes(c, s);
    match step
    case PostStep(id, env) => PostKeeps(c, s, id, env);
    case GetStep(id, env) => GetKeeps(c, s, id, env);
    case FinishStep(id, status, write) =>
      if id in s.active {
        FinishKeeps(c, s, id, status, write);
      }
    case DoneStep(id) =>
      if id in s.active {
        FinishedKeeps(c, s, id);
      }
    case CloseStep => CloseKeeps(c, s);
  }

  lemma InvExposes(c: Config, s: State)
    requires Inv(c, s)
    ensures !s.stuck
  {
  }

  /** Every state of every run keeps the invariant: no channel operation ever blocks. */
  lemma {:induction false} RunKeeps(c: Config, s: State, steps: seq<Step>)
    requires Inv(c, s)
    ensures Inv(c, Run(c, s, steps))
    decreases |steps|
  {
    hide Inv, Apply;
    if steps != [] {
      RunKeeps(c, s, steps[..|steps| - 1]);
      StepKeeps(c, Run(c, s, steps[..|steps| - 1]), steps[|steps| - 1]);
    }
  }

  // ----- Pending, but not running -----

  /** Every stored pending operation without a terminal error runs or waits. */
  ghost predicate Attended(s: State) {
    forall id | id in s.stored && s.stored[id].Pending? && id !in s.terminal :: id in s.active || id in s.queued
  }

  /** POST gets as far as saving the operation as pending. */
  predicate PostSaves(c: Config, s: State, id: Id, env: HandlerEnv) {
    && id !in s.terminal && env.readable && env.requestStored && HasCapacity(c, s, id)
    && if id !in s.stored then
         var (evicted, ok) := Evict(s, env.evict, c.maxStored - 1);
         ok && env.listed && |evicted.stored| < c.maxStored
       else !s.stored[id].Pending? && !(s.stored[id].Completed? && env.upToDate)
  }

  predicate GetSaves(c: Config, s: State, id: Id, env: HandlerEnv) {
    && id !in s.terminal && id in s.stored && env.readable && env.requestStored
    && s.stored[id].Completed? && !env.upToDate && HasCapacity(c, s, id)
  }

  /** The save takes effect, but the operation is not started: the save reports an error, or the
      service has been closed. */
  predicate SavedOnly(s: State, id: Id, env: HandlerEnv) {
    id !in s.active && id !in s.queued && (env.save.DoneButFailed? || (env.save.Done? && s.closed))
  }

  /** Exactly the steps that leave a pending operation with nothing to run it. */
  predicate Abandons(c: Config, s: State, step: Step) {
    match step
    case PostStep(id, env) => PostSaves(c, s, id, env) && SavedOnly(s, id, env)
    case GetStep(id, env) => GetSaves(c, s, id, env) && SavedOnly(s, id, env)
    case DoneStep(id) => id in s.active && id in s.stored && s.stored[id].Pending? && id !in s.terminal
    case _ => false
  }

  lemma StartAttends(c: Config, s: State, id: Id, cloned: Option<Request>)
    requires Attended(s)
    ensures Attended(Start(c, s, id, cloned))
  {
  }

  lemma EvictAttends(s: State, after: State)
    requires Attended(s) && Evicted(s, after)
    requires forall id | id in s.terminal && id !in after.terminal :: id !in after.stored
    ensures Attended(after)
  {
    hide Spared;
  }

  /** A terminal error goes only with its record. */
  lemma {:induction false} EvictForgets(s: State, infos: seq<Id>, env: EvictEnv, max: int, remaining: int)
    ensures var after := EvictFrom(s, infos, env, max, remaining).0;
      forall id | id in s.terminal && id !in after.terminal :: id !in after.stored
    decreases |infos|
  {
    hide Spared;
    if infos != [] && remaining > max {
      var id := infos[0];
      EvictForgets(s, infos[1..], env, max, remaining);
      var removed := s.(stored := s.stored - {id}, terminal := s.terminal - {id});
      EvictForgets(removed, infos[1..], env, max, remaining - 1);
      EvictFromSpares(removed, infos[1..], env, max, remaining - 1);
    }
  }

  lemma EvictStaysAttended(c: Config, s: State, env: EvictEnv, max: int)
    requires Inv(c, s) && Attended(s)
    ensures Attended(Evict(s, env, max).0)
  {
    hide EvictFrom, Attended, Evicted, Inv;
    EvictKeeps(c, s, env, max);
    if env.infos.Some? {
      EvictForgets(s, env.infos.value, env, max, |env.infos.value|);
      EvictAttends(s, Evict(s, env, max).0);
    }
  }

  /** Saving as pending and starting, for an operation that has capacity and no terminal error. */
  lemma SaveAndStartAttends(c: Config, s: State, id: Id, env: HandlerEnv)
    requires Attended(s) && id !in s.terminal && HasCapacity(c, s, id)
    requires id in s.stored ==> !s.stored[id].Pending?
    ensures Attended(SaveAndStart(c, s, id, env)) <==> !SavedOnly(s, id, env)
  {
    hide HasCapacity, Attended;
    SaveTouches(s, id, env.save);
    var saved := Save(s, id, Pending, env.save);
    if env.save.Done? {
      StartTouches(c, saved, id, env.cloned);
      TouchesTwice(s, saved, Start(c, saved, id, env.cloned), id);
    }
    OnlyThere(s, SaveAndStart(c, s, id, env), id);
    SavedThere(c, s, id, env);
  }

  ghost predicate AttendedAt(s: State, id: Id) {
    id in s.stored && s.stored[id].Pending? && id !in s.terminal ==> id in s.active || id in s.queued
  }

  /** Nothing but the operation `id` changes for the worse. */
  ghost predicate Touches(s: State, after: State, id: Id) {
    && (forall x | x != id && x in after.stored :: x in s.stored && after.stored[x] == s.stored[x])
    && s.terminal <= after.terminal && s.active <= after.active && s.queued.Keys <= after.queued.Keys
  }

  lemma OnlyThere(s: State, after: State, id: Id)
    requires Attended(s) && Touches(s, after, id)
    ensures Attended(after) <==> AttendedAt(after, id)
  {
    forall x | x != id && x in after.stored && after.stored[x].Pending? && x !in after.terminal
      ensures x in after.active || x in after.queued
    {
      assert x in s.active || x in s.queued;
      assert x in s.queued ==> x in after.queued.Keys;
    }
  }

  lemma SaveTouches(s: State, id: Id, write: Write)
    ensures Touches(s, Save(s, id, Pending, write), id)
  {
  }

  lemma StartTouches(c: Config, s: State, id: Id, cloned: Option<Request>)
    ensures Touches(s, Start(c, s, id, cloned), id)
  {
    hide HasCapacity;
  }

  lemma TouchesTwice(s: State, mid: State, after: State, id: Id)
    requires Touches(s, mid, id) && Touches(mid, after, id)
    ensures Touches(s, after, id)
  {
  }

  lemma SavedThere(c: Config, s: State, id: Id, env: HandlerEnv)
    requires id !in s.terminal && HasCapacity(c, s, id) && (id in s.stored ==> !s.stored[id].Pending?)
    ensures AttendedAt(SaveAndStart(c, s, id, env), id) <==> !SavedOnly(s, id, env)
  {
  }

  lemma PostAttends(c: Config, s: State, id: Id, env: HandlerEnv)
    requires Inv(c, s) && Attended(s)
    ensures Attended(Post(c, s, id, env)) <==> !Abandons(c, s, PostStep(id, env))
  {
    hide Inv, Attended, Evict, SaveAndStart, Start, Evicted;
    if id in s.stored {
      StartAttends(c, s, id, env.cloned);
      if PostSaves(c, s, id, env) {
        SaveAndStartAttends(c, s, id, env);
      }
    } else {
      EvictStaysAttended(c, s, env.evict, c.maxStored - 1);
      EvictKeeps(c, s, env.evict, c.maxStored - 1);
      var evicted := Evict(s, env.evict, c.maxStored - 1).0;
      EvictedFields(s, evicted);
      if PostSaves(c, s, id, env) {
        SaveAndStartAttends(c, evicted, id, env);
      }
    }
  }

  lemma EvictedFields(s: State, after: State)
    requires Evicted(s, after)
    ensures after.active == s.active && after.queued == s.queued && after.closed == s.closed
    ensures after.stored.Keys <= s.stored.Keys && after.terminal <= s.terminal
  {
    hide Spared;
  }

  lemma GetAttends(c: Config, s: State, id: Id, env: HandlerEnv)
    requires Attended(s)
    ensures Attended(Get(c, s, id, env)) <==> !Abandons(c, s, GetStep(id, env))
  {
    hide Attended, SaveAndStart, Start;
    StartAttends(c, s, id, env.cloned);
    if GetSaves(c, s, id, env) {
      SaveAndStartAttends(c, s, id, env);
    }
  }

  lemma DoneAttends(c: Config, s: State, id: Id)
    requires Inv(c, s) && Attended(s) && id in s.active
    ensures Attended(Finished(c, s, id)) <==> !Abandons(c, s, DoneStep(id))
  {
    hide Inv, Drain, NoRepeats;
    SlotHeld(c, s, id);
    FinishedFields(c, s, id);
    var after := Finished(c, s, id);
    assert forall x :: (x in after.active || x in after.queued) <==> x in after.active + after.queued.Keys;
    assert forall x :: (x in s.active || x in s.queued) && x != id <==> x in (s.active - {id}) + s.queued.Keys;
  }

  /** Finishing a generation moves at most the head of the queue, and gives up only its own slot. */
  lemma FinishedFields(c: Config, s: State, id: Id)
    requires Inv(c, s) && id in s.active
    ensures var after := Finished(c, s, id);
      && after.stored == s.stored && after.terminal == s.terminal
      && after.active + after.queued.Keys == (s.active - {id}) + s.queued.Keys && id in s.stored && id !in s.queued
  {
    hide NoRepeats, Finished, Recorded, Inv, Launch, Send, Pop;
    var freed := Freed(s, id);
    FreedKeeps(c, s, id, freed);
    ActiveStored(c, s);
    FinishedShape(c, s, id);
    if !s.closed && s.queue != [] {
      HeadFields(c, freed);
      assert s.queue[0] in Elems(s.queue);
    }
  }

  /** A step leaves some pending operation unattended exactly when it abandons one. */
  lemma StepAttends(c: Config, s: State, step: Step)
    requires Inv(c, s) && Attended(s)
    ensures Attended(Apply(c, s, step)) <==> !Abandons(c, s, step)
  {
    hide Inv, Post, Get, Finished, Abandons, Attended;
    match step
    case PostStep(id, env) => PostAttends(c, s, id, env);
    case GetStep(id, env) => GetAttends(c, s, id, env);
    case FinishStep(id, status, write) => FinishAttends(c, s, id, status, write);
    case DoneStep(id) =>
      DoneNeedsActive(c, s, id);
      if id in s.active {
        DoneAttends(c, s, id);
      }
    case CloseStep => CloseAttends(c, s);
  }

  lemma DoneNeedsActive(c: Config, s: State, id: Id)
    ensures id !in s.active ==> !Abandons(c, s, DoneStep(id))
  {
  }

  lemma FinishAttends(c: Config, s: State, id: Id, status: Status, write: Write)
    requires Attended(s)
    ensures id in s.active && !status.Pending? ==> Attended(Finish(s, id, status, write))
    ensures !Abandons(c, s, FinishStep(id, status, write))
  {
  }

  lemma CloseAttends(c: Config, s: State)
    requires Attended(s)
    ensures Attended(s.(closed := true)) && !Abandons(c, s, CloseStep)
  {
  }

  /** Every pending operation is attended at the start of the run, between its steps and at its end. */
  ghost predicate AlwaysAttended(c: Config, s: State, steps: seq<Step>) {
    forall k | 0 <= k <= |steps| :: Attended(Run(c, s, steps[..k]))
  }

  /** No step of the run abandons an operation in the state it is taken in. */
  ghost predicate NeverAbandons(c: Config, s: State, steps: seq<Step>) {
    forall k | 0 <= k < |steps| :: !Abandons(c, Run(c, s, steps[..k]), steps[k])
  }

  /** A run keeps every pending operation attended throughout exactly when none of its steps
      abandons one. */
  lemma {:induction false} RunAttends(c: Config, s: State, steps: seq<Step>)
    requires Inv(c, s) && Attended(s)
    ensures AlwaysAttended(c, s, steps) <==> NeverAbandons(c, s, steps)
    ensures AlwaysAttended(c, s, steps) ==> Attended(Run(c, s, steps))
    decreases |steps|
  {
    hide Inv, Apply, Abandons, Attended, AlwaysAttended, NeverAbandons;
    if steps == [] {
      StartAlwaysAttended(c, s);
    } else {
      var front, last := steps[..|steps| - 1], steps[|steps| - 1];
      RunAttends(c, s, front);
      AlwaysAttendedLast(c, s, steps);
      NeverAbandonsLast(c, s, steps);
      RunKeeps(c, s, front);
      if AlwaysAttended(c, s, front) {
        StepAttends(c, Run(c, s, front), last);
      }
    }
  }

  lemma StartAlwaysAttended(c: Config, s: State)
    requires Attended(s)
    ensures AlwaysAttended(c, s, []) && NeverAbandons(c, s, [])
  {
    hide Attended;
    var none: seq<Step> := [];
    assert none[..0] == none;
  }

  lemma AlwaysAttendedLast(c: Config, s: State, steps: seq<Step>)
    requires steps != []
    ensures AlwaysAttended(c, s, steps) <==>
      AlwaysAttended(c, s, steps[..|steps| - 1]) && Attended(Run(c, s, steps))
  {
    hide Run, Attended;
    var front := steps[..|steps| - 1];
    assert steps[..|steps|] == steps;
    assert forall k | 0 <= k <= |front| :: front[..k] == steps[..k];
  }

  lemma NeverAbandonsLast(c: Config, s: State, steps: seq<Step>)
    requires steps != []
    ensures NeverAbandons(c, s, steps) <==>
      && NeverAbandons(c, s, steps[..|steps| - 1])
      && !Abandons(c, Run(c, s, steps[..|steps| - 1]), steps[|steps| - 1])
  {
    hide Run, Abandons;
    var front := steps[..|steps| - 1];
    assert forall k | 0 <= k < |front| :: front[..k] == steps[..k] && front[k] == steps[k];
  }

  /** In particular, a POST that comes between the end of a generation and its release leaves the
      operation behind: it is written pending while still active, and nothing runs once it is
      released. */
  lemma PendingLeftBehind(c: Config, s: State, id: Id, env: HandlerEnv)
    requires Inv(c, s) && Attended(s) && id in s.active && id in s.stored && !s.stored[id].Pending?
    requires PostSaves(c, s, id, env) && env.save.Done?
    ensures !Attended(Run(c, s, [PostStep(id, env), DoneStep(id)]))
  {
    hide Inv, Attended, PostSaves, Abandons, Finished;
    var posted := Post(c, s, id, env);
    PostKeeps(c, s, id, env);
    PostedWhileActive(c, s, id, env);
    PostAttends(c, s, id, env);
    DoneAttends(c, posted, id);
    var steps := [PostStep(id, env), DoneStep(id)];
    assert steps[..1] == [PostStep(id, env)] && [PostStep(id, env)][..0] == [];
    assert Run(c, s, steps[..1]) == posted by {
      assert Run(c, s, []) == s;
    }
  }

  lemma PostedWhileActive(c: Config, s: State, id: Id, env: HandlerEnv)
    requires id in s.active && id in s.stored && PostSaves(c, s, id, env) && env.save.Done?
    ensures !Abandons(c, s, PostStep(id, env))
    ensures id in Post(c, s, id, env).active && Abandons(c, Post(c, s, id, env), DoneStep(id))
  {
    hide Evict;
  }

  /** A later GET takes such an operation on. */
  lemma GetTakesOn(c: Config, s: State, id: Id, env: HandlerEnv)
    requires !s.closed && id in s.stored && s.stored[id].Pending? && id !in s.terminal && HasCapacity(c, s, id)
    requires env.readable && env.requestStored && env.cloned.Some?
    ensures var after := Get(c, s, id, env); id in after.active || id in after.queued
  {
    StartTakes(c, s, id, env.cloned.value);
  }

  // ----- After a restart -----

  /** Every pending operation listed for a resumption is stored as pending, once. */
  ghost predicate ListsPending(stored: map<Id, Status>, pending: seq<(Id, Option<Request>)>) {
    && (forall k | 0 <= k < |pending| :: pending[k].0 in stored && stored[pending[k].0].Pending?)
    && (forall i, j | 0 <= i < j < |pending| :: pending[i].0 != pending[j].0)
  }

  lemma FreshInv(c: Config, stored: map<Id, Status>)
    ensures Inv(c, Fresh(stored))
  {
  }

  /** Taken on: running, waiting, or given up because its request cannot be cloned. */
  ghost predicate TakenOn(s: State, id: Id) { id in s.active || id in s.queued || id in s.terminal }

  /** A resumption starts from the invariant, launches or queues every listed operation, and
      leaves the store alone. */
  lemma {:induction false} ResumeTakesAll(c: Config, stored: map<Id, Status>, pending: seq<(Id, Option<Request>)>)
    requires ListsPending(stored, pending) && |pending| <= c.maxPending
    ensures var s := Resume(c, Fresh(stored), pending);
      && Inv(c, s) && !s.closed && s.stored == stored && |s.active| + |s.queued| <= |pending|
      && forall k | 0 <= k < |pending| :: TakenOn(s, pending[k].0)
    decreases |pending|
  {
    hide Inv, Start, TakenOn;
    if pending == [] {
      FreshInv(c, stored);
    } else {
      var front, last := pending[..|pending| - 1], pending[|pending| - 1];
      ResumeTakesAll(c, stored, front);
      var s := Resume(c, Fresh(stored), front);
      StartKeeps(c, s, last.0, last.1);
      StartOne(c, s, last.0, last.1);
      forall k | 0 <= k < |pending| ensures TakenOn(Start(c, s, last.0, last.1), pending[k].0) {
        if k < |front| {
          assert front[k] == pending[k];
        }
      }
    }
  }

  /** When the listing holds every pending operation, the service starts with all attended. */
  lemma ResumeAttends(c: Config, stored: map<Id, Status>, pending: seq<(Id, Option<Request>)>)
    requires ListsPending(stored, pending) && |pending| <= c.maxPending
    requires forall id | id in stored && stored[id].Pending? :: exists k | 0 <= k < |pending| :: pending[k].0 == id
    ensures Attended(Resume(c, Fresh(stored), pending))
  {
    hide Inv, Resume, Fresh;
    ResumeTakesAll(c, stored, pending);
    var s := Resume(c, Fresh(stored), pending);
    forall id | id in s.stored && s.stored[id].Pending? && id !in s.terminal ensures id in s.active || id in s.queued {
      var k :| 0 <= k < |pending| && pending[k].0 == id;
      assert TakenOn(s, pending[k].0);
    }
  }

  lemma StartOne(c: Config, s: State, id: Id, cloned: Option<Request>)
    requires !s.closed && |s.active| + |s.queued| < c.maxPending
    ensures var after := Start(c, s, id, cloned);
      && after.stored == s.stored && after.closed == s.closed
      && |after.active| + |after.queued| <= |s.active| + |s.queued| + 1
      && TakenOn(after, id) && forall x | TakenOn(s, x) :: TakenOn(after, x)
  {
    var after := Start(c, s, id, cloned);
    if after.active != s.active {
      AddOne(s.active, id);
    } else if after.queued != s.queued {
      AddKey(s.queued, id, cloned.value);
    }
  }

  // ----- Shutdown and the size of the store -----

  lemma StartLaunches(c: Config, s: State, id: Id, cloned: Option<Request>)
    ensures var after := Start(c, s, id, cloned);
      && after.closed == s.closed && after.stored == s.stored && (s.closed ==> after == s)
  {
    hide HasCapacity;
  }

  lemma {:induction false} EvictQuiet(s: State, infos: seq<Id>, env: EvictEnv, max: int, remaining: int)
    ensures EvictFrom(s, infos, env, max, remaining).0.closed == s.closed
    ensures EvictFrom(s, infos, env, max, remaining).0.launched == s.launched
  {
    hide Spared, EvictFrom;
    EvictFromSpares(s, infos, env, max, remaining);
  }

  /** A closed service stays closed and starts no generation. */
  lemma ClosedStep(c: Config, s: State, step: Step)
    requires s.closed
    ensures Apply(c, s, step).closed && Apply(c, s, step).launched == s.launched
  {
    hide EvictFrom, Spared;
    match step
    case PostStep(id, env) =>
      if env.evict.infos.Some? {
        EvictQuiet(s, env.evict.infos.value, env.evict, c.maxStored - 1, |env.evict.infos.value|);
      }
    case _ =>
  }

  lemma {:induction false} ClosedRun(c: Config, s: State, steps: seq<Step>)
    requires s.closed
    ensures Run(c, s, steps).closed && Run(c, s, steps).launched == s.launched
    decreases |steps|
  {
    hide Apply;
    if steps != [] {
      ClosedRun(c, s, steps[..|steps| - 1]);
      ClosedStep(c, Run(c, s, steps[..|steps| - 1]), steps[|steps| - 1]);
    }
  }

  lemma SubsetKeys<K, V>(a: map<K, V>, b: map<K, V>)
    requires a.Keys <= b.Keys
    ensures |a| <= |b|
  {
    assert |b.Keys - a.Keys| == |b.Keys| - |a.Keys|;
  }

  lemma SaveGrows(s: State, id: Id, status: Status, write: Write)
    ensures |Save(s, id, status, write).stored| <= if id in s.stored then |s.stored| else |s.stored| + 1
  {
    AddKey(s.stored, id, status);
  }

  lemma SaveAndStartGrows(c: Config, s: State, id: Id, env: HandlerEnv)
    ensures |SaveAndStart(c, s, id, env).stored| <= if id in s.stored then |s.stored| else |s.stored| + 1
  {
    hide Start, Save;
    SaveGrows(s, id, Pending, env.save);
    StartLaunches(c, Save(s, id, Pending, env.save), id, env.cloned);
  }

  lemma PostGrows(c: Config, s: State, id: Id, env: HandlerEnv)
    requires Inv(c, s)
    ensures |Post(c, s, id, env).stored| <= Max(|s.stored|, c.maxStored)
  {
    hide Inv, Evict, SaveAndStart, Start, Evicted;
    EvictKeeps(c, s, env.evict, c.maxStored - 1);
    var evicted := Evict(s, env.evict, c.maxStored - 1).0;
    EvictedShrinks(s, evicted);
    SaveAndStartGrows(c, evicted, id, env);
    SaveAndStartGrows(c, s, id, env);
    StartLaunches(c, s, id, env.cloned);
  }

  lemma EvictedShrinks(s: State, after: State)
    requires Evicted(s, after)
    ensures |after.stored| <= |s.stored|
  {
    SubsetKeys(after.stored, s.stored);
  }

  lemma {:induction false} DrainStored(c: Config, s: State)
    ensures Drain(c, s).stored == s.stored
    decreases |s.queue|
  {
    if s.queue != [] {
      DrainStored(c, Pop(s));
    }
  }

  lemma StepGrows(c: Config, s: State, step: Step)
    requires Inv(c, s)
    ensures |Apply(c, s, step).stored| <= Max(|s.stored|, c.maxStored)
  {
    hide Inv, Post, SaveAndStart, Start, Save, Drain;
    ActiveStored(c, s);
    match step
    case PostStep(id, env) => PostGrows(c, s, id, env);
    case GetStep(id, env) =>
      SaveAndStartGrows(c, s, id, env);
      StartLaunches(c, s, id, env.cloned);
    case FinishStep(id, status, write) => SaveGrows(s, id, status, write);
    case DoneStep(id) => DrainStored(c, Receive(s.(active := s.active - {id})));
    case CloseStep =>
  }

  lemma ActiveStored(c: Config, s: State)
    requires Inv(c, s)
    ensures s.active <= s.stored.Keys
  {
  }

  /** The store never holds more operations than its limit, or than it held at the start. */
  lemma {:induction false} RunGrows(c: Config, s: State, steps: seq<Step>)
    requires Inv(c, s)
    ensures |Run(c, s, steps).stored| <= Max(|s.stored|, c.maxStored)
    decreases |steps|
  {
    hide Inv, Apply;
    if steps != [] {
      var front := steps[..|steps| - 1];
      RunKeeps(c, s, front);
      RunGrows(c, s, front);
      StepGrows(c, Run(c, s, front), steps[|steps| - 1]);
    }
  }
}
