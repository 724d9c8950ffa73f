/** The line of operations over whole runs of the catalog service, and a run that leaves an
    operation behind: internal/catalogservice/service.go. */
module ServiceRuns {
  import opened Wrappers
  import opened Scheduler

  // ----- First come, first served -----

  /** The operations in line: those launched so far, then those that wait. */
  function Line(s: State): seq<Id> { s.launched + s.queue }

  predicate Admitted(s: State, id: Id) { id in s.active || id in s.queued }

  /** The operation a step admits, if any. */
  function Arrival(c: Config, s: State, step: Step): seq<Id> {
    if (step.PostStep? || step.GetStep?) && !Admitted(s, step.id) && Admitted(Apply(c, s, step), step.id)
    then [step.id] else []
  }

  /** The operations a run admits, in the order in which it does. */
  function Arrivals(c: Config, s: State, steps: seq<Step>): seq<Id>
    decreases |steps|
  {
    if steps == [] then []
    else
      var front := steps[..|steps| - 1];
      Arrivals(c, s, front) + Arrival(c, Run(c, s, front), steps[|steps| - 1])
  }

  /** `after` has `id` at the end of the line if it is newly admitted, and the old line otherwise. */
  ghost predicate Joins(s: State, after: State, id: Id) {
    Line(after) == Line(s) + if !Admitted(s, id) && Admitted(after, id) then [id] else []
  }

  ghost predicate SameLine(s: State, after: State) {
    after.active == s.active && after.queued == s.queued && after.launched == s.launched && after.queue == s.queue
  }

  /** A start goes to the end of the line: a slot is free only when nobody waits. */
  lemma StartJoins(c: Config, s: State, id: Id, cloned: Option<Request>)
    requires Inv(c, s)
    ensures Joins(s, Start(c, s, id, cloned), id)
  {
    hide QueueListsQueued, Recorded;
    var after := Start(c, s, id, cloned);
    if after.launched != s.launched {
      assert s.queue == [];
    }
  }

  lemma SaveAndStartJoins(c: Config, s: State, id: Id, env: HandlerEnv)
    requires Inv(c, s)
    ensures Joins(s, SaveAndStart(c, s, id, env), id)
  {
    hide Inv, Start;
    var saved := Save(s, id, Pending, env.save);
    SaveKeeps(c, s, id, env.save);
    if env.save.Done? {
      StartJoins(c, saved, id, env.cloned);
    }
  }

  lemma EvictSameLine(c: Config, s: State, env: EvictEnv, max: int)
    requires Inv(c, s)
    ensures Inv(c, Evict(s, env, max).0) && SameLine(s, Evict(s, env, max).0)
  {
    hide Inv, Evict;
    EvictKeeps(c, s, env, max);
  }

  lemma SameJoins(s: State, between: State, after: State, id: Id)
    requires SameLine(s, between) && Joins(between, after, id)
    ensures Joins(s, after, id)
  {
  }

  lemma StaysJoins(s: State, after: State, id: Id)
    requires SameLine(s, after)
    ensures Joins(s, after, id)
  {
    assert Line(s) + [] == Line(s);
  }

  lemma PostJoins(c: Config, s: State, id: Id, env: HandlerEnv)
    requires Inv(c, s)
    ensures Joins(s, Post(c, s, id, env), id)
  {
    hide Inv, Evict, SaveAndStart, Start, Joins;
    var evicted := Evict(s, env.evict, c.maxStored - 1).0;
    EvictSameLine(c, s, env.evict, c.maxStored - 1);
    StaysJoins(s, s, id);
    StaysJoins(s, evicted, id);
    SaveAndStartJoins(c, evicted, id, env);
    SameJoins(s, evicted, SaveAndStart(c, evicted, id, env), id);
    SaveAndStartJoins(c, s, id, env);
    StartJoins(c, s, id, env.cloned);
  }

  lemma GetJoins(c: Config, s: State, id: Id, env: HandlerEnv)
    requires Inv(c, s)
    ensures Joins(s, Get(c, s, id, env), id)
  {
    hide Inv, SaveAndStart, Start, Joins;
    StaysJoins(s, s, id);
    SaveAndStartJoins(c, s, id, env);
    StartJoins(c, s, id, env.cloned);
  }

  /** A finished generation moves the head of the queue to the launched ones. */
  lemma DoneSameLine(c: Config, s: State, id: Id)
    requires Inv(c, s) && id in s.active
    ensures Line(Finished(c, s, id)) == Line(s)
  {
    hide Inv, Finished;
    if s.closed || s.queue == [] {
      FinishedShape(c, s, id);
    } else {
      FinishedKeeps(c, s, id);
      HeadMoves(s.launched, s.queue);
    }
  }

  lemma HeadMoves<T>(before: seq<T>, after: seq<T>)
    requires after != []
    ensures (before + [after[0]]) + after[1..] == before + after
  {
  }

  lemma StepInLine(c: Config, s: State, step: Step)
    requires Inv(c, s)
    ensures Line(Apply(c, s, step)) == Line(s) + Arrival(c, s, step)
  {
    hide Inv, Post, Get, Finished;
    match step
    case PostStep(id, env) => PostJoins(c, s, id, env);
    case GetStep(id, env) => GetJoins(c, s, id, env);
    case FinishStep(id, status, write) =>
    case DoneStep(id) =>
      if id in s.active {
        DoneSameLine(c, s, id);
      }
    case CloseStep =>
  }

  /** In any run, generations are launched in the order in which the operations were admitted,
      and what has not been launched waits in that order: nothing is lost and nothing overtakes. */
  lemma {:induction false} ServedInOrder(c: Config, s: State, steps: seq<Step>)
    requires Inv(c, s)
    ensures Line(Run(c, s, steps)) == Line(s) + Arrivals(c, s, steps)
    decreases |steps|
  {
    hide Inv, Apply, Line, Arrival;
    if steps != [] {
      var front := steps[..|steps| - 1];
      ServedInOrder(c, s, front);
      RunKeeps(c, s, front);
      StepInLine(c, Run(c, s, front), steps[|steps| - 1]);
    }
  }

  /** So an operation that waits keeps its place in line, whatever happens later. */
  lemma KeepsItsPlace(c: Config, s: State, steps: seq<Step>, more: seq<Step>, p: nat)
    requires Inv(c, s) && p < |Run(c, s, steps).queue|
    ensures var now, later := Run(c, s, steps), Run(c, s, steps + more);
      && |now.launched| + p < |Line(later)|
      && Line(later)[|now.launched| + p] == now.queue[p]
  {
    hide Inv, Run;
    RunKeeps(c, s, steps);
    RunOn(c, s, steps, more);
    ServedInOrder(c, Run(c, s, steps), more);
  }

  lemma {:induction false} RunOn(c: Config, s: State, steps: seq<Step>, more: seq<Step>)
    ensures Run(c, s, steps + more) == Run(c, Run(c, s, steps), more)
    decreases |more|
  {
    hide Apply;
    if more == [] {
      assert steps + more == steps;
    } else {
      var all, front := steps + more, more[..|more| - 1];
      RunOn(c, s, steps, front);
      assert all[..|all| - 1] == steps + front && all[|all| - 1] == more[|more| - 1];
    }
  }

  // ----- A run that leaves an operation behind -----

  /** What a POST meets that can read and write, with a request that can be cloned. */
  function Smooth(request: Request): HandlerEnv {
    HandlerEnv(true, true, false, EvictEnv(Some([]), _ => true, _ => Done), true, Done, Some(request))
  }

  lemma PostOnEmpty(c: Config, id: Id, request: Request)
    requires c.capacity > 0 && c.maxPending > 0 && c.maxStored > 0
    ensures Post(c, Fresh(map[]), id, Smooth(request)) ==
            State({id}, map[], [], 1, {}, false, map[id := Pending], [id], false)
  {
  }

  lemma TwoSteps(c: Config, s: State, a: Step, b: Step)
    ensures Run(c, s, [a, b]) == Apply(c, Apply(c, s, a), b)
  {
    hide Apply;
    assert [a, b][..1] == [a] && [a][..0] == [];
    assert Run(c, s, [a]) == Apply(c, Run(c, s, []), a);
  }

  /** From an empty store: an operation is posted, its generation fails, it is posted again
      before the generation is released, and then nothing runs it. */
  lemma LeftBehindFromEmpty(c: Config, id: Id, request: Request)
    requires c.capacity > 0 && c.maxPending > 0 && c.maxStored > 0
    ensures var post := PostStep(id, Smooth(request));
      && Attended(Run(c, Fresh(map[]), [post, FinishStep(id, Failed, Done)]))
      && !Attended(Run(c, Fresh(map[]), [post, FinishStep(id, Failed, Done), post, DoneStep(id)]))
  {
    hide Run, Post, Inv;
    var env := Smooth(request);
    var post, fail := PostStep(id, env), FinishStep(id, Failed, Done);
    var start := Fresh(map[]);
    PostOnEmpty(c, id, request);
    TwoSteps(c, start, post, fail);
    var failed := Run(c, start, [post, fail]);
    assert failed == State({id}, map[], [], 1, {}, false, map[id := Failed], [id], false);
    FreshInv(c, map[]);
    RunKeeps(c, start, [post, fail]);
    PendingLeftBehind(c, failed, id, env);
    RunOn(c, start, [post, fail], [post, DoneStep(id)]);
    assert [post, fail] + [post, DoneStep(id)] == [post, fail, post, DoneStep(id)];
  }
}
