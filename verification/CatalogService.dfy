/** The catalog service's fields and the sections of internal/catalogservice/service.go that
    hold its mutex. Each method makes exactly the step of the state machine it stands for, and
    so keeps the machine's invariant. */
module CatalogService {
  import opened Wrappers
  import opened Scheduler

  class Service {
    const config: Config
    var active: set<Id>
    var queued: map<Id, Request>
    var queue: seq<Id>
    var slots: nat
    var terminal: set<Id>
    var closed: bool
    var stored: map<Id, Status>
    ghost var launched: seq<Id>
    var stuck: bool

    ghost function Now(): State
      reads this
    {
      State(active, queued, queue, slots, terminal, closed, stored, launched, stuck)
    }

    ghost predicate Valid()
      reads this
    {
      Inv(config, Now())
    }

    constructor (config: Config, stored: map<Id, Status>)
      ensures Valid() && this.config == config && Now() == Fresh(stored)
    {
      this.config := config;
      active, queued, queue, slots, terminal, closed := {}, map[], [], 0, {}, false;
      this.stored, launched, stuck := stored, [], false;
      new;
      FreshInv(config, stored);
    }

    method Launch(id: Id)
      modifies this`active, this`launched
      ensures Now() == Scheduler.Launch(old(Now()), id)
    {
      active := active + {id};
      launched := launched + [id];
    }

    method StartLocked(id: Id, cloned: Option<Request>)
      modifies this
      ensures Now() == Start(config, old(Now()), id, cloned)
      ensures old(Valid()) && id in old(stored) && old(stored)[id].Pending? ==> Valid()
    {
      hide Inv;
      if old(Valid()) && id in old(stored) && old(stored)[id].Pending? {
        StartKeeps(config, Now(), id, cloned);
      }
      if closed || id in terminal || id in active || id in queued || !CapacityAvailable(id) {
        return;
      }
      if cloned.None? {
        terminal := terminal + {id};
        return;
      }
      if slots < config.capacity {
        slots := slots + 1;
        Launch(id);
      } else {
        queued := queued[id := cloned.value];
        queue := queue + [id];
      }
    }

    predicate CapacityAvailable(id: Id)
      reads this
      ensures CapacityAvailable(id) == HasCapacity(config, Now(), id)
    {
      id in active || id in queued || |active| + |queued| < config.maxPending
    }

    method GenerationDone(id: Id)
      requires Valid() && id in active
      modifies this
      ensures Now() == Finished(config, old(Now()), id) && Valid()
    {
      hide Inv;
      FinishedKeeps(config, Now(), id);
      active := active - {id};
      ReceiveSlot();
      if !closed {
        ghost var freed := Now();
        while |queue| > 0
          invariant Drain(config, Now()) == Drain(config, freed)
          decreases |queue|
        {
          var next := queue[0];
          var listed, failed := next in queued, next in terminal;
          queue := queue[1..];
          queued := queued - {next};
          if !listed || failed {
            continue;
          }
          SendSlot();
          Launch(next);
          assert Now() == Drain(config, freed);
          return;
        }
        assert Now() == Drain(config, freed);
      }
    }

    method SendSlot()
      modifies this`slots, this`stuck
      ensures Now() == Send(config, old(Now()))
    {
      if slots < config.capacity {
        slots := slots + 1;
      } else {
        stuck := true;
      }
    }

    method ReceiveSlot()
      modifies this`slots, this`stuck
      ensures Now() == Receive(old(Now()))
    {
      if slots > 0 {
        slots := slots - 1;
      } else {
        stuck := true;
      }
    }

    method SaveOperation(id: Id, status: Status, write: Write) returns (ok: bool)
      modifies this`stored
      ensures Now() == Save(old(Now()), id, status, write) && ok == write.Done?
    {
      if !write.NotDone? {
        stored := stored[id := status];
      }
      return write.Done?;
    }

    method FinishOperation(id: Id, status: Status, write: Write)
      requires Valid() && id in active
      modifies this
      ensures Now() == Finish(old(Now()), id, status, write) && Valid()
    {
      hide Inv;
      FinishKeeps(config, Now(), id, status, write);
      var ok := SaveOperation(id, status, write);
      if !ok {
        terminal := terminal + {id};
      } else {
        terminal := terminal - {id};
      }
    }

    method EvictOperations(env: EvictEnv, max: int) returns (ok: bool)
      requires Valid()
      modifies this`stored, this`terminal
      ensures (Now(), ok) == Evict(old(Now()), env, max) && Valid()
    {
      hide Inv, Spared;
      EvictKeeps(config, Now(), env, max);
      if env.infos.None? {
        return false;
      }
      var infos := env.infos.value;
      var remaining := |infos|;
      var i := 0;
      assert infos[0..] == infos;
      while i < |infos| && remaining > max
        invariant 0 <= i <= |infos|
        invariant EvictFrom(Now(), infos[i..], env, max, remaining) == Evict(old(Now()), env, max)
      {
        var id := infos[i];
        assert infos[i..][0] == id && infos[i..][1..] == infos[i + 1..];
        i := i + 1;
        if IsSpared(id) || id !in stored || !env.readable(id) {
          continue;
        }
        match env.removal(id) {
          case NotDone =>
            return false;
          case DoneButFailed =>
            stored := stored - {id};
            return false;
          case Done =>
            stored := stored - {id};
            terminal := terminal - {id};
            remaining := remaining - 1;
        }
      }
      return true;
    }

    predicate IsSpared(id: Id)
      reads this
      ensures IsSpared(id) == Spared(Now(), id)
    {
      id in active || (id in stored && stored[id].Pending? && id !in terminal)
    }

    method SavePendingAndStart(id: Id, env: HandlerEnv)
      requires Valid()
      modifies this
      ensures Now() == SaveAndStart(config, old(Now()), id, env) && Valid()
    {
      hide Inv, Start;
      SaveAndStartKeeps(config, Now(), id, env);
      var ok := SaveOperation(id, Pending, env.save);
      if ok {
        StartLocked(id, env.cloned);
      }
    }

    method HandlePost(id: Id, env: HandlerEnv)
      requires Valid()
      modifies this
      ensures Now() == Post(config, old(Now()), id, env) && Valid()
    {
      hide Inv, Start, SaveAndStart, Evict, HasCapacity;
      PostKeeps(config, Now(), id, env);
      if id in terminal || !env.readable {
        return;
      }
      if id !in stored {
        if !CapacityAvailable(id) {
          return;
        }
        var ok := EvictOperations(env.evict, config.maxStored - 1);
        if !ok || !env.listed || |stored| >= config.maxStored || !env.requestStored {
          return;
        }
        SavePendingAndStart(id, env);
        return;
      }
      if !env.requestStored || (stored[id].Completed? && env.upToDate) || !CapacityAvailable(id) {
        return;
      }
      if !stored[id].Pending? {
        SavePendingAndStart(id, env);
      } else {
        StartLocked(id, env.cloned);
      }
    }

    method HandleGet(id: Id, env: HandlerEnv)
      requires Valid()
      modifies this
      ensures Now() == Get(config, old(Now()), id, env) && Valid()
    {
      hide Inv, Start, SaveAndStart, HasCapacity;
      GetKeeps(config, Now(), id, env);
      if id in terminal || id !in stored || !env.readable || !env.requestStored {
        return;
      }
      if stored[id].Completed? && !env.upToDate {
        if CapacityAvailable(id) {
          SavePendingAndStart(id, env);
        }
      } else if stored[id].Pending? {
        if CapacityAvailable(id) {
          StartLocked(id, env.cloned);
        }
      }
    }

    method Close()
      requires Valid()
      modifies this`closed
      ensures Now() == old(Now()).(closed := true) && Valid()
    {
      hide Inv;
      CloseKeeps(config, Now());
      closed := true;
    }

    /** Starting on a store left by an earlier run: too many pending operations refuse the
        start; otherwise every one of them is taken on. */
    method ResumePending(pending: seq<(Id, Option<Request>)>) returns (ok: bool)
      requires Now() == Fresh(stored) && ListsPending(stored, pending)
      modifies this
      ensures ok <==> |pending| <= config.maxPending
      ensures ok ==> Valid() && Now() == Resume(config, old(Now()), pending)
      ensures ok ==> stored == old(stored) && forall k | 0 <= k < |pending| :: TakenOn(Now(), pending[k].0)
    {
      hide Inv, Start, TakenOn, ListsPending;
      if |pending| > config.maxPending {
        return false;
      }
      ResumeTakesAll(config, stored, pending);
      var k := 0;
      while k < |pending|
        invariant 0 <= k <= |pending|
        invariant Now() == Resume(config, old(Now()), pending[..k])
      {
        assert pending[..k + 1][..k] == pending[..k];
        StartLocked(pending[k].0, pending[k].1);
        k := k + 1;
      }
      assert pending[..k] == pending;
      return true;
    }
  }
}
