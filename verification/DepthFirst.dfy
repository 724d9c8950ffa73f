/** The bookkeeping of a three-state depth-first walk: marks, stack and finishing order. A mark
    is 1 while a node is on the stack and 2 once its subtree is finished. */
module DepthFirst {
  import opened Digraph

  lemma TopoSnoc<T(!new)>(e: Edges<T>, order: seq<T>, id: T)
    requires TopoOrder(e, order) && id !in order && e(id) <= Elems(order)
    ensures TopoOrder(e, order + [id])
  {
    var longer := order + [id];
    forall i | 0 <= i < |longer| ensures e(longer[i]) <= Elems(longer[..i]) {
      if i < |order| {
        assert longer[..i] == order[..i];
      } else {
        assert longer[..i] == order;
      }
    }
  }

  function MarkOf<T>(state: map<T, nat>, id: T): nat {
    if id in state then state[id] else 0
  }

  /** The marks agree with the stack and with the order. */
  ghost predicate Marks<T(!new)>(state: map<T, nat>, stack: seq<T>, order: seq<T>) {
    && (forall x :: MarkOf(state, x) == 1 <==> x in stack)
    && (forall x :: MarkOf(state, x) == 2 <==> x in order)
    && (forall x | x in state :: state[x] == 1 || state[x] == 2)
    && NoRepeats(stack)
  }

  lemma MarkMeaning<T(!new)>(state: map<T, nat>, stack: seq<T>, order: seq<T>, id: T)
    requires Marks(state, stack, order)
    ensures MarkOf(state, id) == 1 <==> id in stack
    ensures MarkOf(state, id) == 2 <==> id in order
    ensures id in state <==> MarkOf(state, id) == 1 || MarkOf(state, id) == 2
  {
  }

  /** The stack is a path, and the order so far puts dependencies first. */
  ghost predicate Shaped<T(!new)>(e: Edges<T>, stack: seq<T>, order: seq<T>) {
    && (stack != [] ==> IsPath(e, stack))
    && TopoOrder(e, order)
  }

  lemma PushMarks<T(!new)>(state: map<T, nat>, stack: seq<T>, order: seq<T>, id: T)
    requires Marks(state, stack, order) && id !in state
    ensures Marks(state[id := 1], stack + [id], order)
  {
    assert MarkOf(state, id) == 0;
    assert id !in stack && id !in order;
  }

  lemma PopMarks<T(!new)>(state: map<T, nat>, stack: seq<T>, order: seq<T>, id: T)
    requires Marks(state, stack + [id], order)
    ensures Marks(state[id := 2], stack, order + [id])
    ensures id !in order
  {
    var taller := stack + [id];
    assert forall x :: x in taller <==> x in stack || x == id;
    assert MarkOf(state, id) == 1;
    forall i | 0 <= i < |stack| ensures stack[i] != id {
      assert taller[i] != taller[|stack|];
    }
    forall i, j | 0 <= i < j < |stack| ensures stack[i] != stack[j] {
      assert taller[i] != taller[j];
    }
  }

  lemma PushShaped<T(!new)>(e: Edges<T>, stack: seq<T>, order: seq<T>, id: T)
    requires Shaped(e, stack, order)
    requires stack != [] ==> id in e(stack[|stack| - 1])
    ensures Shaped(e, stack + [id], order)
  {
    if stack != [] {
      PathSnoc(e, stack, id);
    }
  }

  lemma PopShaped<T(!new)>(e: Edges<T>, stack: seq<T>, order: seq<T>, id: T)
    requires Shaped(e, stack + [id], order) && id !in order
    requires e(id) <= Elems(order)
    ensures Shaped(e, stack, order + [id])
  {
    if stack != [] {
      SubPath(e, stack + [id], 0, |stack|);
      assert (stack + [id])[0..|stack|] == stack;
    }
    TopoSnoc(e, order, id);
  }

  lemma MarkedStayMarked<T(!new)>(stack: seq<T>, state: map<T, nat>, order: seq<T>,
                         state': map<T, nat>, order': seq<T>)
    requires Marks(state, stack, order) && Marks(state', stack, order') && order <= order'
    ensures state.Keys <= state'.Keys
  {
    forall x | x in state ensures x in state' {
      assert MarkOf(state, x) == 1 || MarkOf(state, x) == 2;
      assert MarkOf(state', x) != 0;
    }
  }

  /** The cycle reported when a node on the stack is met again. */
  lemma StackCycle<T(!new)>(e: Edges<T>, stack: seq<T>, index: nat, id: T)
    requires IsPath(e, stack) && index < |stack| && stack[index] == id && id in e(stack[|stack| - 1])
    ensures IsCycle(e, stack[index..] + [id]) && Reaches(e, id, id)
  {
    SubPath(e, stack, index, |stack|);
    PathSnoc(e, stack[index..|stack|], id);
    assert stack[index..|stack|] == stack[index..];
    ReachesSelf(e, id);
  }
}
