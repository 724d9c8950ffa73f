/** The three-state depth-first install order of internal/catalogresolver/resolver.go,
    function topo. */
module InstallOrder {
  import opened Identity
  import opened Catalog
  import opened Wrappers
  import opened DepthFirst
  import opened Digraph

  type DependencyGraph = map<FormulaId, seq<Requirement>>

  ghost function TargetsOf(requirements: seq<Requirement>): set<FormulaId> {
    set k | 0 <= k < |requirements| :: requirements[k].id
  }

  ghost function EdgesOf(graph: DependencyGraph): Edges<FormulaId> {
    id => if id in graph then TargetsOf(graph[id]) else {}
  }

  ghost function AllTargets(graph: DependencyGraph): set<FormulaId> {
    set id, k | id in graph && 0 <= k < |graph[id]| :: graph[id][k].id
  }

  /** slices.Index */
  function IndexOf(s: seq<FormulaId>, x: FormulaId): (index: int)
    ensures -1 <= index < |s|
    ensures index >= 0 ==> s[index] == x
    ensures index < 0 ==> x !in s
  {
    if s == [] then -1
    else if s[0] == x then 0
    else
      var rest := IndexOf(s[1..], x);
      if rest < 0 then -1 else rest + 1
  }

  /** The variables shared by the recursive visit closure. A mark is 1 while the node is on
      the stack and 2 once its subtree is in the order. */
  class Visitor {
    const graph: DependencyGraph
    ghost const universe: set<FormulaId>
    var state: map<FormulaId, nat>
    var order: seq<FormulaId>
    var stack: seq<FormulaId>

    constructor (graph: DependencyGraph, roots: seq<FormulaId>)
      ensures Valid() && this.graph == graph && stack == [] && order == []
      ensures universe == graph.Keys + AllTargets(graph) + Elems(roots)
    {
      this.graph := graph;
      this.universe := graph.Keys + AllTargets(graph) + Elems(roots);
      this.state := map[];
      this.order := [];
      this.stack := [];
    }

    ghost predicate Valid()
      reads this
    {
      && AllTargets(graph) <= universe
      && state.Keys <= universe
      && Marks(state, stack, order)
      && Shaped(EdgesOf(graph), stack, order)
    }

    method Visit(id: FormulaId) returns (cycle: Option<seq<FormulaId>>)
      requires Valid() && id in universe
      requires stack != [] ==> id in EdgesOf(graph)(stack[|stack| - 1])
      modifies this`state, this`order, this`stack
      ensures cycle.None? ==>
        Valid() && stack == old(stack) && Grew(graph, id, old(order), order) && id in order
      ensures cycle.Some? ==> CycleFrom(graph, id, cycle.value)
      decreases universe - state.Keys, 1
    {
      hide Grew, EdgesOf, AllTargets, Marks, Shaped, CycleFrom;
      MarkMeaning(state, stack, order, id);
      if MarkOf(state, id) == 1 {
        var index := IndexOf(stack, id);
        if index < 0 {
          index := 0;
        }
        ClosesCycle(graph, stack, order, index, id);
        return Some(stack[index..] + [id]);
      } else if MarkOf(state, id) == 2 {
        GrewNothing(graph, id, order);
        return None;
      }
      cycle := VisitNew(id);
    }

    /** A node met for the first time. */
    method VisitNew(id: FormulaId) returns (cycle: Option<seq<FormulaId>>)
      requires Valid() && id in universe && id !in state
      requires stack != [] ==> id in EdgesOf(graph)(stack[|stack| - 1])
      modifies this`state, this`order, this`stack
      ensures cycle.None? ==>
        Valid() && stack == old(stack) && Grew(graph, id, old(order), order) && id in order
      ensures cycle.Some? ==> CycleFrom(graph, id, cycle.value)
      decreases universe - state.Keys, 0
    {
      hide Grew, EdgesOf, AllTargets, Marks, Shaped, CycleFrom, MarkOf;
      PushMarks(state, stack, order, id);
      PushShaped(EdgesOf(graph), stack, order, id);
      state := state[id := 1];
      stack := stack + [id];
      assert universe - state.Keys <= universe - old(state).Keys && id in universe - old(state).Keys;
      cycle := VisitDependencies(id);
      if cycle.Some? {
        return;
      }
      PopMarks(state, old(stack), order, id);
      PopShaped(EdgesOf(graph), old(stack), order, id);
      GrewItself(graph, id, old(order), order);
      stack := stack[..|stack| - 1];
      assert stack == old(stack);
      state := state[id := 2];
      order := order + [id];
      return None;
    }

    /** The loop over the roots. */
    method VisitRoots(roots: seq<FormulaId>) returns (cycle: Option<seq<FormulaId>>)
      requires Valid() && stack == [] && order == [] && Elems(roots) <= universe
      modifies this`state, this`order, this`stack
      ensures cycle.None? ==>
        && TopoOrder(EdgesOf(graph), order) && Elems(roots) <= Elems(order)
        && (forall x | x in order :: ReachedFrom(EdgesOf(graph), Elems(roots), x))
      ensures cycle.Some? ==>
        && IsCycle(EdgesOf(graph), cycle.value)
        && ReachedFrom(EdgesOf(graph), Elems(roots), cycle.value[0])
    {
      var k := 0;
      while k < |roots|
        invariant 0 <= k <= |roots|
        invariant Valid() && stack == []
        invariant forall j | 0 <= j < k :: roots[j] in order
        invariant forall x | x in order :: ReachedFrom(EdgesOf(graph), Elems(roots), x)
      {
        assert roots[k] in Elems(roots);
        ghost var before := order;
        cycle := Visit(roots[k]);
        if cycle.Some? {
          return;
        }
        forall x | x in order ensures ReachedFrom(EdgesOf(graph), Elems(roots), x) {
          if x !in before {
            assert Reaches(EdgesOf(graph), roots[k], x);
          }
        }
        k := k + 1;
      }
      return None;
    }

    /** The loop over graph[id] inside visit. */
    method VisitDependencies(id: FormulaId) returns (cycle: Option<seq<FormulaId>>)
      requires Valid() && id in universe && stack != [] && stack[|stack| - 1] == id
      modifies this`state, this`order, this`stack
      ensures cycle.None? ==>
        && Valid() && stack == old(stack) && Grew(graph, id, old(order), order)
        && EdgesOf(graph)(id) <= Elems(order)
      ensures cycle.Some? ==> CycleFrom(graph, id, cycle.value)
      decreases universe - state.Keys, 3
    {
      hide Marks, Shaped, EdgesOf, AllTargets, Grew, CycleFrom, Listed;
      GrewNothing(graph, id, order);
      var dependencies := if id in graph then graph[id] else [];
      NoneListed(dependencies, order);
      var k := 0;
      while k < |dependencies|
        invariant 0 <= k <= |dependencies|
        invariant Valid() && stack == old(stack) && Grew(graph, id, old(order), order)
        invariant Listed(dependencies, k, order)
        invariant old(state).Keys <= state.Keys
      {
        assert universe - state.Keys <= universe - old(state).Keys;
        TargetIsEdge(graph, id, k);
        ghost var before := order;
        cycle := VisitTarget(id, dependencies[k].id);
        if cycle.Some? {
          return;
        }
        GrewTwice(graph, id, old(order), before, order);
        ListedMore(graph, id, dependencies, k, before, order);
        k := k + 1;
      }
      EdgesListed(graph, id, order);
      return None;
    }

    /** One dependency. */
    method VisitTarget(id: FormulaId, target: FormulaId) returns (cycle: Option<seq<FormulaId>>)
      requires Valid() && id in universe && stack != [] && stack[|stack| - 1] == id
      requires target in EdgesOf(graph)(id) && target in AllTargets(graph)
      modifies this`state, this`order, this`stack
      ensures cycle.None? ==>
        && Valid() && stack == old(stack) && Grew(graph, id, old(order), order)
        && target in order && old(state).Keys <= state.Keys
      ensures cycle.Some? ==> CycleFrom(graph, id, cycle.value)
      decreases universe - state.Keys, 2
    {
      hide Marks, Shaped, EdgesOf, AllTargets, Grew, CycleFrom;
      cycle := Visit(target);
      if cycle.Some? {
        CycleOneUp(graph, id, target, cycle.value);
        return;
      }
      GrewOneUp(graph, id, target, old(order), order);
      GrewPrefix(graph, id, old(order), order);
      MarkedStayMarked(stack, old(state), old(order), state, order);
    }
  }

  /** The order has grown by nodes that `id` reaches. */
  ghost predicate Grew(graph: DependencyGraph, id: FormulaId, before: seq<FormulaId>, after: seq<FormulaId>) {
    before <= after && forall x | x in after && x !in before :: Reaches(EdgesOf(graph), id, x)
  }

  ghost predicate CycleFrom(graph: DependencyGraph, id: FormulaId, cycle: seq<FormulaId>) {
    IsCycle(EdgesOf(graph), cycle) && Reaches(EdgesOf(graph), id, cycle[0])
  }

  lemma GrewNothing(graph: DependencyGraph, id: FormulaId, order: seq<FormulaId>)
    ensures Grew(graph, id, order, order)
  {
  }

  /** A node reaches itself. */
  lemma GrewItself(graph: DependencyGraph, id: FormulaId, before: seq<FormulaId>, after: seq<FormulaId>)
    requires Grew(graph, id, before, after)
    ensures Grew(graph, id, before, after + [id])
  {
    hide Reaches, EdgesOf;
    ReachesSelf(EdgesOf(graph), id);
  }

  /** An edge back to a node on the stack closes a cycle. */
  lemma ClosesCycle(graph: DependencyGraph, stack: seq<FormulaId>, order: seq<FormulaId>, index: nat, id: FormulaId)
    requires Shaped(EdgesOf(graph), stack, order) && index < |stack| && stack[index] == id
    requires id in EdgesOf(graph)(stack[|stack| - 1])
    ensures CycleFrom(graph, id, stack[index..] + [id])
  {
    hide EdgesOf;
    StackCycle(EdgesOf(graph), stack, index, id);
    ReachesSelf(EdgesOf(graph), id);
  }

  lemma GrewPrefix(graph: DependencyGraph, id: FormulaId, before: seq<FormulaId>, after: seq<FormulaId>)
    requires Grew(graph, id, before, after)
    ensures before <= after
  {
  }

  lemma GrewTwice(graph: DependencyGraph, id: FormulaId, a: seq<FormulaId>, b: seq<FormulaId>, c: seq<FormulaId>)
    requires Grew(graph, id, a, b) && Grew(graph, id, b, c)
    ensures Grew(graph, id, a, c)
  {
    hide Reaches, EdgesOf;
  }

  /** What a dependency reaches, its owner reaches. */
  lemma GrewOneUp(graph: DependencyGraph, id: FormulaId, target: FormulaId, before: seq<FormulaId>,
                  after: seq<FormulaId>)
    requires target in EdgesOf(graph)(id) && Grew(graph, target, before, after)
    ensures Grew(graph, id, before, after)
  {
    hide Reaches, EdgesOf;
    ReachesSelf(EdgesOf(graph), id);
    ReachesStep(EdgesOf(graph), id, id, target);
    forall x | x in after && x !in before ensures Reaches(EdgesOf(graph), id, x) {
      ReachesTrans(EdgesOf(graph), id, target, x);
    }
  }

  lemma CycleOneUp(graph: DependencyGraph, id: FormulaId, target: FormulaId, cycle: seq<FormulaId>)
    requires target in EdgesOf(graph)(id) && CycleFrom(graph, target, cycle)
    ensures CycleFrom(graph, id, cycle)
  {
    hide Reaches, EdgesOf, IsPath;
    ReachesSelf(EdgesOf(graph), id);
    ReachesStep(EdgesOf(graph), id, id, target);
    ReachesTrans(EdgesOf(graph), id, target, cycle[0]);
  }

  /** The first k dependencies are in the order. */
  ghost predicate Listed(dependencies: seq<Requirement>, k: nat, order: seq<FormulaId>) {
    k <= |dependencies| && forall j | 0 <= j < k :: dependencies[j].id in order
  }

  lemma NoneListed(dependencies: seq<Requirement>, order: seq<FormulaId>)
    ensures Listed(dependencies, 0, order)
  {
  }

  lemma ListedMore(graph: DependencyGraph, id: FormulaId, dependencies: seq<Requirement>, k: nat,
                   before: seq<FormulaId>, after: seq<FormulaId>)
    requires Listed(dependencies, k, before) && Grew(graph, id, before, after)
    requires k < |dependencies| && dependencies[k].id in after
    ensures Listed(dependencies, k + 1, after)
  {
    hide Reaches, EdgesOf;
    assert forall x | x in before :: x in after;
  }

  lemma TargetIsEdge(graph: DependencyGraph, id: FormulaId, k: nat)
    requires id in graph && k < |graph[id]|
    ensures graph[id][k].id in EdgesOf(graph)(id) && graph[id][k].id in AllTargets(graph)
  {
  }

  lemma EdgesListed(graph: DependencyGraph, id: FormulaId, order: seq<FormulaId>)
    requires id in graph ==> Listed(graph[id], |graph[id]|, order)
    ensures EdgesOf(graph)(id) <= Elems(order)
  {
  }

  /** Fails with a real cycle, and exactly when the roots reach one; otherwise lists each
      node the roots reach once, after all its dependencies. */
  method Topo(graph: DependencyGraph, roots: seq<FormulaId>)
    returns (order: seq<FormulaId>, cycle: Option<seq<FormulaId>>)
    ensures cycle.Some? <==> CycleReached(EdgesOf(graph), Elems(roots))
    ensures cycle.Some? ==>
      IsCycle(EdgesOf(graph), cycle.value) && ReachedFrom(EdgesOf(graph), Elems(roots), cycle.value[0])
    ensures cycle.None? ==>
      && TopoOrder(EdgesOf(graph), order)
      && (forall x :: x in order <==> ReachedFrom(EdgesOf(graph), Elems(roots), x))
  {
    ghost var e := EdgesOf(graph);
    var visitor := new Visitor(graph, roots);
    cycle := visitor.VisitRoots(roots);
    if cycle.Some? {
      return [], cycle;
    }
    order := visitor.order;
    TopoOrderHasNoCycle(e, order, Elems(roots));
    ClosedCoversReached(e, Elems(order), Elems(roots));
    return order, None;
  }
}
