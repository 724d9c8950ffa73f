/** The acyclicity pre-check and the walk of internal/bottle/receipt.go:
    validateCurrentDependencyGraph and the visit closure of resolvedInstalledDependencies. */
module ReceiptWalk {
  import opened Identity
  import opened Wrappers
  import opened Digraph
  import opened DepthFirst
  import opened Listing
  import opened ReceiptGraph

  /** Signed edges only. */
  ghost function CurrentGraph(idx: Index): Edges<Rack> {
    name => if name in idx.nodes then CurrentNames(idx.nodes[name].dependencies) else {}
  }

  /** Signed edges and selected historical direct edges. */
  ghost function WalkGraph(idx: Index): Edges<Rack> {
    name => if name in idx.nodes then EdgeKinds(idx, idx.nodes[name]).Keys else {}
  }

  // ----- The pre-check -----

  /** Every signed dependency of the node has a name, is listed once, and is in the closure. */
  ghost predicate WellFormed(idx: Index, dependencies: seq<Requirement>) {
    && DistinctNames(dependencies)
    && forall k | 0 <= k < |dependencies| :: dependencies[k].name.text != "" && dependencies[k].name in idx.nodes
  }

  datatype CurrentFault = IllFormed(name: Rack) | Cycle

  ghost predicate CurrentFaultHolds(idx: Index, fault: CurrentFault) {
    match fault
    case IllFormed(name) => name in idx.nodes && !WellFormed(idx, idx.nodes[name].dependencies)
    case Cycle => !Acyclic(CurrentGraph(idx))
  }

  class CurrentCheck {
    const idx: Index
    var state: map<Rack, nat>
    ghost var stack: seq<Rack>
    ghost var order: seq<Rack>

    constructor (idx: Index)
      ensures Valid() && this.idx == idx && stack == [] && order == []
    {
      this.idx := idx;
      this.state, this.stack, this.order := map[], [], [];
    }

    ghost predicate Valid()
      reads this
    {
      && state.Keys <= idx.nodes.Keys
      && Marks(state, stack, order)
      && Shaped(CurrentGraph(idx), stack, order)
      && (forall x | x in order :: x in idx.nodes && WellFormed(idx, idx.nodes[x].dependencies))
    }

    method Visit(name: Rack) returns (fault: Option<CurrentFault>)
      requires Valid() && name in idx.nodes
      requires stack != [] ==> name in CurrentGraph(idx)(stack[|stack| - 1])
      modifies this`state, this`stack, this`order
      ensures fault.None? ==> Valid() && stack == old(stack) && old(order) <= order && name in order
      ensures fault.Some? ==> CurrentFaultHolds(idx, fault.value)
      decreases idx.nodes.Keys - state.Keys, 1
    {
      hide Marks, Shaped, Acyclic, WellFormed, CurrentGraph, IsPath;
      MarkMeaning(state, stack, order, name);
      if MarkOf(state, name) == 1 {
        OnStackCycle(CurrentGraph(idx), stack, order, name);
        return Some(Cycle);
      } else if MarkOf(state, name) == 2 {
        return None;
      }
      fault := VisitNew(name);
    }

    /** A node met for the first time. */
    method VisitNew(name: Rack) returns (fault: Option<CurrentFault>)
      requires Valid() && name in idx.nodes && name !in state
      requires stack != [] ==> name in CurrentGraph(idx)(stack[|stack| - 1])
      modifies this`state, this`stack, this`order
      ensures fault.None? ==> Valid() && stack == old(stack) && old(order) <= order && name in order
      ensures fault.Some? ==> CurrentFaultHolds(idx, fault.value)
      decreases idx.nodes.Keys - state.Keys, 0
    {
      hide Marks, Shaped, Acyclic, WellFormed, CurrentGraph, IsPath, MarkOf;
      PushMarks(state, stack, order, name);
      PushShaped(CurrentGraph(idx), stack, order, name);
      state := state[name := 1];
      stack := stack + [name];
      assert name in idx.nodes.Keys - old(state).Keys;
      assert idx.nodes.Keys - state.Keys <= idx.nodes.Keys - old(state).Keys - {name};
      fault := VisitDependencies(name);
      if fault.Some? {
        return;
      }
      PopMarks(state, old(stack), order, name);
      PopShaped(CurrentGraph(idx), old(stack), order, name);
      stack := stack[..|stack| - 1];
      assert stack == old(stack);
      state := state[name := 2];
      order := order + [name];
      return None;
    }

    method VisitDependencies(name: Rack) returns (fault: Option<CurrentFault>)
      requires Valid() && name in idx.nodes && stack != [] && stack[|stack| - 1] == name
      modifies this`state, this`stack, this`order
      ensures fault.None? ==>
        && Valid() && stack == old(stack) && old(order) <= order
        && WellFormed(idx, idx.nodes[name].dependencies) && CurrentGraph(idx)(name) <= Elems(order)
      ensures fault.Some? ==> CurrentFaultHolds(idx, fault.value)
      decreases idx.nodes.Keys - state.Keys, 2
    {
      hide Marks, Shaped, Acyclic, MarkOf, IsPath, CurrentNames, DistinctNames, WellFormed, CurrentGraph;
      var dependencies := idx.nodes[name].dependencies;
      NoNames(dependencies);
      var seen: set<Rack> := {};
      var k := 0;
      while k < |dependencies|
        invariant 0 <= k <= |dependencies|
        invariant Valid() && stack == old(stack) && old(order) <= order
        invariant seen == CurrentNames(dependencies[..k])
        invariant DistinctNames(dependencies[..k])
        invariant forall j | 0 <= j < k ::
          dependencies[j].name.text != "" && dependencies[j].name in idx.nodes && dependencies[j].name in order
        invariant old(state).Keys <= state.Keys
      {
        var requirement := dependencies[k];
        assert dependencies[..k + 1] == dependencies[..k] + [requirement];
        NamesSnoc(dependencies[..k], requirement);
        if requirement.name.text == "" || requirement.name in seen || requirement.name !in idx.nodes {
          IllFormedAt(idx, dependencies, k);
          return Some(IllFormed(name));
        }
        seen := seen + {requirement.name};
        SignedEdge(idx, name, k);
        assert idx.nodes.Keys - state.Keys <= idx.nodes.Keys - old(state).Keys;
        ghost var marks, before := state, order;
        fault := Visit(requirement.name);
        if fault.Some? {
          return;
        }
        MarkedStayMarked(stack, marks, before, state, order);
        k := k + 1;
      }
      assert dependencies[..k] == dependencies;
      AllVisited(idx, name, order);
      return None;
    }
  }

  lemma NoNames(dependencies: seq<Requirement>)
    ensures CurrentNames(dependencies[..0]) == {} && DistinctNames(dependencies[..0])
  {
  }

  lemma IllFormedAt(idx: Index, dependencies: seq<Requirement>, k: nat)
    requires k < |dependencies|
    requires dependencies[k].name.text == "" || dependencies[k].name in CurrentNames(dependencies[..k])
             || dependencies[k].name !in idx.nodes
    ensures !WellFormed(idx, dependencies)
  {
  }

  lemma SignedEdge(idx: Index, name: Rack, k: nat)
    requires name in idx.nodes && k < |idx.nodes[name].dependencies|
    ensures idx.nodes[name].dependencies[k].name in CurrentGraph(idx)(name)
  {
  }

  lemma AllVisited(idx: Index, name: Rack, order: seq<Rack>)
    requires name in idx.nodes && DistinctNames(idx.nodes[name].dependencies)
    requires forall k | 0 <= k < |idx.nodes[name].dependencies| ::
      var target := idx.nodes[name].dependencies[k].name;
      target.text != "" && target in idx.nodes && target in order
    ensures WellFormed(idx, idx.nodes[name].dependencies) && CurrentGraph(idx)(name) <= Elems(order)
  {
  }

  lemma OnStackCycle(e: Edges<Rack>, stack: seq<Rack>, order: seq<Rack>, name: Rack)
    requires Shaped(e, stack, order) && name in stack && name in e(stack[|stack| - 1])
    ensures !Acyclic(e)
  {
    var index :| 0 <= index < |stack| && stack[index] == name;
    StackCycle(e, stack, index, name);
  }

  lemma OrderedIsAcyclic(idx: Index, order: seq<Rack>)
    requires TopoOrder(CurrentGraph(idx), order) && idx.nodes.Keys <= Elems(order)
    ensures Acyclic(CurrentGraph(idx))
  {
    var e := CurrentGraph(idx);
    TopoOrderHasNoCycle(e, order, idx.nodes.Keys);
    forall c | IsCycle(e, c) ensures false {
      assert Step(e, c, 0);
      ReachedFromRoot(e, idx.nodes.Keys, c[0]);
    }
  }

  /** Accepts exactly the closures whose signed edges are well formed and acyclic. */
  method ValidateCurrentGraph(idx: Index) returns (fault: Option<CurrentFault>)
    ensures fault.None? ==>
      && Acyclic(CurrentGraph(idx))
      && forall name | name in idx.nodes :: WellFormed(idx, idx.nodes[name].dependencies)
    ensures fault.Some? ==> CurrentFaultHolds(idx, fault.value)
  {
    hide Marks, WellFormed, Acyclic, CurrentGraph, TopoOrder, IsPath;
    var check := new CurrentCheck(idx);
    RackLeOrder();
    var names := ListSorted(idx.nodes.Keys, RackLe);
    assert forall k | 0 <= k < |names| :: names[k] in Elems(names);
    var k := 0;
    while k < |names|
      invariant 0 <= k <= |names|
      invariant check.Valid() && check.stack == [] && check.idx == idx
      invariant forall j | 0 <= j < k :: names[j] in check.order
    {
      fault := check.Visit(names[k]);
      if fault.Some? {
        return;
      }
      k := k + 1;
    }
    OrderedIsAcyclic(idx, check.order);
    return None;
  }

  // ----- The walk over both edge sets -----

  datatype ReceiptDependency = ReceiptDependency(
    fullName: string, version: string, revision: int, bottleRebuild: int, pkgVersion: string, declaredDirectly: bool)

  /** receiptDependencyFullName: core names lose their tap. */
  function ReceiptName(node: Node): string {
    match node.identity
    case None => ""
    case Some(id) => if IsCore(id) then id.name else Text(id)
  }

  function Entry(node: Node, direct: bool): ReceiptDependency {
    ReceiptDependency(ReceiptName(node), node.formulaVersion, node.formulaRevision, node.bottleRebuild, node.pkgVersion,
                      direct)
  }

  datatype WalkFault = FaultyNode(name: Rack) | CurrentCycle(name: Rack)

  ghost predicate FaultyAt(v: Versions, idx: Index, name: Rack) {
    name !in idx.nodes || !NodeOk(v, idx, idx.nodes[name])
  }

  /** A fault reported by the walk from `start` is real. */
  ghost predicate WalkFaultHolds(v: Versions, idx: Index, start: Rack, fault: WalkFault) {
    match fault
    case FaultyNode(name) => Reaches(WalkGraph(idx), start, name) && FaultyAt(v, idx, name)
    case CurrentCycle(_) => !Acyclic(CurrentGraph(idx))
  }

  /** An edge with its kind: true when only the historical tab declares it. */
  ghost predicate EdgeAt(idx: Index, a: Rack, b: Rack, historical: bool) {
    && a in idx.nodes && b in EdgeKinds(idx, idx.nodes[a])
    && EdgeKinds(idx, idx.nodes[a])[b] == historical
  }

  ghost predicate EdgesAlong(idx: Index, path: seq<Rack>, kinds: seq<bool>) {
    && |kinds| == |path| - 1
    && forall i | 0 <= i < |kinds| :: EdgeAt(idx, path[i], path[i + 1], kinds[i])
  }

  /** Go's active map gives the position of each node on the stack. */
  ghost predicate Positions(active: map<Rack, nat>, stack: seq<Rack>) {
    && NoRepeats(stack)
    && active.Keys == Elems(stack)
    && forall i | 0 <= i < |stack| :: active[stack[i]] == i
  }

  lemma PositionsPush(active: map<Rack, nat>, stack: seq<Rack>, name: Rack)
    requires Positions(active, stack) && name !in active
    ensures Positions(active[name := |stack|], stack + [name])
  {
    SnocElems(stack, name);
    assert forall i | 0 <= i < |stack| :: stack[i] in Elems(stack);
  }

  /** Finished nodes are sound, and their edges lead to finished nodes or to the stack. */
  ghost predicate FinishedOk(v: Versions, idx: Index, finished: set<Rack>, stack: seq<Rack>) {
    && finished !! Elems(stack)
    && forall x | x in finished :: !FaultyAt(v, idx, x) && WalkGraph(idx)(x) <= finished + Elems(stack)
  }

  lemma FinishedPush(v: Versions, idx: Index, finished: set<Rack>, stack: seq<Rack>, name: Rack)
    requires FinishedOk(v, idx, finished, stack) && name !in finished
    ensures FinishedOk(v, idx, finished, stack + [name])
  {
    hide FaultyAt, WalkGraph;
    SnocElems(stack, name);
  }

  lemma FinishedPop(v: Versions, idx: Index, finished: set<Rack>, stack: seq<Rack>, name: Rack)
    requires FinishedOk(v, idx, finished, stack + [name]) && NoRepeats(stack + [name])
    requires !FaultyAt(v, idx, name) && WalkGraph(idx)(name) <= finished + Elems(stack + [name])
    ensures FinishedOk(v, idx, finished + {name}, stack)
  {
    hide FaultyAt, WalkGraph;
    SnocElems(stack, name);
  }

  /** `names` lists the finished nodes other than the root, each with its emitted entry. */
  ghost predicate Emitted(idx: Index, root: Rack, direct: set<Rack>, finished: set<Rack>,
                          names: seq<Rack>, resolved: seq<ReceiptDependency>) {
    && NoRepeats(names) && Elems(names) == finished - {root} && |resolved| == |names|
    && forall i | 0 <= i < |names| ::
         names[i] in idx.nodes && resolved[i] == Entry(idx.nodes[names[i]], names[i] in direct)
  }

  lemma EmitOne(idx: Index, root: Rack, direct: set<Rack>, finished: set<Rack>, names: seq<Rack>,
                resolved: seq<ReceiptDependency>, name: Rack)
    requires Emitted(idx, root, direct, finished, names, resolved) && name !in finished && name in idx.nodes
    ensures name == root ==> Emitted(idx, root, direct, finished + {name}, names, resolved)
    ensures name != root ==>
      Emitted(idx, root, direct, finished + {name}, names + [name], resolved + [Entry(idx.nodes[name], name in direct)])
  {
    hide Entry;
    SnocElems(names, name);
  }

  /** A segment of signed edges that returns to its start is a cycle of signed edges. */
  lemma SignedSegment(idx: Index, path: seq<Rack>, kinds: seq<bool>)
    requires EdgesAlong(idx, path, kinds) && |path| >= 2 && path[0] == path[|path| - 1]
    requires forall i | 0 <= i < |kinds| :: !kinds[i]
    ensures !Acyclic(CurrentGraph(idx))
  {
    var e := CurrentGraph(idx);
    forall i | 0 <= i < |path| - 1 ensures Step(e, path, i) {
      assert EdgeAt(idx, path[i], path[i + 1], kinds[i]);
    }
    assert IsCycle(e, path);
  }

  lemma StackSegment(idx: Index, stack: seq<Rack>, kinds: seq<bool>, index: nat, target: Rack)
    requires EdgesAlong(idx, stack, kinds) && index < |stack| && stack[index] == target
    requires EdgeAt(idx, stack[|stack| - 1], target, false)
    requires forall i | index <= i < |kinds| :: !kinds[i]
    ensures !Acyclic(CurrentGraph(idx))
  {
    hide EdgeAt, Acyclic;
    var path := stack[index..] + [target];
    var segment := kinds[index..] + [false];
    forall i | 0 <= i < |segment| ensures EdgeAt(idx, path[i], path[i + 1], segment[i]) {
      if i < |kinds| - index {
        assert EdgeAt(idx, stack[index + i], stack[index + i + 1], kinds[index + i]);
      }
    }
    SignedSegment(idx, path, segment);
  }

  lemma AlongPush(idx: Index, stack: seq<Rack>, kinds: seq<bool>, target: Rack, kind: bool)
    requires EdgesAlong(idx, stack, kinds) && stack != [] && EdgeAt(idx, stack[|stack| - 1], target, kind)
    ensures EdgesAlong(idx, stack + [target], kinds + [kind])
  {
    hide EdgeAt;
    var path, longer := stack + [target], kinds + [kind];
    forall i | 0 <= i < |longer| ensures EdgeAt(idx, path[i], path[i + 1], longer[i]) {
      if i < |kinds| {
        assert EdgeAt(idx, stack[i], stack[i + 1], kinds[i]);
      }
    }
  }

  /** Whether any edge from the given position on is historical. */
  function AnyTrue(kinds: seq<bool>, from: nat): (r: bool)
    requires from <= |kinds|
    ensures r <==> exists i | from <= i < |kinds| :: kinds[i]
    decreases |kinds| - from
  {
    if from == |kinds| then false else kinds[from] || AnyTrue(kinds, from + 1)
  }

  class Walker {
    const v: Versions
    const idx: Index
    const root: Rack
    const rootDirect: set<Rack>
    var finished: set<Rack>
    var active: map<Rack, nat>
    var stack: seq<Rack>
    var stackEdges: seq<bool>
    var resolved: seq<ReceiptDependency>
    ghost var names: seq<Rack>

    constructor (v: Versions, idx: Index, root: Rack, rootDirect: set<Rack>)
      ensures this.v == v && this.idx == idx && this.root == root && this.rootDirect == rootDirect
      ensures Valid() && stack == [] && stackEdges == [] && finished == {} && active == map[]
    {
      this.v, this.idx, this.root, this.rootDirect := v, idx, root, rootDirect;
      this.finished, this.active, this.stack, this.stackEdges := {}, map[], [], [];
      this.resolved, this.names := [], [];
    }

    ghost predicate Valid()
      reads this
    {
      && Elems(stack) <= idx.nodes.Keys
      && Positions(active, stack)
      && FinishedOk(v, idx, finished, stack)
      && Emitted(idx, root, rootDirect, finished, names, resolved)
    }

    method Visit(name: Rack) returns (fault: Option<WalkFault>)
      requires Valid() && name !in active && EdgesAlong(idx, stack + [name], stackEdges)
      modifies this`finished, this`active, this`stack, this`stackEdges, this`resolved, this`names
      ensures fault.None? ==>
        && Valid() && active == old(active) && stack == old(stack) && stackEdges == old(stackEdges)
        && old(finished) <= finished && name in finished
        && (forall x | x in finished && x !in old(finished) :: Reaches(WalkGraph(idx), name, x))
      ensures fault.Some? ==> WalkFaultHolds(v, idx, name, fault.value)
      decreases idx.nodes.Keys - finished - Elems(stack), 0
    {
      hide Positions, FinishedOk, Emitted, EdgesAlong, Reaches, FaultyAt, Acyclic, NoRepeats, EdgeKinds;
      ReachesSelf(WalkGraph(idx), name);
      if name in finished {
        return None;
      }
      if name !in idx.nodes {
        MissingIsFaulty(v, idx, name);
        return Some(FaultyNode(name));
      }
      PositionsPush(active, stack, name);
      FinishedPush(v, idx, finished, stack, name);
      SnocElems(stack, name);
      active := active[name := |stack|];
      stack := stack + [name];
      var node := idx.nodes[name];
      var edges := CollectEdges(v, idx, node);
      FaultyMeaning(v, idx, name);
      if edges.None? {
        return Some(FaultyNode(name));
      }
      fault := VisitTargets(name, edges.value);
      if fault.Some? {
        return;
      }
      Leave(name);
      assert stack == old(stack);
      PositionsSame(old(active), active, stack);
      return None;
    }

    /** What visit does once every target is handled. */
    method Leave(name: Rack)
      requires Valid() && stack != [] && stack[|stack| - 1] == name && name in idx.nodes
      requires !FaultyAt(v, idx, name) && WalkGraph(idx)(name) <= finished + Elems(stack)
      modifies this`finished, this`active, this`stack, this`resolved, this`names
      ensures Valid() && stack == old(stack)[..|old(stack)| - 1] && finished == old(finished) + {name}
    {
      hide Positions, FinishedOk, Emitted, FaultyAt, NoRepeats, WalkGraph;
      ghost var below := stack[..|stack| - 1];
      assert stack == below + [name];
      SnocElems(below, name);
      NotFinishedYet(v, idx, finished, below, name);
      EmitOne(idx, root, rootDirect, finished, names, resolved, name);
      PositionsPop(active, below, name);
      FinishedPop(v, idx, finished, below, name);
      active := active - {name};
      stack := stack[..|stack| - 1];
      finished := finished + {name};
      if name != root {
        resolved := resolved + [Entry(idx.nodes[name], name in rootDirect)];
        names := names + [name];
      }
    }

    /** The loop over the sorted targets of the node on top of the stack. */
    method VisitTargets(name: Rack, edges: map<Rack, bool>) returns (fault: Option<WalkFault>)
      requires Valid() && stack != [] && stack[|stack| - 1] == name && EdgesAlong(idx, stack, stackEdges)
      requires name in idx.nodes && edges == EdgeKinds(idx, idx.nodes[name])
      modifies this`finished, this`active, this`stack, this`stackEdges, this`resolved, this`names
      ensures fault.None? ==>
        && Valid() && active == old(active) && stack == old(stack) && stackEdges == old(stackEdges)
        && old(finished) <= finished && edges.Keys <= finished + Elems(stack)
        && (forall x | x in finished && x !in old(finished) :: Reaches(WalkGraph(idx), name, x))
      ensures fault.Some? ==> WalkFaultHolds(v, idx, name, fault.value)
      decreases idx.nodes.Keys - finished - Elems(stack), 2
    {
      hide FinishedOk, Emitted, EdgesAlong, Reaches, FaultyAt, EdgeKinds, NoRepeats, Positions, WalkFaultHolds,
        WalkGraph;
      RackLeOrder();
      var targets := ListSorted(edges.Keys, RackLe);
      assert forall k | 0 <= k < |targets| :: targets[k] in Elems(targets);
      var k := 0;
      while k < |targets|
        invariant 0 <= k <= |targets|
        invariant Valid() && active == old(active) && stack == old(stack) && stackEdges == old(stackEdges)
        invariant old(finished) <= finished
        invariant forall j | 0 <= j < k :: targets[j] in finished + Elems(stack)
        invariant forall x | x in finished && x !in old(finished) :: Reaches(WalkGraph(idx), name, x)
      {
        assert idx.nodes.Keys - finished - Elems(stack) <= idx.nodes.Keys - old(finished) - Elems(old(stack));
        fault := VisitTarget(name, edges, targets[k]);
        if fault.Some? {
          return;
        }
        k := k + 1;
      }
      return None;
    }

    /** One target: a node on the stack is passed over unless every edge of the cycle is
        signed; any other node is visited. */
    method VisitTarget(name: Rack, edges: map<Rack, bool>, target: Rack) returns (fault: Option<WalkFault>)
      requires Valid() && stack != [] && stack[|stack| - 1] == name && EdgesAlong(idx, stack, stackEdges)
      requires name in idx.nodes && edges == EdgeKinds(idx, idx.nodes[name]) && target in edges
      modifies this`finished, this`active, this`stack, this`stackEdges, this`resolved, this`names
      ensures fault.None? ==>
        && Valid() && active == old(active) && stack == old(stack) && stackEdges == old(stackEdges)
        && old(finished) <= finished && target in finished + Elems(stack)
        && (forall x | x in finished && x !in old(finished) :: Reaches(WalkGraph(idx), name, x))
      ensures fault.Some? ==> WalkFaultHolds(v, idx, name, fault.value)
      decreases idx.nodes.Keys - finished - Elems(stack), 1
    {
      hide FinishedOk, Emitted, EdgesAlong, Reaches, FaultyAt, Acyclic, EdgeKinds, NoRepeats;
      StackKinds(idx, stack, stackEdges);
      if target in active {
        var index := active[target];
        if !edges[target] && !AnyTrue(stackEdges, index) {
          StackSegment(idx, stack, stackEdges, index, target);
          return Some(CurrentCycle(target));
        }
        return None;
      }
      AlongPush(idx, stack, stackEdges, target, edges[target]);
      ReachesSelf(WalkGraph(idx), name);
      ReachesStep(WalkGraph(idx), name, name, target);
      stackEdges := stackEdges + [edges[target]];
      fault := Visit(target);
      if fault.Some? {
        FaultFromAbove(v, idx, name, target, fault.value);
        return;
      }
      stackEdges := stackEdges[..|stackEdges| - 1];
      forall x | x in finished && x !in old(finished) ensures Reaches(WalkGraph(idx), name, x) {
        ReachesTrans(WalkGraph(idx), name, target, x);
      }
      return None;
    }
  }

  lemma MissingIsFaulty(v: Versions, idx: Index, name: Rack)
    requires name !in idx.nodes
    ensures FaultyAt(v, idx, name)
  {
  }

  lemma FaultyMeaning(v: Versions, idx: Index, name: Rack)
    requires name in idx.nodes
    ensures FaultyAt(v, idx, name) <==> !NodeOk(v, idx, idx.nodes[name])
  {
  }

  lemma NotFinishedYet(v: Versions, idx: Index, finished: set<Rack>, stack: seq<Rack>, name: Rack)
    requires FinishedOk(v, idx, finished, stack + [name])
    ensures name !in finished
  {
    SnocElems(stack, name);
  }

  lemma PositionsPop(active: map<Rack, nat>, stack: seq<Rack>, name: Rack)
    requires Positions(active, stack + [name])
    ensures Positions(active - {name}, stack) && NoRepeats(stack + [name])
  {
    SnocElems(stack, name);
    var taller := stack + [name];
    forall i | 0 <= i < |stack| ensures stack[i] != name && (active - {name})[stack[i]] == i {
      assert taller[i] == stack[i] && stack[i] in Elems(stack);
    }
  }

  /** Positions are determined by the stack. */
  lemma PositionsSame(active: map<Rack, nat>, active': map<Rack, nat>, stack: seq<Rack>)
    requires Positions(active, stack) && Positions(active', stack)
    ensures active == active'
  {
    forall x | x in active ensures active[x] == active'[x] {
      var i :| 0 <= i < |stack| && stack[i] == x;
    }
  }

  lemma StackKinds(idx: Index, stack: seq<Rack>, kinds: seq<bool>)
    requires EdgesAlong(idx, stack, kinds)
    ensures |kinds| == |stack| - 1
  {
  }

  lemma FaultFromAbove(v: Versions, idx: Index, a: Rack, b: Rack, fault: WalkFault)
    requires WalkFaultHolds(v, idx, b, fault) && Reaches(WalkGraph(idx), a, b)
    ensures WalkFaultHolds(v, idx, a, fault)
  {
    hide Reaches;
    if fault.FaultyNode? {
      ReachesTrans(WalkGraph(idx), a, b, fault.name);
    }
  }
}
