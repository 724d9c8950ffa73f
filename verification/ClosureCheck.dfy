/** The independent closure checker of internal/catalog/validate.go, ValidateClosureResult
    and validateNode. Go joins the errors it meets; the model keeps one problem per error,
    grouped by the part of the closure that is wrong. */
module ClosureCheck {
  import opened Identity
  import opened Catalog
  import opened Wrappers
  import opened Digraph
  import DepthFirst

  datatype Problem =
    | SizeProblem | EmptyProblem | NodeProblem | RootProblem | MappingProblem | TapProblem
    | EdgeProblem | OrderProblem | CycleProblem(at: FormulaId) | UnreachableProblem(id: FormulaId)

  // ----- One node -----

  predicate RequirementOk(requirement: Requirement, owner: TapId) {
    && (match requirement.raw
        case Bare(name) =>
          && name == requirement.id.name
          && (requirement.id.tap == CORE_TAP || requirement.id.tap == owner)
        case Qualified(id) => id == requirement.id
        case Malformed(_) => false)
    && requirement.minimumRevision >= 0
    && requirement.minimumBottleRebuild >= 0
  }

  ghost predicate DistinctTargets(dependencies: seq<Requirement>) {
    forall i, j | 0 <= i < j < |dependencies| :: dependencies[i].id != dependencies[j].id
  }

  ghost predicate NodeOk(node: Node) {
    && node.tap == node.id.tap
    && node.name == node.id.name
    && node.fullName == Text(node.id)
    && node.formulaVersion != "" && node.pkgVersion != ""
    && node.formulaRevision >= 0 && node.versionScheme >= 0 && node.bottleRebuild >= 0
    && (forall i | 0 <= i < |node.dependencies| ::
          RequirementOk(node.dependencies[i], node.tap) && node.dependencies[i].id != node.id)
    && DistinctTargets(node.dependencies)
  }

  /** validateNode */
  method ValidateNode(node: Node) returns (ok: bool)
    ensures ok <==> NodeOk(node)
  {
    ok := node.tap == node.id.tap && node.name == node.id.name && node.fullName == Text(node.id);
    ok := ok && node.formulaVersion != "" && node.pkgVersion != "";
    ok := ok && node.formulaRevision >= 0 && node.versionScheme >= 0 && node.bottleRebuild >= 0;
    ghost var head := ok;
    var seen: set<FormulaId> := {};
    var i := 0;
    while i < |node.dependencies|
      invariant 0 <= i <= |node.dependencies|
      invariant seen == set k | 0 <= k < i :: node.dependencies[k].id
      invariant ok <==>
        && head
        && (forall k | 0 <= k < i ::
              RequirementOk(node.dependencies[k], node.tap) && node.dependencies[k].id != node.id)
        && DistinctTargets(node.dependencies[..i])
    {
      var dependency := node.dependencies[i];
      assert dependency.id in seen <==> exists k | 0 <= k < i :: node.dependencies[k].id == dependency.id;
      assert node.dependencies[..i + 1] == node.dependencies[..i] + [dependency];
      ok := ok && RequirementOk(dependency, node.tap) && dependency.id != node.id && dependency.id !in seen;
      seen := seen + {dependency.id};
      i := i + 1;
    }
    assert node.dependencies[..i] == node.dependencies;
  }

  // ----- All nodes -----

  /** Go's nodes map: the last node listed under an identity. */
  ghost function NodeMap(nodes: seq<Node>): map<FormulaId, Node> {
    if nodes == [] then map[]
    else NodeMap(nodes[..|nodes| - 1])[nodes[|nodes| - 1].id := nodes[|nodes| - 1]]
  }

  ghost function Ids(nodes: seq<Node>): set<FormulaId> {
    set k | 0 <= k < |nodes| :: nodes[k].id
  }

  /** Unique identities and unique rack names, each node well formed. */
  ghost predicate NodesOk(nodes: seq<Node>) {
    && (forall i | 0 <= i < |nodes| :: NodeOk(nodes[i]))
    && (forall i, j | 0 <= i < j < |nodes| :: nodes[i].id != nodes[j].id && nodes[i].name != nodes[j].name)
  }

  lemma {:induction false} NodeMapLists(nodes: seq<Node>)
    ensures NodeMap(nodes).Keys == Ids(nodes)
    ensures forall id | id in NodeMap(nodes) :: NodeMap(nodes)[id] in nodes && NodeMap(nodes)[id].id == id
  {
    if nodes != [] {
      var front := nodes[..|nodes| - 1];
      NodeMapLists(front);
      assert Ids(nodes) == Ids(front) + {nodes[|nodes| - 1].id};
    }
  }

  /** Go's racks map: the last identity listed under a rack name. */
  ghost function RackMap(nodes: seq<Node>): map<string, FormulaId> {
    if nodes == [] then map[]
    else RackMap(nodes[..|nodes| - 1])[nodes[|nodes| - 1].name := nodes[|nodes| - 1].id]
  }

  lemma {:induction false} RackMapLists(nodes: seq<Node>)
    ensures forall k | 0 <= k < |nodes| :: nodes[k].name in RackMap(nodes)
    ensures forall name | name in RackMap(nodes) ::
      exists k | 0 <= k < |nodes| :: nodes[k].name == name && nodes[k].id == RackMap(nodes)[name]
  {
    if nodes != [] {
      var front := nodes[..|nodes| - 1];
      RackMapLists(front);
      forall name | name in RackMap(nodes)
        ensures exists k | 0 <= k < |nodes| :: nodes[k].name == name && nodes[k].id == RackMap(nodes)[name]
      {
        if name == nodes[|nodes| - 1].name {
          assert nodes[|nodes| - 1].id == RackMap(nodes)[name];
        } else {
          assert name in RackMap(front);
          var k :| 0 <= k < |front| && front[k].name == name && front[k].id == RackMap(front)[name];
          assert nodes[k] == front[k];
        }
      }
    }
  }

  lemma NodesOkSplit(front: seq<Node>, node: Node)
    ensures NodesOk(front + [node]) <==>
      && NodesOk(front) && NodeOk(node)
      && forall k | 0 <= k < |front| :: front[k].id != node.id && front[k].name != node.name
  {
    hide NodeOk;
    var nodes := front + [node];
    assert forall k | 0 <= k < |front| :: nodes[k] == front[k];
    assert nodes[|front|] == node;
  }

  /** Adding a node is fine exactly when the two map lookups find no clash. */
  lemma NodesOkSnoc(front: seq<Node>, node: Node)
    ensures NodesOk(front + [node]) <==>
      && NodesOk(front) && NodeOk(node)
      && node.id !in NodeMap(front)
      && !(node.name in RackMap(front) && RackMap(front)[node.name] != node.id)
  {
    hide NodesOk, NodeOk;
    NodesOkSplit(front, node);
    NodeMapLists(front);
    RackMapLists(front);
    if node.id !in NodeMap(front) && node.name in RackMap(front) {
      var k :| 0 <= k < |front| && front[k].name == node.name && front[k].id == RackMap(front)[node.name];
    }
  }

  lemma NoNodesOk()
    ensures NodesOk([])
  {
  }

  method CheckNodes(list: seq<Node>) returns (errs: seq<Problem>, nodes: map<FormulaId, Node>)
    ensures errs == [] <==> NodesOk(list)
    ensures forall p | p in errs :: p == NodeProblem
    ensures nodes == NodeMap(list)
  {
    hide NodesOk, NodeOk;
    NoNodesOk();
    assert list[..0] == [];
    errs, nodes := [], map[];
    var racks: map<string, FormulaId> := map[];
    var i := 0;
    while i < |list|
      invariant 0 <= i <= |list|
      invariant nodes == NodeMap(list[..i])
      invariant racks == RackMap(list[..i])
      invariant forall p | p in errs :: p == NodeProblem
      invariant errs == [] <==> NodesOk(list[..i])
    {
      var node := list[i];
      assert list[..i + 1] == list[..i] + [node];
      NodesOkSnoc(list[..i], node);
      assert list[..i + 1][..i] == list[..i];
      var fine := ValidateNode(node);
      if !fine {
        errs := errs + [NodeProblem];
      }
      if node.id in nodes {
        errs := errs + [NodeProblem];
      }
      nodes := nodes[node.id := node];
      if node.name in racks && racks[node.name] != node.id {
        errs := errs + [NodeProblem];
      }
      racks := racks[node.name := node.id];
      i := i + 1;
    }
    assert list[..i] == list;
  }

  // ----- Requested roots and their mappings -----

  ghost predicate RootsOk(requested: seq<FormulaId>, ids: set<FormulaId>) {
    NoRepeats(requested) && Elems(requested) <= ids
  }

  method CheckRoots(requested: seq<FormulaId>, nodes: map<FormulaId, Node>)
    returns (errs: seq<Problem>, seenRoots: set<FormulaId>)
    ensures errs == [] <==> RootsOk(requested, nodes.Keys)
    ensures forall p | p in errs :: p == RootProblem
    ensures seenRoots == Elems(requested)
  {
    errs, seenRoots := [], {};
    var i := 0;
    while i < |requested|
      invariant 0 <= i <= |requested|
      invariant seenRoots == Elems(requested[..i])
      invariant forall p | p in errs :: p == RootProblem
      invariant errs == [] <==> RootsOk(requested[..i], nodes.Keys)
    {
      var root := requested[i];
      assert requested[..i + 1] == requested[..i] + [root];
      SnocElems(requested[..i], root);
      if root in seenRoots {
        errs := errs + [RootProblem];
      }
      seenRoots := seenRoots + {root};
      if root !in nodes {
        errs := errs + [RootProblem];
      }
      i := i + 1;
    }
    assert requested[..i] == requested;
  }

  function EffectiveMappings(closure: ClosureResult): seq<RequestedMapping> {
    match closure.mappings
    case Some(mappings) => mappings
    case None => seq(|closure.requested|, i requires 0 <= i < |closure.requested| =>
                   RequestedMapping(closure.requested[i], closure.requested[i]))
  }

  ghost function Sources(mappings: seq<RequestedMapping>): seq<FormulaId> {
    seq(|mappings|, i requires 0 <= i < |mappings| => mappings[i].requested)
  }

  ghost function Results(mappings: seq<RequestedMapping>): seq<FormulaId> {
    seq(|mappings|, i requires 0 <= i < |mappings| => mappings[i].resolved)
  }

  /** One mapping per canonical root, with distinct sources and distinct results. */
  ghost predicate MappingsOk(mappings: seq<RequestedMapping>, requested: seq<FormulaId>) {
    && |mappings| == |requested|
    && NoRepeats(Sources(mappings))
    && NoRepeats(Results(mappings))
    && Elems(requested) <= Elems(Results(mappings))
  }

  method CheckMappings(mappings: seq<RequestedMapping>, requested: seq<FormulaId>, seenRoots: set<FormulaId>)
    returns (errs: seq<Problem>)
    requires seenRoots == Elems(requested)
    ensures errs == [] <==> MappingsOk(mappings, requested)
    ensures forall p | p in errs :: p == MappingProblem
  {
    errs := if |mappings| == |requested| then [] else [MappingProblem];
    var seenSources: set<FormulaId>, seenResults: set<FormulaId> := {}, {};
    var i := 0;
    while i < |mappings|
      invariant 0 <= i <= |mappings|
      invariant seenSources == Elems(Sources(mappings[..i]))
      invariant seenResults == Elems(Results(mappings[..i]))
      invariant forall p | p in errs :: p == MappingProblem
      invariant errs == [] <==>
        && |mappings| == |requested|
        && NoRepeats(Sources(mappings[..i])) && NoRepeats(Results(mappings[..i]))
    {
      var mapping := mappings[i];
      assert Sources(mappings[..i + 1]) == Sources(mappings[..i]) + [mapping.requested];
      assert Results(mappings[..i + 1]) == Results(mappings[..i]) + [mapping.resolved];
      SnocElems(Sources(mappings[..i]), mapping.requested);
      SnocElems(Results(mappings[..i]), mapping.resolved);
      if mapping.requested in seenSources {
        errs := errs + [MappingProblem];
      }
      if mapping.resolved in seenResults {
        errs := errs + [MappingProblem];
      }
      seenSources := seenSources + {mapping.requested};
      seenResults := seenResults + {mapping.resolved};
      i := i + 1;
    }
    assert mappings[..i] == mappings;
    if !(seenRoots <= seenResults) {
      errs := errs + [MappingProblem];
    }
  }

  // ----- Normalization taps and edges -----

  ghost function DefaultTaps(nodes: seq<Node>): set<TapId> {
    set k | 0 <= k < |nodes| && !IsCore(nodes[k].id) :: nodes[k].tap
  }

  /** normalizedClosureTaps, as a set. */
  ghost function EffectiveTaps(closure: ClosureResult): set<TapId> {
    match closure.taps
    case Some(taps) => Elems(taps)
    case None => DefaultTaps(closure.nodes)
  }

  ghost predicate TapsOk(closure: ClosureResult) {
    && (closure.taps.Some? ==> NoRepeats(closure.taps.value))
    && CORE_TAP !in EffectiveTaps(closure)
  }

  method CheckTaps(closure: ClosureResult) returns (errs: seq<Problem>, taps: set<TapId>)
    ensures errs == [] <==> TapsOk(closure)
    ensures forall p | p in errs :: p == TapProblem
    ensures taps == EffectiveTaps(closure)
  {
    errs, taps := [], {};
    match closure.taps
    case Some(list) =>
      var i := 0;
      while i < |list|
        invariant 0 <= i <= |list|
        invariant taps == Elems(list[..i])
        invariant forall p | p in errs :: p == TapProblem
        invariant errs == [] <==> NoRepeats(list[..i]) && CORE_TAP !in taps
      {
        assert list[..i + 1] == list[..i] + [list[i]];
        SnocElems(list[..i], list[i]);
        if list[i] == CORE_TAP {
          errs := errs + [TapProblem];
        }
        if list[i] in taps {
          errs := errs + [TapProblem];
        }
        taps := taps + {list[i]};
        i := i + 1;
      }
      assert list[..i] == list;
    case None =>
      taps := set node | node in closure.nodes && !IsCore(node.id) :: node.tap;
      assert taps == DefaultTaps(closure.nodes) by {
        forall t | t in taps ensures t in DefaultTaps(closure.nodes) {
          var node :| node in closure.nodes && !IsCore(node.id) && node.tap == t;
          var k :| 0 <= k < |closure.nodes| && closure.nodes[k] == node;
        }
      }
      if CORE_TAP in taps {
        errs := errs + [TapProblem];
      }
  }

  ghost predicate RequirementTapsOk(requirement: Requirement, taps: set<TapId>, ids: set<FormulaId>) {
    && (requirement.raw.Qualified? && !IsCore(requirement.raw.id) ==> requirement.raw.id.tap in taps)
    && requirement.id in ids
  }

  ghost predicate NodeTapsOk(node: Node, taps: set<TapId>, ids: set<FormulaId>) {
    && (!IsCore(node.id) ==> node.tap in taps)
    && forall k | 0 <= k < |node.dependencies| :: RequirementTapsOk(node.dependencies[k], taps, ids)
  }

  /** Every tap met is listed, and every dependency has a node. */
  ghost predicate EdgesOk(mappings: seq<RequestedMapping>, nodes: seq<Node>, taps: set<TapId>, ids: set<FormulaId>) {
    && (forall k | 0 <= k < |mappings| :: !IsCore(mappings[k].requested) ==> mappings[k].requested.tap in taps)
    && (forall k | 0 <= k < |nodes| :: NodeTapsOk(nodes[k], taps, ids))
  }

  method CheckNodeEdges(node: Node, taps: set<TapId>, nodes: map<FormulaId, Node>) returns (errs: seq<Problem>)
    ensures errs == [] <==> NodeTapsOk(node, taps, nodes.Keys)
    ensures forall p | p in errs :: p == EdgeProblem
  {
    errs := if !IsCore(node.id) && node.tap !in taps then [EdgeProblem] else [];
    var k := 0;
    while k < |node.dependencies|
      invariant 0 <= k <= |node.dependencies|
      invariant forall p | p in errs :: p == EdgeProblem
      invariant errs == [] <==>
        && (!IsCore(node.id) ==> node.tap in taps)
        && forall j | 0 <= j < k :: RequirementTapsOk(node.dependencies[j], taps, nodes.Keys)
    {
      var dependency := node.dependencies[k];
      if dependency.raw.Qualified? && !IsCore(dependency.raw.id) && dependency.raw.id.tap !in taps {
        errs := errs + [EdgeProblem];
      }
      if dependency.id !in nodes {
        errs := errs + [EdgeProblem];
      }
      k := k + 1;
    }
  }

  method CheckEdges(mappings: seq<RequestedMapping>, list: seq<Node>, taps: set<TapId>, nodes: map<FormulaId, Node>)
    returns (errs: seq<Problem>)
    ensures errs == [] <==> EdgesOk(mappings, list, taps, nodes.Keys)
    ensures forall p | p in errs :: p == EdgeProblem
  {
    errs := [];
    var i := 0;
    while i < |mappings|
      invariant 0 <= i <= |mappings|
      invariant forall p | p in errs :: p == EdgeProblem
      invariant errs == [] <==>
        forall k | 0 <= k < i :: !IsCore(mappings[k].requested) ==> mappings[k].requested.tap in taps
    {
      if !IsCore(mappings[i].requested) && mappings[i].requested.tap !in taps {
        errs := errs + [EdgeProblem];
      }
      i := i + 1;
    }
    ghost var sources := errs == [];
    i := 0;
    while i < |list|
      invariant 0 <= i <= |list|
      invariant forall p | p in errs :: p == EdgeProblem
      invariant errs == [] <==> sources && forall k | 0 <= k < i :: NodeTapsOk(list[k], taps, nodes.Keys)
    {
      var found := CheckNodeEdges(list[i], taps, nodes);
      errs := errs + found;
      i := i + 1;
    }
  }

  // ----- Install order -----

  /** `a` comes strictly before `b`. */
  ghost predicate Before(order: seq<FormulaId>, a: FormulaId, b: FormulaId) {
    exists i, j | 0 <= i < j < |order| :: order[i] == a && order[j] == b
  }

  ghost predicate NodePlaced(order: seq<FormulaId>, node: Node) {
    node.id in order && forall k | 0 <= k < |node.dependencies| :: Before(order, node.dependencies[k].id, node.id)
  }

  /** The order lists each node once, with every dependency strictly first. */
  ghost predicate OrderOk(order: seq<FormulaId>, nodes: seq<Node>, ids: set<FormulaId>) {
    && NoRepeats(order)
    && Elems(order) == ids
    && forall k | 0 <= k < |nodes| :: NodePlaced(order, nodes[k])
  }

  /** Go's position map of a repeat-free order. */
  ghost predicate PositionsOf(position: map<FormulaId, nat>, order: seq<FormulaId>) {
    && position.Keys == Elems(order)
    && (forall id | id in position :: position[id] < |order| && order[position[id]] == id)
  }

  lemma PositionsDecideBefore(position: map<FormulaId, nat>, order: seq<FormulaId>, a: FormulaId, b: FormulaId)
    requires NoRepeats(order) && PositionsOf(position, order) && b in position
    ensures Before(order, a, b) <==> a in position && position[a] < position[b]
  {
    if Before(order, a, b) {
      var i, j :| 0 <= i < j < |order| && order[i] == a && order[j] == b;
      assert a in Elems(order);
      assert order[position[a]] == order[i] && order[position[b]] == order[j];
    }
  }

  lemma NoPositions()
    ensures PositionsOf(map[], [])
  {
  }

  lemma PositionsSnoc(position: map<FormulaId, nat>, order: seq<FormulaId>, id: FormulaId)
    requires PositionsOf(position, order)
    ensures PositionsOf(position[id := |order|], order + [id])
    ensures id in position <==> id in order
  {
    SnocElems(order, id);
  }

  method ScanOrder(order: seq<FormulaId>, nodes: map<FormulaId, Node>)
    returns (errs: seq<Problem>, position: map<FormulaId, nat>)
    ensures errs == [] <==> NoRepeats(order) && Elems(order) == nodes.Keys
    ensures forall p | p in errs :: p == OrderProblem
    ensures PositionsOf(position, order)
  {
    hide PositionsOf;
    errs, position := if |order| != |nodes| then [OrderProblem] else [], map[];
    assert PositionsOf(position, []) by {
      NoPositions();
    }
    var i := 0;
    while i < |order|
      invariant 0 <= i <= |order|
      invariant forall p | p in errs :: p == OrderProblem
      invariant PositionsOf(position, order[..i])
      invariant errs == [] <==> |order| == |nodes| && NoRepeats(order[..i]) && Elems(order[..i]) <= nodes.Keys
    {
      var id := order[i];
      assert order[..i + 1] == order[..i] + [id];
      SnocElems(order[..i], id);
      PositionsSnoc(position, order[..i], id);
      if id !in nodes {
        errs := errs + [OrderProblem];
      }
      if id in position {
        errs := errs + [OrderProblem];
      }
      position := position[id := i];
      i := i + 1;
    }
    assert order[..i] == order;
    assert |nodes| == |nodes.Keys|;
    if errs == [] {
      FullListing(order, nodes.Keys);
    } else if NoRepeats(order) && Elems(order) == nodes.Keys {
      NoRepeatsSize(order);
    }
  }

  method CheckPlacement(order: seq<FormulaId>, position: map<FormulaId, nat>, node: Node)
    returns (errs: seq<Problem>)
    requires PositionsOf(position, order)
    ensures NoRepeats(order) ==> (errs == [] <==> NodePlaced(order, node))
    ensures errs == [] ==> PlacedAt(position, node)
    ensures forall p | p in errs :: p == OrderProblem
  {
    if node.id !in position {
      return [OrderProblem];
    }
    errs := [];
    var k := 0;
    while k < |node.dependencies|
      invariant 0 <= k <= |node.dependencies|
      invariant forall p | p in errs :: p == OrderProblem
      invariant errs == [] <==> forall j | 0 <= j < k ::
        node.dependencies[j].id in position && position[node.dependencies[j].id] < position[node.id]
    {
      var target := node.dependencies[k].id;
      if target !in position || position[target] >= position[node.id] {
        errs := errs + [OrderProblem];
      }
      k := k + 1;
    }
    if NoRepeats(order) {
      forall j | 0 <= j < |node.dependencies|
        ensures Before(order, node.dependencies[j].id, node.id) <==>
          node.dependencies[j].id in position && position[node.dependencies[j].id] < position[node.id]
      {
        PositionsDecideBefore(position, order, node.dependencies[j].id, node.id);
      }
    }
  }

  ghost function GraphEdges(nodes: map<FormulaId, Node>): Edges<FormulaId> {
    id => if id in nodes then set k | 0 <= k < |nodes[id].dependencies| :: nodes[id].dependencies[k].id else {}
  }

  ghost predicate LeadsDown(e: Edges<FormulaId>, position: map<FormulaId, nat>, x: FormulaId, y: FormulaId) {
    y in e(x) ==> x in position && y in position && position[y] < position[x]
  }

  /** Edges that lead to smaller positions leave no cycle. */
  lemma {:induction false} RankedPath(e: Edges<FormulaId>, position: map<FormulaId, nat>, p: seq<FormulaId>)
    requires IsPath(e, p) && |p| > 1
    requires forall x, y :: LeadsDown(e, position, x, y)
    ensures p[0] in position && p[|p| - 1] in position && position[p[|p| - 1]] < position[p[0]]
    decreases |p|
  {
    assert Step(e, p, 0);
    assert LeadsDown(e, position, p[0], p[1]);
    if |p| > 2 {
      SubPath(e, p, 1, |p|);
      RankedPath(e, position, p[1..|p|]);
    }
  }

  /** With no problem found, positions strictly decrease along every edge, so there is no cycle. */
  method CheckOrder(order: seq<FormulaId>, list: seq<Node>, nodes: map<FormulaId, Node>)
    returns (errs: seq<Problem>)
    requires nodes == NodeMap(list)
    ensures errs == [] <==> OrderOk(order, list, nodes.Keys)
    ensures forall p | p in errs :: p == OrderProblem
    ensures errs == [] ==> Acyclic(GraphEdges(nodes))
  {
    var position;
    errs, position := ScanOrder(order, nodes);
    ghost var listed := errs == [];
    var i := 0;
    while i < |list|
      invariant 0 <= i <= |list|
      invariant forall p | p in errs :: p == OrderProblem
      invariant listed ==> (errs == [] <==> forall k | 0 <= k < i :: NodePlaced(order, list[k]))
      invariant errs == [] ==> listed && forall k | 0 <= k < i :: PlacedAt(position, list[k])
      invariant !listed ==> errs != []
    {
      var found := CheckPlacement(order, position, list[i]);
      errs := errs + found;
      i := i + 1;
    }
    if errs == [] {
      PlacedIsAcyclic(position, list);
    }
  }

  ghost predicate PlacedAt(position: map<FormulaId, nat>, node: Node) {
    && node.id in position
    && forall k | 0 <= k < |node.dependencies| ::
         node.dependencies[k].id in position && position[node.dependencies[k].id] < position[node.id]
  }

  lemma PlacedIsAcyclic(position: map<FormulaId, nat>, list: seq<Node>)
    requires forall k | 0 <= k < |list| :: PlacedAt(position, list[k])
    ensures Acyclic(GraphEdges(NodeMap(list)))
  {
    var e := GraphEdges(NodeMap(list));
    NodeMapLists(list);
    forall x, y ensures LeadsDown(e, position, x, y) {
      if y in e(x) {
        var node := NodeMap(list)[x];
        var k :| 0 <= k < |list| && list[k] == node;
        assert PlacedAt(position, list[k]);
      }
    }
    forall c | IsCycle(e, c) ensures false {
      RankedPath(e, position, c);
    }
  }

  // ----- Reachability walk -----

  ghost function AllTargets(nodes: map<FormulaId, Node>): set<FormulaId> {
    set id, k | id in nodes && 0 <= k < |nodes[id].dependencies| :: nodes[id].dependencies[k].id
  }

  /** Grey nodes form the stack, a path; the successors of black nodes have been visited. */
  ghost predicate WalkConsistent(nodes: map<FormulaId, Node>, state: map<FormulaId, nat>, stack: seq<FormulaId>) {
    && (forall x :: DepthFirst.MarkOf(state, x) == 1 <==> x in stack)
    && (forall x | x in state :: state[x] == 1 || state[x] == 2)
    && (forall x | DepthFirst.MarkOf(state, x) == 2 :: GraphEdges(nodes)(x) <= state.Keys)
    && (stack != [] ==> IsPath(GraphEdges(nodes), stack))
  }

  lemma WalkPush(nodes: map<FormulaId, Node>, state: map<FormulaId, nat>, stack: seq<FormulaId>, id: FormulaId)
    requires WalkConsistent(nodes, state, stack) && id !in state
    requires stack != [] ==> id in GraphEdges(nodes)(stack[|stack| - 1])
    ensures WalkConsistent(nodes, state[id := 1], stack + [id])
    ensures id !in stack
  {
    assert DepthFirst.MarkOf(state, id) == 0;
    if stack != [] {
      PathSnoc(GraphEdges(nodes), stack, id);
    }
    assert forall x :: x in stack + [id] <==> x in stack || x == id;
    forall x | DepthFirst.MarkOf(state[id := 1], x) == 2 ensures GraphEdges(nodes)(x) <= state[id := 1].Keys {
      assert DepthFirst.MarkOf(state, x) == 2;
    }
  }

  lemma WalkMark(nodes: map<FormulaId, Node>, state: map<FormulaId, nat>, stack: seq<FormulaId>, id: FormulaId)
    requires WalkConsistent(nodes, state, stack)
    ensures DepthFirst.MarkOf(state, id) == 1 ==> id in stack && IsPath(GraphEdges(nodes), stack)
    ensures id in state <==> DepthFirst.MarkOf(state, id) == 1 || DepthFirst.MarkOf(state, id) == 2
  {
  }

  lemma WalkPop(nodes: map<FormulaId, Node>, state: map<FormulaId, nat>, stack: seq<FormulaId>, id: FormulaId)
    requires WalkConsistent(nodes, state, stack + [id]) && id !in stack
    requires GraphEdges(nodes)(id) <= state.Keys
    ensures WalkConsistent(nodes, state[id := 2], stack)
  {
    assert forall x :: x in stack + [id] <==> x in stack || x == id;
    assert DepthFirst.MarkOf(state, id) == 1;
    assert state[id := 2].Keys == state.Keys;
    if stack != [] {
      SubPath(GraphEdges(nodes), stack + [id], 0, |stack|);
      assert (stack + [id])[0..|stack|] == stack;
    }
    forall x | DepthFirst.MarkOf(state[id := 2], x) == 2 ensures GraphEdges(nodes)(x) <= state[id := 2].Keys {
      assert x == id || DepthFirst.MarkOf(state, x) == 2;
    }
  }

  ghost predicate CycleFrom(e: Edges<FormulaId>, id: FormulaId) {
    exists c :: IsCycle(e, c) && Reaches(e, id, c[0])
  }

  lemma CycleFromTrans(e: Edges<FormulaId>, a: FormulaId, b: FormulaId)
    requires Reaches(e, a, b) && CycleFrom(e, b)
    ensures CycleFrom(e, a)
  {
    var c :| IsCycle(e, c) && Reaches(e, b, c[0]);
    ReachesTrans(e, a, b, c[0]);
  }

  lemma StackCycle(e: Edges<FormulaId>, stack: seq<FormulaId>, id: FormulaId)
    requires IsPath(e, stack) && id in stack && id in e(stack[|stack| - 1])
    ensures CycleFrom(e, id)
  {
    var index :| 0 <= index < |stack| && stack[index] == id;
    SubPath(e, stack, index, |stack|);
    PathSnoc(e, stack[index..|stack|], id);
    ReachesSelf(e, id);
    assert IsCycle(e, stack[index..|stack|] + [id]);
  }

  /** The variables shared by the recursive visit closure; a cycle is reported and passed over. */
  class Walk {
    const nodes: map<FormulaId, Node>
    ghost const universe: set<FormulaId>
    var state: map<FormulaId, nat>
    var reachable: set<FormulaId>
    var errs: seq<Problem>
    ghost var stack: seq<FormulaId>

    constructor (nodes: map<FormulaId, Node>, roots: seq<FormulaId>)
      ensures Valid() && this.nodes == nodes && stack == [] && errs == [] && state == map[]
      ensures Elems(roots) <= universe
    {
      this.nodes := nodes;
      this.universe := nodes.Keys + AllTargets(nodes) + Elems(roots);
      this.state, this.reachable, this.errs, this.stack := map[], {}, [], [];
    }

    ghost predicate Valid()
      reads this
    {
      && AllTargets(nodes) <= universe
      && state.Keys <= universe
      && reachable == state.Keys
      && (forall p | p in errs :: p.CycleProblem?)
      && WalkConsistent(nodes, state, stack)
    }

    method Visit(id: FormulaId)
      requires Valid() && id in universe
      requires stack != [] ==> id in GraphEdges(nodes)(stack[|stack| - 1])
      modifies this`state, this`reachable, this`errs, this`stack
      ensures Valid() && stack == old(stack)
      ensures id in state && old(state).Keys <= state.Keys
      ensures forall x | x in state && x !in old(state) :: Reaches(GraphEdges(nodes), id, x)
      ensures errs != old(errs) ==> CycleFrom(GraphEdges(nodes), id)
      decreases universe - state.Keys, 1
    {
      hide Reaches, CycleFrom, WalkConsistent, GraphEdges, AllTargets, IsPath;
      WalkMark(nodes, state, stack, id);
      if DepthFirst.MarkOf(state, id) == 1 {
        StackCycle(GraphEdges(nodes), stack, id);
        errs := errs + [CycleProblem(id)];
        return;
      } else if DepthFirst.MarkOf(state, id) == 2 {
        reachable := reachable + {id};
        return;
      }
      VisitNew(id);
    }

    /** A node met for the first time. */
    method VisitNew(id: FormulaId)
      requires Valid() && id in universe && id !in state
      requires stack != [] ==> id in GraphEdges(nodes)(stack[|stack| - 1])
      modifies this`state, this`reachable, this`errs, this`stack
      ensures Valid() && stack == old(stack)
      ensures id in state && old(state).Keys <= state.Keys
      ensures forall x | x in state && x !in old(state) :: Reaches(GraphEdges(nodes), id, x)
      ensures errs != old(errs) ==> CycleFrom(GraphEdges(nodes), id)
      decreases universe - state.Keys, 0
    {
      hide Reaches, CycleFrom, WalkConsistent, GraphEdges, AllTargets, IsPath, DepthFirst.MarkOf;
      ReachesSelf(GraphEdges(nodes), id);
      WalkPush(nodes, state, stack, id);
      state := state[id := 1];
      stack := stack + [id];
      reachable := reachable + {id};
      assert id in universe - old(state).Keys && universe - state.Keys <= universe - old(state).Keys - {id};
      VisitDependencies(id);
      WalkPop(nodes, state, old(stack), id);
      stack := stack[..|stack| - 1];
      assert stack == old(stack);
      state := state[id := 2];
    }

    method VisitDependencies(id: FormulaId)
      requires Valid() && id in universe && stack != [] && stack[|stack| - 1] == id
      modifies this`state, this`reachable, this`errs, this`stack
      ensures Valid() && stack == old(stack)
      ensures old(state).Keys <= state.Keys && GraphEdges(nodes)(id) <= state.Keys
      ensures forall x | x in state && x !in old(state) :: Reaches(GraphEdges(nodes), id, x)
      ensures errs != old(errs) ==> CycleFrom(GraphEdges(nodes), id)
      decreases universe - state.Keys, 2
    {
      hide Reaches, CycleFrom, WalkConsistent;
      ghost var e := GraphEdges(nodes);
      var dependencies := if id in nodes then nodes[id].dependencies else [];
      ReachesSelf(e, id);
      var k := 0;
      while k < |dependencies|
        invariant 0 <= k <= |dependencies|
        invariant Valid() && stack == old(stack) && old(state).Keys <= state.Keys
        invariant forall j | 0 <= j < k :: dependencies[j].id in state
        invariant forall x | x in state && x !in old(state) :: Reaches(e, id, x)
        invariant errs != old(errs) ==> CycleFrom(e, id)
      {
        var target := dependencies[k].id;
        assert target in AllTargets(nodes) && target in e(id);
        ReachesStep(e, id, id, target);
        assert universe - state.Keys <= universe - old(state).Keys;
        ghost var before, reports := state.Keys, errs;
        Visit(target);
        if errs != reports {
          CycleFromTrans(e, id, target);
        }
        forall x | x in state && x !in old(state) ensures Reaches(e, id, x) {
          if x !in before {
            ReachesTrans(e, id, target, x);
          }
        }
        k := k + 1;
      }
    }

    /** Marks exactly what the roots reach, cycles or not; each report comes with a real cycle. */
    method VisitRoots(roots: seq<FormulaId>)
      requires Valid() && stack == [] && errs == [] && state == map[] && Elems(roots) <= universe
      modifies this`state, this`reachable, this`errs, this`stack
      ensures forall x :: x in reachable <==> ReachedFrom(GraphEdges(nodes), Elems(roots), x)
      ensures forall p | p in errs :: p.CycleProblem?
      ensures errs != [] ==> CycleReached(GraphEdges(nodes), Elems(roots))
    {
      ghost var e := GraphEdges(nodes);
      var k := 0;
      while k < |roots|
        invariant 0 <= k <= |roots|
        invariant Valid() && stack == []
        invariant forall j | 0 <= j < k :: roots[j] in state
        invariant forall x | x in state :: ReachedFrom(e, Elems(roots), x)
        invariant errs != [] ==> CycleReached(e, Elems(roots))
      {
        assert roots[k] in Elems(roots);
        ghost var before, reports := state.Keys, errs;
        Visit(roots[k]);
        if errs != reports {
          var c :| IsCycle(e, c) && Reaches(e, roots[k], c[0]);
        }
        forall x | x in state ensures ReachedFrom(e, Elems(roots), x) {
          if x !in before {
            assert Reaches(e, roots[k], x);
          }
        }
        k := k + 1;
      }
      assert Closed(e, reachable) by {
        assert forall x | x in state :: DepthFirst.MarkOf(state, x) == 2;
      }
      ClosedCoversReached(e, reachable, Elems(roots));
    }
  }

  // ----- The whole check -----

  ghost predicate IsEmpty(closure: ClosureResult) {
    && closure.requested == [] && closure.nodes == [] && closure.installOrder == []
    && (closure.mappings.Some? ==> closure.mappings.value == [])
    && (closure.taps.Some? ==> closure.taps.value == [])
  }

  ghost predicate AllReached(nodes: seq<Node>, requested: seq<FormulaId>) {
    forall k | 0 <= k < |nodes| :: ReachedFrom(GraphEdges(NodeMap(nodes)), Elems(requested), nodes[k].id)
  }

  /** Roots, mappings, taps and edges are present and match. */
  ghost predicate PartsOk(closure: ClosureResult) {
    && RootsOk(closure.requested, Ids(closure.nodes))
    && MappingsOk(EffectiveMappings(closure), closure.requested)
    && TapsOk(closure)
    && EdgesOk(EffectiveMappings(closure), closure.nodes, EffectiveTaps(closure), Ids(closure.nodes))
  }

  /** Everything the check stands for, except how each node is written. */
  ghost predicate StructureOk(closure: ClosureResult) {
    && |closure.nodes| <= MAX_CLOSURE_NODES
    && PartsOk(closure)
    && OrderOk(closure.installOrder, closure.nodes, Ids(closure.nodes))
    && AllReached(closure.nodes, closure.requested)
  }

  ghost predicate ClosureOk(closure: ClosureResult) {
    if closure.requested == [] || closure.nodes == [] then IsEmpty(closure)
    else NodesOk(closure.nodes) && StructureOk(closure)
  }

  /** Accepts exactly the closures with distinct identities and racks, roots and mappings that
      match, an order listing every node after its dependencies, and no unreached node. A cycle
      report never comes alone: the order is then wrong too. */
  method ValidateClosureResult(closure: ClosureResult) returns (errs: seq<Problem>)
    ensures errs == [] <==> ClosureOk(closure)
    ensures (exists p | p in errs :: p.CycleProblem?) ==> OrderProblem in errs
  {
    hide NodesOk, PartsOk, OrderOk, AllReached, Acyclic, NodeMap, GraphEdges;
    errs := if |closure.nodes| > MAX_CLOSURE_NODES then [SizeProblem] else [];
    if |closure.requested| == 0 || |closure.nodes| == 0 {
      if |closure.requested| != 0 || |closure.nodes| != 0 || |closure.installOrder| != 0
        || (closure.mappings.Some? && |closure.mappings.value| != 0)
        || (closure.taps.Some? && |closure.taps.value| != 0) {
        errs := errs + [EmptyProblem];
      }
      return;
    }
    NodeMapLists(closure.nodes);
    var nodeErrs, nodes := CheckNodes(closure.nodes);
    var partErrs := CheckParts(closure, nodes);
    var orderErrs := CheckOrder(closure.installOrder, closure.nodes, nodes);
    var walkErrs := CheckReachable(closure.nodes, nodes, closure.requested);
    assert forall p | p in errs + nodeErrs + partErrs :: !p.CycleProblem?;
    if orderErrs != [] {
      assert orderErrs[0] in orderErrs;
    }
    errs := errs + nodeErrs + partErrs + orderErrs + walkErrs;
  }

  method CheckParts(closure: ClosureResult, nodes: map<FormulaId, Node>) returns (errs: seq<Problem>)
    requires nodes.Keys == Ids(closure.nodes)
    ensures errs == [] <==> PartsOk(closure)
    ensures forall p | p in errs :: !p.CycleProblem?
  {
    var rootErrs, seenRoots := CheckRoots(closure.requested, nodes);
    var mappings := EffectiveMappings(closure);
    var mappingErrs := CheckMappings(mappings, closure.requested, seenRoots);
    var tapErrs, taps := CheckTaps(closure);
    var edgeErrs := CheckEdges(mappings, closure.nodes, taps, nodes);
    return rootErrs + mappingErrs + tapErrs + edgeErrs;
  }

  method CheckReachable(list: seq<Node>, nodes: map<FormulaId, Node>, requested: seq<FormulaId>)
    returns (errs: seq<Problem>)
    requires nodes == NodeMap(list)
    ensures Acyclic(GraphEdges(nodes)) ==> (errs == [] <==> AllReached(list, requested))
    ensures errs == [] ==> AllReached(list, requested)
    ensures forall p | p in errs :: p.CycleProblem? || p.UnreachableProblem?
    ensures (exists p | p in errs :: p.CycleProblem?) ==> !Acyclic(GraphEdges(nodes))
  {
    var walk := new Walk(nodes, requested);
    walk.VisitRoots(requested);
    errs := walk.errs;
    ghost var reports := errs;
    var k := 0;
    while k < |list|
      invariant 0 <= k <= |list|
      invariant forall p | p in errs :: p in reports || p.UnreachableProblem?
      invariant reports <= errs
      invariant errs == reports <==> forall j | 0 <= j < k :: list[j].id in walk.reachable
    {
      if list[k].id !in walk.reachable {
        errs := errs + [UnreachableProblem(list[k].id)];
      }
      k := k + 1;
    }
  }

  // ----- What acceptance means -----

  ghost function PlaceOf(order: seq<FormulaId>, id: FormulaId): (k: nat)
    requires id in order
    ensures k < |order| && order[k] == id
  {
    var k: nat :| k < |order| && order[k] == id;
    k
  }

  /** An order in which every dependency comes first rules out cycles. */
  lemma OrderIsAcyclic(order: seq<FormulaId>, list: seq<Node>, ids: set<FormulaId>)
    requires OrderOk(order, list, ids)
    ensures Acyclic(GraphEdges(NodeMap(list)))
  {
    hide Acyclic, GraphEdges, NodeMap;
    var position := map id | id in order :: PlaceOf(order, id);
    forall k | 0 <= k < |list| ensures PlacedAt(position, list[k]) {
      assert NodePlaced(order, list[k]);
      forall m | 0 <= m < |list[k].dependencies|
        ensures list[k].dependencies[m].id in position && position[list[k].dependencies[m].id] < position[list[k].id]
      {
        assert Before(order, list[k].dependencies[m].id, list[k].id);
      }
    }
    PlacedIsAcyclic(position, list);
  }

  lemma {:induction false} IdsSize(nodes: seq<Node>)
    requires forall i, j | 0 <= i < j < |nodes| :: nodes[i].id != nodes[j].id
    ensures |Ids(nodes)| == |nodes|
  {
    if nodes != [] {
      var front, last := nodes[..|nodes| - 1], nodes[|nodes| - 1];
      IdsSize(front);
      assert Ids(nodes) == Ids(front) + {last.id};
      assert last.id !in Ids(front);
    }
  }

  /** Both closures have the same dependencies for the identities they share. */
  ghost predicate AgreeOnEdges(a: ClosureResult, b: ClosureResult) {
    forall i, j | 0 <= i < |a.nodes| && 0 <= j < |b.nodes| && a.nodes[i].id == b.nodes[j].id ::
      forall k | 0 <= k < |a.nodes[i].dependencies| :: Depends(b.nodes[j], a.nodes[i].dependencies[k].id)
  }

  ghost predicate Depends(node: Node, id: FormulaId) {
    exists m | 0 <= m < |node.dependencies| :: node.dependencies[m].id == id
  }

  lemma AcceptedParts(closure: ClosureResult)
    requires ClosureOk(closure) && closure.nodes != []
    ensures NodesOk(closure.nodes) && RootsOk(closure.requested, Ids(closure.nodes))
    ensures AllReached(closure.nodes, closure.requested)
    ensures forall k | 0 <= k < |closure.nodes| ::
      NodeTapsOk(closure.nodes[k], EffectiveTaps(closure), Ids(closure.nodes))
  {
    hide NodeOk, NodeTapsOk, AllReached, OrderOk, MappingsOk;
  }

  /** The nodes of an accepted closure are determined by its roots and their dependencies: none
      is missing and none is there for nothing. */
  lemma AcceptedContains(a: ClosureResult, b: ClosureResult)
    requires ClosureOk(a) && ClosureOk(b) && a.nodes != [] && b.nodes != []
    requires Elems(a.requested) <= Elems(b.requested) && AgreeOnEdges(a, b)
    ensures Ids(a.nodes) <= Ids(b.nodes)
  {
    hide NodeOk, NodeMap, ClosureOk, ReachedFrom;
    AcceptedParts(a);
    AcceptedParts(b);
    var e, ids := GraphEdges(NodeMap(a.nodes)), Ids(b.nodes);
    forall x | x in ids ensures e(x) <= ids {
      if x in NodeMap(a.nodes) {
        SharedEdges(a, b, x);
      }
    }
    ClosedCoversReached(e, ids, Elems(a.requested));
  }

  lemma SharedEdges(a: ClosureResult, b: ClosureResult, x: FormulaId)
    requires NodesOk(a.nodes) && AgreeOnEdges(a, b) && x in NodeMap(a.nodes) && x in Ids(b.nodes)
    requires forall k | 0 <= k < |b.nodes| :: NodeTapsOk(b.nodes[k], EffectiveTaps(b), Ids(b.nodes))
    ensures GraphEdges(NodeMap(a.nodes))(x) <= Ids(b.nodes)
  {
    hide NodeOk, NodeMap, NodesOk;
    NodeMapLists(a.nodes);
    var node := NodeMap(a.nodes)[x];
    var i :| 0 <= i < |a.nodes| && a.nodes[i] == node;
    var j :| 0 <= j < |b.nodes| && b.nodes[j].id == x;
    forall k | 0 <= k < |node.dependencies| ensures node.dependencies[k].id in Ids(b.nodes) {
      assert Depends(b.nodes[j], a.nodes[i].dependencies[k].id);
      var m :| 0 <= m < |b.nodes[j].dependencies| && b.nodes[j].dependencies[m].id == a.nodes[i].dependencies[k].id;
      assert RequirementTapsOk(b.nodes[j].dependencies[m], EffectiveTaps(b), Ids(b.nodes));
    }
  }

  /** An accepted closure lists every tap it speaks of, and the requested roots are what its
      mappings lead to, one for each. */
  lemma AcceptedSpeaks(closure: ClosureResult)
    requires ClosureOk(closure) && closure.nodes != [] && closure.taps.Some? && closure.mappings.Some?
    ensures forall k | 0 <= k < |closure.nodes| && closure.nodes[k].id.tap != CORE_TAP ::
      closure.nodes[k].id.tap in closure.taps.value
    ensures forall k | 0 <= k < |closure.mappings.value| && closure.mappings.value[k].requested.tap != CORE_TAP ::
      closure.mappings.value[k].requested.tap in closure.taps.value
    ensures CORE_TAP !in closure.taps.value
    ensures Elems(closure.requested) ==
            set k | 0 <= k < |closure.mappings.value| :: closure.mappings.value[k].resolved
  {
    hide AllReached, OrderOk;
    var mappings := closure.mappings.value;
    forall k | 0 <= k < |closure.nodes| ensures NodeTapsOk(closure.nodes[k], EffectiveTaps(closure), Ids(closure.nodes))
      && closure.nodes[k].tap == closure.nodes[k].id.tap
    {
      assert NodeOk(closure.nodes[k]);
    }
    NoRepeatsSize(Results(mappings));
    NoRepeatsSize(closure.requested);
    SubsetIsAll(Elems(closure.requested), Elems(Results(mappings)));
    forall k | 0 <= k < |mappings| ensures mappings[k].resolved in Elems(closure.requested) {
      assert Results(mappings)[k] in Results(mappings);
    }
    forall id | id in Elems(closure.requested) ensures exists k | 0 <= k < |mappings| :: mappings[k].resolved == id {
      assert id in Elems(Results(mappings));
      var k :| 0 <= k < |Results(mappings)| && Results(mappings)[k] == id;
    }
  }

  /** A closure that leaves out its mappings stands for the one in which every root was asked for
      by itself, and one that leaves out its taps for the one that lists those of its nodes. */
  lemma DefaultsStandFor(closure: ClosureResult, mappings: seq<RequestedMapping>, taps: seq<TapId>)
    requires |mappings| == |closure.requested|
    requires forall i | 0 <= i < |mappings| ::
      mappings[i].requested == closure.requested[i] && mappings[i].resolved == closure.requested[i]
    requires NoRepeats(taps)
    requires forall tap :: tap in taps <==>
      exists k | 0 <= k < |closure.nodes| :: closure.nodes[k].id.tap != CORE_TAP && closure.nodes[k].tap == tap
    ensures ClosureOk(closure.(mappings := None)) <==> ClosureOk(closure.(mappings := Some(mappings)))
    ensures ClosureOk(closure.(taps := None)) <==> ClosureOk(closure.(taps := Some(taps)))
  {
    hide NodesOk, OrderOk, AllReached, EdgesOk, MappingsOk, RootsOk;
    assert EffectiveMappings(closure.(mappings := None)) == mappings;
    assert EffectiveTaps(closure.(taps := None)) == Elems(taps);
    assert EffectiveMappings(closure.(taps := None)) == EffectiveMappings(closure.(taps := Some(taps)));
    assert taps != [] ==> taps[0] in taps;
  }

  lemma SubsetIsAll<T>(a: set<T>, b: set<T>)
    requires a <= b && |a| == |b|
    ensures a == b
  {
    assert |b - a| == |b| - |a|;
  }

  /** An accepted closure with nodes has no cycle, and an install order as long as its node list,
      so that it is a permutation of the nodes. */
  lemma AcceptedShape(closure: ClosureResult)
    requires ClosureOk(closure) && closure.nodes != []
    ensures Acyclic(GraphEdges(NodeMap(closure.nodes)))
    ensures |closure.installOrder| == |closure.nodes|
  {
    hide Acyclic, AllReached, NodeOk, PartsOk;
    OrderIsAcyclic(closure.installOrder, closure.nodes, Ids(closure.nodes));
    IdsSize(closure.nodes);
    NoRepeatsSize(closure.installOrder);
  }
}
