/** Resolve of internal/catalogresolver/resolver.go: from requested roots to a closure. */
module Resolution {
  import opened Identity
  import opened Catalog
  import opened Wrappers
  import opened Sorting
  import opened Digraph
  import opened Listing
  import opened TapCatalogs
  import opened Lookups
  import InstallOrder
  import ClosureCheck

  // ----- What a query means -----

  /** One platform and one set of resolved roots. */
  datatype Query = Query(r: Resolver, platform: Platform, roots: set<FormulaId>)

  ghost function OpenedAt(q: Query, id: FormulaId): Opened {
    match LookupExact(q.r, id)
    case Failed(_) => Shut
    case Found(canonical, source) =>
      if canonical == id then Open(q.r, source, id, q.platform, id in q.roots) else Shut
  }

  ghost function TargetLookup(q: Query, id: FormulaId, k: int): Lookup
    requires OpenedAt(q, id).Opened? && 0 <= k < |OpenedAt(q, id).wanted|
  {
    Normalize(q.r, id.tap, OpenedAt(q, id).wanted[k].raw)
  }

  ghost function Targets(q: Query, id: FormulaId): set<FormulaId> {
    if OpenedAt(q, id).Opened? then
      set k | 0 <= k < |OpenedAt(q, id).wanted| && TargetLookup(q, id, k).Found? :: TargetLookup(q, id, k).id
    else {}
  }

  ghost function QueryEdges(q: Query): Edges<FormulaId> { id => Targets(q, id) }

  ghost predicate Needed(q: Query, id: FormulaId) { ReachedFrom(QueryEdges(q), q.roots, id) }

  /** The taps touched by the dependencies of a node. */
  ghost function WantedTaps(q: Query, id: FormulaId): set<TapId> {
    if OpenedAt(q, id).Opened? then TapsOfWanted(q.r, id, OpenedAt(q, id).wanted) else {}
  }

  ghost function TapsOfWanted(r: Resolver, id: FormulaId, wanted: seq<Wanted>): set<TapId> {
    set k, t | 0 <= k < |wanted| && t in NormalizeTaps(r, id.tap, wanted[k].raw) :: t
  }

  ghost function RootTaps(r: Resolver, raws: seq<FormulaId>): set<TapId> {
    set k, t | 0 <= k < |raws| && t in LookupTaps(r, raws[k]) :: t
  }

  ghost function TapsAt(q: Query, id: FormulaId): set<TapId> { LookupTaps(q.r, id) + WantedTaps(q, id) }

  ghost function NodeTaps(q: Query, ids: set<FormulaId>): set<TapId> {
    set id, t | id in ids && t in TapsAt(q, id) :: t
  }

  ghost predicate AllFound(r: Resolver, raws: seq<FormulaId>) {
    forall k | 0 <= k < |raws| :: LookupExact(r, raws[k]).Found?
  }

  ghost function FoundIds(r: Resolver, raws: seq<FormulaId>): seq<FormulaId>
    requires AllFound(r, raws)
  {
    seq(|raws|, k requires 0 <= k < |raws| => LookupExact(r, raws[k]).id)
  }

  ghost function QueryOf(r: Resolver, raws: seq<FormulaId>, platform: Platform): Query
    requires AllFound(r, raws)
  {
    Query(r, platform, Elems(FoundIds(r, raws)))
  }

  predicate RequirementLe(a: Requirement, b: Requirement) { IdLe(a.id, b.id) }

  function RequirementFor(raw: Spelling, id: FormulaId): Requirement {
    Requirement(raw, id, "", 0, 0, true)
  }

  /** `wanted` all normalize, each to the identity the signed document claims, if any. */
  ghost predicate WantedResolve(r: Resolver, id: FormulaId, wanted: seq<Wanted>) {
    forall k | 0 <= k < |wanted| ::
      && Normalize(r, id.tap, wanted[k].raw).Found?
      && (wanted[k].signed.Some? ==> wanted[k].signed.value == Normalize(r, id.tap, wanted[k].raw).id)
  }

  ghost function RequirementsOf(r: Resolver, id: FormulaId, wanted: seq<Wanted>): seq<Requirement>
    requires WantedResolve(r, id, wanted)
  {
    seq(|wanted|, k requires 0 <= k < |wanted| =>
      RequirementFor(wanted[k].raw, Normalize(r, id.tap, wanted[k].raw).id))
  }

  ghost predicate NodeResolves(q: Query, id: FormulaId) {
    OpenedAt(q, id).Opened? && WantedResolve(q.r, id, OpenedAt(q, id).wanted)
  }

  /** The node the closure holds for an identity. */
  ghost function NodeOf(q: Query, id: FormulaId): Node
    requires NodeResolves(q, id)
  {
    OpenedAt(q, id).node.(dependencies := Sort(RequirementsOf(q.r, id, OpenedAt(q, id).wanted), RequirementLe))
  }

  lemma OpenKeepsIdentity(r: Resolver, source: Source, id: FormulaId, platform: Platform, requestedRoot: bool)
    ensures var o := Open(r, source, id, platform, requestedRoot); o.Opened? ==> o.node.id == id && o.node.tap == id.tap
  {
  }

  lemma NodeOfIdentity(q: Query, id: FormulaId)
    requires NodeResolves(q, id)
    ensures NodeOf(q, id).id == id && NodeOf(q, id).tap == id.tap
  {
    OpenKeepsIdentity(q.r, LookupExact(q.r, id).source, id, q.platform, id in q.roots);
  }

  ghost function DependencyIds(node: Node): set<FormulaId> {
    set k | 0 <= k < |node.dependencies| :: node.dependencies[k].id
  }

  /** The sorted dependencies name exactly the targets. */
  lemma DependenciesAreTargets(q: Query, id: FormulaId)
    requires NodeResolves(q, id)
    ensures DependencyIds(NodeOf(q, id)) == Targets(q, id)
    ensures forall d | d in NodeOf(q, id).dependencies :: d in RequirementsOf(q.r, id, OpenedAt(q, id).wanted)
  {
    hide Sort, Open, LookupExact, Normalize;
    var list := RequirementsOf(q.r, id, OpenedAt(q, id).wanted);
    var sorted := Sort(list, RequirementLe);
    SortPermutes(list, RequirementLe);
    forall x | x in DependencyIds(NodeOf(q, id)) ensures x in Targets(q, id) {
      var k :| 0 <= k < |sorted| && sorted[k].id == x;
      assert sorted[k] in list;
      var j :| 0 <= j < |list| && list[j] == sorted[k];
      assert TargetLookup(q, id, j).id == x;
    }
    forall x | x in Targets(q, id) ensures x in DependencyIds(NodeOf(q, id)) {
      var k :| 0 <= k < |OpenedAt(q, id).wanted| && TargetLookup(q, id, k).Found? && TargetLookup(q, id, k).id == x;
      assert list[k] in list && list[k] in sorted;
      var j :| 0 <= j < |sorted| && sorted[j] == list[k];
    }
  }

  // ----- Errors -----

  datatype ResolveError =
    | NoRoots
    | RootFailed(k: nat, error: LookupError)
    | DuplicateRoot(i: nat, j: nat)
    | TooManyNodes
    | NodeLookupFailed(id: FormulaId, error: LookupError)
    | NotItself(id: FormulaId, canonical: FormulaId)
    | NodeShut(id: FormulaId)
    | DependencyFailed(id: FormulaId, k: nat, error: LookupError)
    | SignedMismatch(id: FormulaId, k: nat)
    | RackCollision(a: FormulaId, b: FormulaId)
    | Cyclic(cycle: seq<FormulaId>)
    | InvalidNode

  datatype ResolveResult = Resolved(closure: ClosureResult) | Unresolved(error: ResolveError)

  ghost predicate ManyNeeded(q: Query) {
    exists ids: set<FormulaId> :: |ids| > MAX_CLOSURE_NODES && AllNeeded(q, ids)
  }

  ghost predicate AllNeeded(q: Query, ids: set<FormulaId>) {
    forall id | id in ids :: Needed(q, id)
  }

  /** What each error met while expanding says about the query. */
  ghost predicate QueryFault(q: Query, error: ResolveError) {
    match error
    case TooManyNodes => ManyNeeded(q)
    case NodeLookupFailed(id, e) => Needed(q, id) && LookupExact(q.r, id) == Failed(e)
    case NotItself(id, canonical) =>
      Needed(q, id) && canonical != id && LookupExact(q.r, id).Found? && LookupExact(q.r, id).id == canonical
    case NodeShut(id) => Needed(q, id) && OpenedAt(q, id).Shut?
    case DependencyFailed(id, k, e) =>
      && Needed(q, id) && OpenedAt(q, id).Opened? && k < |OpenedAt(q, id).wanted|
      && TargetLookup(q, id, k) == Failed(e)
    case SignedMismatch(id, k) =>
      && Needed(q, id) && OpenedAt(q, id).Opened? && k < |OpenedAt(q, id).wanted|
      && TargetLookup(q, id, k).Found? && OpenedAt(q, id).wanted[k].signed.Some?
      && OpenedAt(q, id).wanted[k].signed.value != TargetLookup(q, id, k).id
    case RackCollision(a, b) =>
      && a != b && Needed(q, a) && Needed(q, b) && NodeResolves(q, a) && NodeResolves(q, b)
      && NodeOf(q, a).name == NodeOf(q, b).name
    case Cyclic(cycle) => IsCycle(QueryEdges(q), cycle) && Needed(q, cycle[0])
    case InvalidNode => exists id :: Needed(q, id) && NodeResolves(q, id) && !ClosureCheck.NodeOk(NodeOf(q, id))
    case _ => false
  }

  /** What every error says about the request. */
  ghost predicate Fault(r: Resolver, raws: seq<FormulaId>, platform: Platform, error: ResolveError) {
    match error
    case NoRoots => raws == []
    case RootFailed(k, e) => k < |raws| && LookupExact(r, raws[k]) == Failed(e)
    case DuplicateRoot(i, j) =>
      && i < j < |raws| && LookupExact(r, raws[i]).Found? && LookupExact(r, raws[j]).Found?
      && LookupExact(r, raws[i]).id == LookupExact(r, raws[j]).id
    case _ => AllFound(r, raws) && QueryFault(QueryOf(r, raws, platform), error)
  }

  // ----- Roots -----

  lemma RootsEmpty(r: Resolver, raws: seq<FormulaId>)
    requires raws == []
    ensures AllFound(r, raws) && FoundIds(r, raws) == [] && RootTaps(r, raws) == {}
  {
  }

  lemma RootsSnoc(r: Resolver, raws: seq<FormulaId>, raw: FormulaId)
    requires AllFound(r, raws) && LookupExact(r, raw).Found?
    ensures AllFound(r, raws + [raw])
    ensures FoundIds(r, raws + [raw]) == FoundIds(r, raws) + [LookupExact(r, raw).id]
    ensures RootTaps(r, raws + [raw]) == RootTaps(r, raws) + LookupTaps(r, raw)
    ensures forall k | 0 <= k < |raws| :: FoundIds(r, raws)[k] == LookupExact(r, raws[k]).id
  {
    hide LookupExact, LookupTaps;
    var longer := raws + [raw];
    assert forall k | 0 <= k < |raws| :: longer[k] == raws[k];
    assert longer[|raws|] == raw;
  }

  method ResolveRoots(r: Resolver, raws: seq<FormulaId>)
    returns (error: Option<ResolveError>, requested: seq<FormulaId>, used: set<TapId>)
    ensures error.Some? ==>
      Fault(r, raws, Amd64, error.value) && (error.value.RootFailed? || error.value.DuplicateRoot?)
    ensures error.None? ==>
      AllFound(r, raws) && requested == FoundIds(r, raws) && NoRepeats(requested) && used == RootTaps(r, raws)
  {
    hide LookupExact, LookupTaps, RootTaps, FoundIds;
    requested, used := [], {};
    RootsEmpty(r, raws[..0]);
    var seenRoots: map<FormulaId, nat> := map[];
    var i := 0;
    while i < |raws|
      invariant 0 <= i <= |raws|
      invariant AllFound(r, raws[..i]) && requested == FoundIds(r, raws[..i])
      invariant |requested| == i && seenRoots.Keys == Elems(requested)
      invariant forall id | id in seenRoots :: seenRoots[id] < i && requested[seenRoots[id]] == id
      invariant NoRepeats(requested)
      invariant used == RootTaps(r, raws[..i])
    {
      var found;
      found, used := LookupFormula(r, raws[i], used);
      if found.Failed? {
        return Some(RootFailed(i, found.error)), [], {};
      }
      assert raws[..i + 1] == raws[..i] + [raws[i]];
      RootsSnoc(r, raws[..i], raws[i]);
      SnocElems(requested, found.id);
      if found.id in seenRoots {
        return Some(DuplicateRoot(seenRoots[found.id], i)), [], {};
      }
      seenRoots := seenRoots[found.id := i];
      requested := requested + [found.id];
      i := i + 1;
    }
    assert raws[..i] == raws;
    return None, requested, used;
  }

  // ----- Expansion -----

  datatype WantedFault = LookupFault(k: nat, error: LookupError) | ClaimFault(k: nat)

  ghost predicate FaultAt(r: Resolver, id: FormulaId, wanted: seq<Wanted>, fault: WantedFault) {
    && fault.k < |wanted|
    && match fault
       case LookupFault(k, error) => Normalize(r, id.tap, wanted[k].raw) == Failed(error)
       case ClaimFault(k) =>
         && Normalize(r, id.tap, wanted[k].raw).Found? && wanted[k].signed.Some?
         && wanted[k].signed.value != Normalize(r, id.tap, wanted[k].raw).id
  }

  /** The loop over the dependencies of one node. */
  method NormalizeAll(r: Resolver, id: FormulaId, wanted: seq<Wanted>, used: set<TapId>)
    returns (fault: Option<WantedFault>, requirements: seq<Requirement>, used': set<TapId>)
    ensures fault.None? ==>
      && WantedResolve(r, id, wanted) && requirements == RequirementsOf(r, id, wanted)
      && used' == used + TapsOfWanted(r, id, wanted)
    ensures fault.Some? ==> FaultAt(r, id, wanted, fault.value)
  {
    hide Normalize, NormalizeTaps;
    requirements, used' := [], used;
    var i := 0;
    while i < |wanted|
      invariant 0 <= i <= |wanted|
      invariant WantedResolve(r, id, wanted[..i]) && requirements == RequirementsOf(r, id, wanted[..i])
      invariant used' == used + TapsOfWanted(r, id, wanted[..i])
    {
      assert wanted[..i + 1] == wanted[..i] + [wanted[i]];
      var found;
      found, used' := NormalizeDependency(r, id.tap, wanted[i].raw, used');
      if found.Failed? {
        return Some(LookupFault(i, found.error)), [], used';
      }
      if wanted[i].signed.Some? && wanted[i].signed.value != found.id {
        return Some(ClaimFault(i)), [], used';
      }
      WantedSnoc(r, id, wanted[..i], wanted[i]);
      requirements := requirements + [RequirementFor(wanted[i].raw, found.id)];
      i := i + 1;
    }
    assert wanted[..i] == wanted;
    return None, requirements, used';
  }

  lemma WantedSnoc(r: Resolver, id: FormulaId, wanted: seq<Wanted>, w: Wanted)
    requires WantedResolve(r, id, wanted) && Normalize(r, id.tap, w.raw).Found?
    requires w.signed.Some? ==> w.signed.value == Normalize(r, id.tap, w.raw).id
    ensures WantedResolve(r, id, wanted + [w])
    ensures RequirementsOf(r, id, wanted + [w])
         == RequirementsOf(r, id, wanted) + [RequirementFor(w.raw, Normalize(r, id.tap, w.raw).id)]
    ensures TapsOfWanted(r, id, wanted + [w]) == TapsOfWanted(r, id, wanted) + NormalizeTaps(r, id.tap, w.raw)
  {
    hide Normalize, NormalizeTaps;
    var longer := wanted + [w];
    assert forall k | 0 <= k < |wanted| :: longer[k] == wanted[k];
    assert longer[|wanted|] == w;
  }

  /** The dependencies not yet in the closure, in order. */
  function Pending(requirements: seq<Requirement>, nodes: map<FormulaId, Node>): seq<FormulaId> {
    if requirements == [] then []
    else (if requirements[0].id in nodes then [] else [requirements[0].id]) + Pending(requirements[1..], nodes)
  }

  lemma {:induction false} PendingLists(requirements: seq<Requirement>, nodes: map<FormulaId, Node>)
    ensures forall x :: x in Pending(requirements, nodes) <==>
      x !in nodes && exists k | 0 <= k < |requirements| :: requirements[k].id == x
  {
    if requirements != [] {
      PendingLists(requirements[1..], nodes);
      forall x
        ensures x in Pending(requirements, nodes) <==>
          x !in nodes && exists k | 0 <= k < |requirements| :: requirements[k].id == x
      {
        if x in Pending(requirements[1..], nodes) {
          var k :| 0 <= k < |requirements[1..]| && requirements[1..][k].id == x;
          assert requirements[k + 1].id == x;
        }
        if k :| 0 <= k < |requirements| && requirements[k].id == x {
          assert k > 0 ==> requirements[1..][k - 1].id == x;
        }
      }
    }
  }

  /** Every node in hand is the query's node, and all that is known to be needed is in hand
      or in the queue. */
  ghost predicate Expanding(q: Query, nodes: map<FormulaId, Node>, queue: seq<FormulaId>) {
    && (forall id | id in nodes :: NodeResolves(q, id) && nodes[id] == NodeOf(q, id) && Needed(q, id))
    && (forall id | id in queue :: Needed(q, id))
    && q.roots <= nodes.Keys + Elems(queue)
    && (forall id | id in nodes :: Targets(q, id) <= nodes.Keys + Elems(queue))
  }

  ghost predicate GraphMatches(graph: InstallOrder.DependencyGraph, nodes: map<FormulaId, Node>) {
    && graph.Keys <= nodes.Keys
    && forall id | id in nodes :: nodes[id].dependencies == if id in graph then graph[id] else []
  }

  lemma QueueStart(q: Query, requested: seq<FormulaId>)
    requires q.roots == Elems(requested)
    ensures Expanding(q, map[], requested)
  {
    forall id | id in requested ensures Needed(q, id) {
      ReachedFromRoot(QueryEdges(q), q.roots, id);
    }
  }

  lemma QueueSkip(q: Query, nodes: map<FormulaId, Node>, queue: seq<FormulaId>)
    requires Expanding(q, nodes, queue) && queue != [] && queue[0] in nodes
    ensures Expanding(q, nodes, queue[1..])
  {
    hide Needed, Targets, NodeOf, NodeResolves;
    assert queue == [queue[0]] + queue[1..];
    assert Elems(queue) == {queue[0]} + Elems(queue[1..]);
  }

  lemma QueueGrow(q: Query, nodes: map<FormulaId, Node>, queue: seq<FormulaId>, pending: seq<FormulaId>)
    requires Expanding(q, nodes, queue) && queue != [] && NodeResolves(q, queue[0])
    requires Targets(q, queue[0]) <= nodes.Keys + Elems(pending)
    requires forall x | x in pending :: Needed(q, x)
    ensures Expanding(q, nodes[queue[0] := NodeOf(q, queue[0])], queue[1..] + pending)
  {
    hide Needed, Targets, NodeOf, NodeResolves;
    var id := queue[0];
    assert queue == [id] + queue[1..];
    assert Elems(queue) == {id} + Elems(queue[1..]);
    var queue', nodes' := queue[1..] + pending, nodes[id := NodeOf(q, id)];
    assert Elems(queue') == Elems(queue[1..]) + Elems(pending);
    assert nodes.Keys + Elems(queue) <= nodes'.Keys + Elems(queue');
  }

  lemma PendingTargets(q: Query, nodes: map<FormulaId, Node>, id: FormulaId, requirements: seq<Requirement>)
    requires NodeResolves(q, id) && requirements == RequirementsOf(q.r, id, OpenedAt(q, id).wanted) && Needed(q, id)
    ensures Targets(q, id) <= nodes.Keys + Elems(Pending(requirements, nodes))
    ensures forall x | x in Pending(requirements, nodes) :: Needed(q, x)
  {
    PendingLists(requirements, nodes);
    forall x | x in Targets(q, id) ensures x in nodes || x in Pending(requirements, nodes) {
      var k :| 0 <= k < |OpenedAt(q, id).wanted| && TargetLookup(q, id, k).Found? && TargetLookup(q, id, k).id == x;
      assert requirements[k].id == x;
    }
    forall x | x in Pending(requirements, nodes) ensures Needed(q, x) {
      var k :| 0 <= k < |requirements| && requirements[k].id == x;
      assert TargetLookup(q, id, k).id == x;
      assert x in QueryEdges(q)(id);
      ReachedFromStep(QueryEdges(q), q.roots, id, x);
    }
  }

  lemma QueueEnd(q: Query, nodes: map<FormulaId, Node>)
    requires Expanding(q, nodes, [])
    ensures forall id :: id in nodes <==> Needed(q, id)
  {
    assert Closed(QueryEdges(q), nodes.Keys);
    ClosedCoversReached(QueryEdges(q), nodes.Keys, q.roots);
  }

  lemma TapsGrow(q: Query, ids: set<FormulaId>, id: FormulaId)
    ensures NodeTaps(q, ids + {id}) == NodeTaps(q, ids) + TapsAt(q, id)
  {
    hide TapsAt;
    forall t | t in NodeTaps(q, ids + {id}) ensures t in NodeTaps(q, ids) + TapsAt(q, id) {
      var x :| x in ids + {id} && t in TapsAt(q, x);
    }
    forall t | t in NodeTaps(q, ids) + TapsAt(q, id) ensures t in NodeTaps(q, ids + {id}) {
      if t in NodeTaps(q, ids) {
        var x :| x in ids && t in TapsAt(q, x);
        assert x in ids + {id};
      } else {
        assert id in ids + {id};
      }
    }
  }

  lemma GraphGrow(graph: InstallOrder.DependencyGraph, nodes: map<FormulaId, Node>, id: FormulaId, node: Node)
    requires GraphMatches(graph, nodes) && id !in nodes
    ensures GraphMatches(if node.dependencies != [] then graph[id := node.dependencies] else graph, nodes[id := node])
  {
  }

  lemma TooMany(q: Query, nodes: map<FormulaId, Node>, queue: seq<FormulaId>)
    requires Expanding(q, nodes, queue) && queue != [] && queue[0] !in nodes && |nodes| >= MAX_CLOSURE_NODES
    ensures ManyNeeded(q)
  {
    hide Needed, NodeOf, NodeResolves, Targets;
    var ids := nodes.Keys + {queue[0]};
    assert |ids| == |nodes.Keys| + 1 == |nodes| + 1;
  }

  /** One turn of the queue loop for an identity not yet in the closure. */
  method ExpandOne(q: Query, id: FormulaId, nodes: map<FormulaId, Node>, used: set<TapId>)
    returns (error: Option<ResolveError>, node: Node, pending: seq<FormulaId>, used': set<TapId>)
    requires Needed(q, id)
    ensures error.Some? ==> QueryFault(q, error.value)
    ensures error.None? ==>
      && NodeResolves(q, id) && node == NodeOf(q, id)
      && Targets(q, id) <= nodes.Keys + Elems(pending) && (forall x | x in pending :: Needed(q, x))
      && used' == used + TapsAt(q, id)
  {
    hide Normalize, NormalizeTaps, LookupTaps, Needed, Targets, Open, LookupExact;
    node := Node(id, "", "", "", "", 0, "", 0, 0, "", false, []);
    var found;
    found, used' := LookupFormula(q.r, id, used);
    if found.Failed? {
      return Some(NodeLookupFailed(id, found.error)), node, [], used';
    }
    if found.id != id {
      return Some(NotItself(id, found.id)), node, [], used';
    }
    var expansion := NodeAndDependencies(q.r, found.source, id, q.platform, id in q.roots);
    assert expansion == OpenedAt(q, id);
    if expansion.Shut? {
      return Some(NodeShut(id)), node, [], used';
    }
    var fault, requirements;
    fault, requirements, used' := NormalizeAll(q.r, id, expansion.wanted, used');
    if fault.Some? {
      match fault.value
      case LookupFault(k, e) => return Some(DependencyFailed(id, k, e)), node, [], used';
      case ClaimFault(k) => return Some(SignedMismatch(id, k)), node, [], used';
    }
    PendingTargets(q, nodes, id, requirements);
    node := expansion.node.(dependencies := Sort(requirements, RequirementLe));
    return None, node, Pending(requirements, nodes), used';
  }

  /** The queue loop: the nodes in hand at the end are exactly the identities needed. */
  method Expand(q: Query, requested: seq<FormulaId>, rootTaps: set<TapId>)
    returns (error: Option<ResolveError>, nodes: map<FormulaId, Node>,
             graph: InstallOrder.DependencyGraph, used: set<TapId>)
    requires q.roots == Elems(requested)
    ensures error.Some? ==> QueryFault(q, error.value)
    ensures error.None? ==>
      && |nodes| <= MAX_CLOSURE_NODES
      && (forall id :: id in nodes <==> Needed(q, id))
      && (forall id | id in nodes :: NodeResolves(q, id) && nodes[id] == NodeOf(q, id))
      && GraphMatches(graph, nodes)
      && used == rootTaps + NodeTaps(q, nodes.Keys)
  {
    hide Expanding, Needed, NodeOf, NodeResolves, Targets, ManyNeeded, TapsAt, NodeTaps, GraphMatches;
    nodes, graph, used := map[], map[], rootTaps;
    var queue := requested;
    QueueStart(q, requested);
    NoTapsYet(q);
    NoEdgesYet();
    assert nodes.Keys == {};
    while queue != []
      invariant |nodes| <= MAX_CLOSURE_NODES
      invariant Expanding(q, nodes, queue)
      invariant GraphMatches(graph, nodes)
      invariant used == rootTaps + NodeTaps(q, nodes.Keys)
      decreases MAX_CLOSURE_NODES - |nodes|, |queue|
    {
      var id := queue[0];
      if id in nodes {
        QueueSkip(q, nodes, queue);
        queue := queue[1..];
        continue;
      }
      if |nodes| >= MAX_CLOSURE_NODES {
        TooMany(q, nodes, queue);
        return Some(TooManyNodes), nodes, graph, used;
      }
      HeadNeeded(q, nodes, queue);
      var fault, node, pending;
      fault, node, pending, used := ExpandOne(q, id, nodes, used);
      if fault.Some? {
        return fault, nodes, graph, used;
      }
      QueueGrow(q, nodes, queue, pending);
      TapsGrow(q, nodes.Keys, id);
      assert nodes[id := node].Keys == nodes.Keys + {id};
      GraphGrow(graph, nodes, id, node);
      if node.dependencies != [] {
        graph := graph[id := node.dependencies];
      }
      nodes := nodes[id := node];
      queue := queue[1..] + pending;
    }
    QueueEnd(q, nodes);
    InHand(q, nodes);
    return None, nodes, graph, used;
  }

  lemma NoEdgesYet()
    ensures GraphMatches(map[], map[])
  {
  }

  lemma NoTapsYet(q: Query)
    ensures NodeTaps(q, {}) == {}
  {
  }

  lemma HeadNeeded(q: Query, nodes: map<FormulaId, Node>, queue: seq<FormulaId>)
    requires Expanding(q, nodes, queue) && queue != []
    ensures Needed(q, queue[0])
  {
  }

  lemma InHand(q: Query, nodes: map<FormulaId, Node>)
    requires Expanding(q, nodes, [])
    ensures forall id | id in nodes :: NodeResolves(q, id) && nodes[id] == NodeOf(q, id)
  {
  }

  // ----- Assembly -----

  /** validateRackCollisions */
  method CheckRacks(nodes: map<FormulaId, Node>) returns (clash: Option<(FormulaId, FormulaId)>)
    ensures clash.Some? ==>
      && clash.value.0 in nodes && clash.value.1 in nodes && clash.value.0 != clash.value.1
      && nodes[clash.value.0].name == nodes[clash.value.1].name
    ensures clash.None? ==> forall a, b | a in nodes && b in nodes && a != b :: nodes[a].name != nodes[b].name
  {
    var byRack: map<string, FormulaId> := map[];
    var left := nodes.Keys;
    while left != {}
      invariant left <= nodes.Keys
      invariant forall name | name in byRack :: byRack[name] in nodes && nodes[byRack[name]].name == name
      invariant forall id | id in nodes && id !in left :: nodes[id].name in byRack && byRack[nodes[id].name] == id
      decreases left
    {
      var id :| id in left;
      var name := nodes[id].name;
      if name in byRack && byRack[name] != id {
        return Some((byRack[name], id));
      }
      byRack := byRack[name := id];
      left := left - {id};
    }
    return None;
  }

  /** The nodes of the map in the order of their identities. */
  method ListNodes(nodes: map<FormulaId, Node>) returns (list: seq<Node>)
    requires forall id | id in nodes :: nodes[id].id == id
    ensures SortedBy(list, NodeLe)
    ensures |list| == |nodes|
    ensures ClosureCheck.Ids(list) == nodes.Keys
    ensures forall k | 0 <= k < |list| :: list[k].id in nodes && list[k] == nodes[list[k].id]
    ensures forall i, j | 0 <= i < j < |list| :: list[i].id != list[j].id
  {
    var ids := ListSet(nodes.Keys);
    assert forall k | 0 <= k < |ids| :: ids[k] in Elems(ids);
    var unsorted := seq(|ids|, k requires 0 <= k < |ids| => nodes[ids[k]]);
    list := Sort(unsorted, NodeLe);
    SortPermutes(unsorted, NodeLe);
    NodeLeOrder();
    SortSorts(unsorted, NodeLe);
    ListedInOrder(nodes, ids, unsorted);
    NoRepeatsPermutes(unsorted, list);
    ListedOnce(nodes, list);
  }

  lemma ListedInOrder(nodes: map<FormulaId, Node>, ids: seq<FormulaId>, list: seq<Node>)
    requires forall id | id in nodes :: nodes[id].id == id
    requires NoRepeats(ids) && Elems(ids) == nodes.Keys && |list| == |ids|
    requires forall k | 0 <= k < |ids| :: ids[k] in nodes && list[k] == nodes[ids[k]]
    ensures NoRepeats(list)
    ensures forall node :: node in list <==> node.id in nodes && node == nodes[node.id]
  {
    forall i, j | 0 <= i < j < |list| ensures list[i] != list[j] {
      assert list[i].id == ids[i] && list[j].id == ids[j];
    }
    forall node: Node | node.id in nodes && node == nodes[node.id] ensures node in list {
      assert node.id in Elems(ids);
      var k :| 0 <= k < |ids| && ids[k] == node.id;
      assert list[k] == node;
    }
  }

  lemma ListedOnce(nodes: map<FormulaId, Node>, list: seq<Node>)
    requires NoRepeats(list) && forall node :: node in list <==> node.id in nodes && node == nodes[node.id]
    requires forall id | id in nodes :: nodes[id].id == id
    ensures ClosureCheck.Ids(list) == nodes.Keys
    ensures forall k | 0 <= k < |list| :: list[k].id in nodes && list[k] == nodes[list[k].id]
    ensures forall i, j | 0 <= i < j < |list| :: list[i].id != list[j].id
  {
    forall k | 0 <= k < |list| ensures list[k].id in nodes && list[k] == nodes[list[k].id] {
      assert list[k] in list;
    }
    forall id | id in nodes ensures id in ClosureCheck.Ids(list) {
      assert nodes[id] in list;
      var k :| 0 <= k < |list| && list[k] == nodes[id];
    }
  }

  function PairUp(raws: seq<FormulaId>, requested: seq<FormulaId>): seq<RequestedMapping>
    requires |raws| == |requested|
  {
    seq(|raws|, k requires 0 <= k < |raws| => RequestedMapping(raws[k], requested[k]))
  }

  /** The closure Resolve puts together, before it is checked. */
  ghost predicate Assembled(q: Query, raws: seq<FormulaId>, closure: ClosureResult) {
    && raws != [] && AllFound(q.r, raws)
    && closure.requested == FoundIds(q.r, raws) && q.roots == Elems(closure.requested)
    && NoRepeats(closure.requested)
    && closure.mappings == Some(PairUp(raws, closure.requested))
    && closure.taps.Some? && NoRepeats(closure.taps.value)
    && Elems(closure.taps.value) == RootTaps(q.r, raws) + NodeTaps(q, ClosureCheck.Ids(closure.nodes))
    && |closure.nodes| <= MAX_CLOSURE_NODES
    && NodesAssembled(q, closure.nodes)
    && OrderAssembled(q, closure.installOrder)
  }

  /** One node for each identity needed. */
  ghost predicate NodesAssembled(q: Query, nodes: seq<Node>) {
    && (forall id :: id in ClosureCheck.Ids(nodes) <==> Needed(q, id))
    && (forall k | 0 <= k < |nodes| :: NodeResolves(q, nodes[k].id) && nodes[k] == NodeOf(q, nodes[k].id))
    && (forall i, j | 0 <= i < j < |nodes| :: nodes[i].id != nodes[j].id)
  }

  /** Each identity needed once, after the identities it needs. */
  ghost predicate OrderAssembled(q: Query, order: seq<FormulaId>) {
    && (forall id :: id in order <==> Needed(q, id))
    && TopoOrder(QueryEdges(q), order)
  }

  lemma RootsAreNeeded(q: Query)
    ensures forall id | id in q.roots :: Needed(q, id)
  {
    forall id | id in q.roots ensures Needed(q, id) {
      ReachedFromRoot(QueryEdges(q), q.roots, id);
    }
  }

  lemma RootsPass(q: Query, raws: seq<FormulaId>, closure: ClosureResult)
    requires Assembled(q, raws, closure)
    ensures ClosureCheck.RootsOk(closure.requested, ClosureCheck.Ids(closure.nodes))
    ensures ClosureCheck.MappingsOk(ClosureCheck.EffectiveMappings(closure), closure.requested)
  {
    hide Needed, NodeOf, NodeResolves, LookupExact, OrderAssembled, RootTaps, NodeTaps;
    RootsAreNeeded(q);
    var mappings := PairUp(raws, closure.requested);
    assert ClosureCheck.Results(mappings) == closure.requested;
    var sources := ClosureCheck.Sources(mappings);
    forall i, j | 0 <= i < j < |sources| ensures sources[i] != sources[j] {
      assert sources[i] == raws[i] && sources[j] == raws[j];
      assert closure.requested[i] != closure.requested[j];
    }
  }

  lemma TapsHoldNoCore(q: Query, raws: seq<FormulaId>, ids: set<FormulaId>)
    ensures CORE_TAP !in RootTaps(q.r, raws) + NodeTaps(q, ids)
  {
    hide LookupTaps, LookupExact;
    forall k | 0 <= k < |raws| ensures CORE_TAP !in LookupTaps(q.r, raws[k]) {
      LookupTouches(q.r, raws[k]);
    }
    forall id | id in ids ensures CORE_TAP !in TapsAt(q, id) {
      LookupTouches(q.r, id);
      WantedHoldNoCore(q, id);
    }
  }

  lemma WantedHoldNoCore(q: Query, id: FormulaId)
    ensures CORE_TAP !in WantedTaps(q, id)
  {
    hide LookupTaps, LookupExact, OpenedAt;
    if OpenedAt(q, id).Opened? {
      forall k | 0 <= k < |OpenedAt(q, id).wanted|
        ensures CORE_TAP !in NormalizeTaps(q.r, id.tap, OpenedAt(q, id).wanted[k].raw)
      {
        match OpenedAt(q, id).wanted[k].raw
        case Malformed(_) =>
        case Qualified(x) => LookupTouches(q.r, x);
        case Bare(name) => LookupTouches(q.r, FormulaId(id.tap, name));
      }
    }
  }

  /** Every tap a dependency spelling names is recorded. */
  lemma WantedAreRecorded(q: Query, id: FormulaId, d: Requirement)
    requires NodeResolves(q, id) && d in RequirementsOf(q.r, id, OpenedAt(q, id).wanted)
    ensures d.raw.Qualified? && !IsCore(d.raw.id) ==> d.raw.id.tap in WantedTaps(q, id)
  {
    hide LookupTaps, LookupExact, OpenedAt;
    var wanted := OpenedAt(q, id).wanted;
    var k :| 0 <= k < |wanted| && d.raw == wanted[k].raw;
    if d.raw.Qualified? && !IsCore(d.raw.id) {
      LookupTouches(q.r, d.raw.id);
      assert d.raw.id.tap in NormalizeTaps(q.r, id.tap, wanted[k].raw);
    }
  }

  lemma NodePassesTaps(q: Query, id: FormulaId, taps: set<TapId>, ids: set<FormulaId>)
    requires NodeResolves(q, id) && TapsAt(q, id) <= taps && Targets(q, id) <= ids
    ensures ClosureCheck.NodeTapsOk(NodeOf(q, id), taps, ids)
  {
    hide LookupTaps, LookupExact, OpenedAt, Targets, WantedTaps;
    NodeOfIdentity(q, id);
    LookupTouches(q.r, id);
    DependenciesAreTargets(q, id);
    var node := NodeOf(q, id);
    forall k | 0 <= k < |node.dependencies| ensures ClosureCheck.RequirementTapsOk(node.dependencies[k], taps, ids) {
      assert node.dependencies[k] in node.dependencies;
      WantedAreRecorded(q, id, node.dependencies[k]);
      assert node.dependencies[k].id in DependencyIds(node);
    }
  }

  lemma NeedsAreNeeded(q: Query, id: FormulaId)
    requires Needed(q, id)
    ensures forall x | x in Targets(q, id) :: Needed(q, x)
  {
    forall x | x in Targets(q, id) ensures Needed(q, x) {
      assert x in QueryEdges(q)(id);
      ReachedFromStep(QueryEdges(q), q.roots, id, x);
    }
  }

  lemma TapsAndEdgesPass(q: Query, raws: seq<FormulaId>, closure: ClosureResult)
    requires Assembled(q, raws, closure)
    ensures ClosureCheck.TapsOk(closure)
    ensures ClosureCheck.EdgesOk(ClosureCheck.EffectiveMappings(closure), closure.nodes,
                                 ClosureCheck.EffectiveTaps(closure), ClosureCheck.Ids(closure.nodes))
  {
    hide Needed, NodeOf, NodeResolves, LookupExact, LookupTaps, OrderAssembled, Targets, TapsAt,
      ClosureCheck.NodeTapsOk;
    var ids, taps := ClosureCheck.Ids(closure.nodes), ClosureCheck.EffectiveTaps(closure);
    TapsHoldNoCore(q, raws, ids);
    var mappings := PairUp(raws, closure.requested);
    forall k | 0 <= k < |mappings| && !IsCore(mappings[k].requested) ensures mappings[k].requested.tap in taps {
      LookupTouches(q.r, raws[k]);
    }
    forall k | 0 <= k < |closure.nodes| ensures ClosureCheck.NodeTapsOk(closure.nodes[k], taps, ids) {
      var id := closure.nodes[k].id;
      assert id in ids;
      NeedsAreNeeded(q, id);
      assert TapsAt(q, id) <= NodeTaps(q, ids);
      NodePassesTaps(q, id, taps, ids);
    }
  }

  lemma OrderPasses(q: Query, nodes: seq<Node>, order: seq<FormulaId>)
    requires NodesAssembled(q, nodes) && OrderAssembled(q, order)
    ensures ClosureCheck.OrderOk(order, nodes, ClosureCheck.Ids(nodes))
  {
    hide Needed, NodeOf, NodeResolves;
    assert Elems(order) == ClosureCheck.Ids(nodes);
    forall k | 0 <= k < |nodes| ensures ClosureCheck.NodePlaced(order, nodes[k]) {
      assert nodes[k].id in ClosureCheck.Ids(nodes);
      NodePlacedIn(q, nodes[k].id, order);
    }
  }

  lemma NodePlacedIn(q: Query, id: FormulaId, order: seq<FormulaId>)
    requires NodeResolves(q, id) && TopoOrder(QueryEdges(q), order) && id in order
    ensures ClosureCheck.NodePlaced(order, NodeOf(q, id))
  {
    hide NodeResolves, Targets, NoRepeats;
    NodeOfIdentity(q, id);
    DependenciesAreTargets(q, id);
    var node := NodeOf(q, id);
    var j :| 0 <= j < |order| && order[j] == id;
    forall k | 0 <= k < |node.dependencies| ensures ClosureCheck.Before(order, node.dependencies[k].id, node.id) {
      assert node.dependencies[k].id in DependencyIds(node);
      assert node.dependencies[k].id in Elems(order[..j]);
      var i :| 0 <= i < |order[..j]| && order[..j][i] == node.dependencies[k].id;
      assert order[i] == node.dependencies[k].id;
    }
  }

  lemma AssembledEdges(q: Query, nodes: seq<Node>)
    requires NodesAssembled(q, nodes)
    ensures forall id | Needed(q, id) :: ClosureCheck.GraphEdges(ClosureCheck.NodeMap(nodes))(id) == QueryEdges(q)(id)
  {
    hide Needed, NodeOf, NodeResolves, Targets;
    ClosureCheck.NodeMapLists(nodes);
    forall id | Needed(q, id) ensures ClosureCheck.GraphEdges(ClosureCheck.NodeMap(nodes))(id) == QueryEdges(q)(id) {
      assert id in ClosureCheck.Ids(nodes);
      var node := ClosureCheck.NodeMap(nodes)[id];
      var k :| 0 <= k < |nodes| && nodes[k] == node;
      DependenciesAreTargets(q, id);
    }
  }

  lemma ReachPasses(q: Query, nodes: seq<Node>, requested: seq<FormulaId>)
    requires NodesAssembled(q, nodes) && q.roots == Elems(requested)
    ensures ClosureCheck.AllReached(nodes, requested)
  {
    hide NodeOf, NodeResolves, Targets;
    AssembledEdges(q, nodes);
    var e := ClosureCheck.GraphEdges(ClosureCheck.NodeMap(nodes));
    forall k | 0 <= k < |nodes| ensures ReachedFrom(e, Elems(requested), nodes[k].id) {
      assert nodes[k].id in ClosureCheck.Ids(nodes);
      var root :| root in q.roots && Reaches(QueryEdges(q), root, nodes[k].id);
      ReachesAgree(QueryEdges(q), e, root, nodes[k].id);
    }
  }

  /** Whatever Resolve puts together passes every structural part of the independent check. */
  lemma AssembledStructure(q: Query, raws: seq<FormulaId>, closure: ClosureResult)
    requires Assembled(q, raws, closure)
    ensures ClosureCheck.StructureOk(closure)
    ensures closure.requested != [] && closure.nodes != []
  {
    RootsPass(q, raws, closure);
    TapsAndEdgesPass(q, raws, closure);
    OrderPasses(q, closure.nodes, closure.installOrder);
    ReachPasses(q, closure.nodes, closure.requested);
    assert closure.requested[0] in Elems(closure.requested);
  }

  // ----- Resolve -----

  lemma GraphIsQuery(q: Query, nodes: map<FormulaId, Node>, graph: InstallOrder.DependencyGraph)
    requires GraphMatches(graph, nodes)
    requires forall id | id in nodes :: NodeResolves(q, id) && nodes[id] == NodeOf(q, id)
    ensures forall id | id in nodes :: InstallOrder.EdgesOf(graph)(id) == QueryEdges(q)(id)
    ensures forall id :: InstallOrder.EdgesOf(graph)(id) <= QueryEdges(q)(id)
  {
    hide NodeOf, NodeResolves, Targets;
    forall id | id in nodes ensures InstallOrder.EdgesOf(graph)(id) == QueryEdges(q)(id) {
      DependenciesAreTargets(q, id);
      assert InstallOrder.EdgesOf(graph)(id) == DependencyIds(nodes[id]);
    }
  }

  /** The install order of the collected graph is an install order of the query. */
  lemma OrderFromGraph(q: Query, e: Edges<FormulaId>, order: seq<FormulaId>)
    requires forall id | Needed(q, id) :: e(id) == QueryEdges(q)(id)
    requires forall id :: e(id) <= QueryEdges(q)(id)
    requires TopoOrder(e, order)
    requires forall x :: x in order <==> ReachedFrom(e, q.roots, x)
    ensures OrderAssembled(q, order)
  {
    hide NoRepeats, Targets;
    forall x | x in order ensures Needed(q, x) {
      var a :| a in q.roots && Reaches(e, a, x);
      ReachesMono(e, QueryEdges(q), a, x);
    }
    forall x | Needed(q, x) ensures x in order {
      var a :| a in q.roots && Reaches(QueryEdges(q), a, x);
      forall y | Reaches(QueryEdges(q), a, y) ensures e(y) == QueryEdges(q)(y) {
        assert Needed(q, y);
      }
      ReachesAgree(QueryEdges(q), e, a, x);
    }
    assert forall i | 0 <= i < |order| :: order[i] in order;
  }

  lemma CycleFromGraph(q: Query, e: Edges<FormulaId>, cycle: seq<FormulaId>)
    requires forall id :: e(id) <= QueryEdges(q)(id)
    requires IsCycle(e, cycle) && ReachedFrom(e, q.roots, cycle[0])
    ensures IsCycle(QueryEdges(q), cycle) && Needed(q, cycle[0])
  {
    var a :| a in q.roots && Reaches(e, a, cycle[0]);
    ReachesMono(e, QueryEdges(q), a, cycle[0]);
    forall i | 0 <= i < |cycle| - 1 ensures Step(QueryEdges(q), cycle, i) {
      assert Step(e, cycle, i);
    }
  }

  /** If the assembled closure fails the check, some node in it is badly written. */
  lemma FailureIsANode(q: Query, raws: seq<FormulaId>, closure: ClosureResult)
    requires Assembled(q, raws, closure)
    requires forall i, j | 0 <= i < j < |closure.nodes| :: closure.nodes[i].name != closure.nodes[j].name
    requires !ClosureCheck.ClosureOk(closure)
    ensures QueryFault(q, InvalidNode)
  {
    hide Needed, NodeOf, NodeResolves, ClosureCheck.NodeOk, ClosureCheck.StructureOk, OrderAssembled, LookupExact,
      LookupTaps, RootTaps, NodeTaps;
    AssembledStructure(q, raws, closure);
    var k :| 0 <= k < |closure.nodes| && !ClosureCheck.NodeOk(closure.nodes[k]);
    assert closure.nodes[k].id in ClosureCheck.Ids(closure.nodes);
  }

  /** Everything needed is found under its own identity. */
  lemma NeededIsCanonical(q: Query, raws: seq<FormulaId>, id: FormulaId)
    requires AllFound(q.r, raws) && q.roots == Elems(FoundIds(q.r, raws)) && Needed(q, id)
    ensures LookupExact(q.r, id).Found? && LookupExact(q.r, id).id == id
  {
    hide LookupExact, Normalize, OpenedAt;
    var a :| a in q.roots && Reaches(QueryEdges(q), a, id);
    var p :| PathFromTo(QueryEdges(q), p, a, id);
    if |p| == 1 {
      var k :| 0 <= k < |raws| && FoundIds(q.r, raws)[k] == id;
      LookupIdempotent(q.r, raws[k]);
    } else {
      assert Step(QueryEdges(q), p, |p| - 2);
      var x := p[|p| - 2];
      var k :| 0 <= k < |OpenedAt(q, x).wanted| && TargetLookup(q, x, k).Found? && TargetLookup(q, x, k).id == id;
      NormalizeCanonical(q.r, x.tap, OpenedAt(q, x).wanted[k].raw);
    }
  }

  /** The two errors about a queued identity that is not canonical cannot occur. */
  lemma CanonicalErrorsCannotOccur(r: Resolver, raws: seq<FormulaId>, platform: Platform, error: ResolveError)
    requires Fault(r, raws, platform, error)
    ensures !error.NodeLookupFailed? && !error.NotItself?
  {
    if error.NodeLookupFailed? || error.NotItself? {
      NeededIsCanonical(QueryOf(r, raws, platform), raws, error.id);
    }
  }

  method ResolveRequest(r: Resolver, raws: seq<FormulaId>, platform: Platform) returns (result: ResolveResult)
    ensures result.Resolved? ==>
      && AllFound(r, raws) && Assembled(QueryOf(r, raws, platform), raws, result.closure)
      && ClosureCheck.ClosureOk(result.closure) && SortedBy(result.closure.nodes, NodeLe)
    ensures result.Unresolved? ==> Fault(r, raws, platform, result.error)
  {
    hide Needed, NodeOf, NodeResolves, LookupExact, LookupTaps, TopoOrder, IsCycle, OrderAssembled, QueryEdges,
      ClosureCheck.ClosureOk, RootTaps, NodeTaps, GraphMatches, FoundIds, CycleReached, SortedBy, NoRepeats, Reaches;
    if raws == [] {
      return Unresolved(NoRoots);
    }
    var rootError, requested, rootTaps := ResolveRoots(r, raws);
    if rootError.Some? {
      return Unresolved(rootError.value);
    }
    var q := Query(r, platform, set x | x in requested);
    assert q == QueryOf(r, raws, platform);
    var error, nodes, graph, used := Expand(q, requested, rootTaps);
    if error.Some? {
      return Unresolved(error.value);
    }
    result := ResolveExpanded(q, raws, requested, nodes, graph, used);
  }

  /** The steps after the expansion: rack names, install order, assembly and the final check. */
  method ResolveExpanded(q: Query, raws: seq<FormulaId>, requested: seq<FormulaId>, nodes: map<FormulaId, Node>,
                         graph: InstallOrder.DependencyGraph, used: set<TapId>) returns (result: ResolveResult)
    requires raws != [] && AllFound(q.r, raws) && requested == FoundIds(q.r, raws)
    requires q == QueryOf(q.r, raws, q.platform)
    requires q.roots == Elems(requested) && NoRepeats(requested)
    requires |nodes| <= MAX_CLOSURE_NODES && forall id :: id in nodes <==> Needed(q, id)
    requires forall id | id in nodes :: NodeResolves(q, id) && nodes[id] == NodeOf(q, id)
    requires GraphMatches(graph, nodes)
    requires used == RootTaps(q.r, raws) + NodeTaps(q, nodes.Keys)
    ensures result.Resolved? ==>
      && Assembled(q, raws, result.closure)
      && ClosureCheck.ClosureOk(result.closure) && SortedBy(result.closure.nodes, NodeLe)
    ensures result.Unresolved? ==> Fault(q.r, raws, q.platform, result.error)
  {
    hide Needed, NodeOf, NodeResolves, LookupExact, LookupTaps, TopoOrder, IsCycle, OrderAssembled, QueryEdges,
      ClosureCheck.ClosureOk, RootTaps, NodeTaps, GraphMatches, FoundIds, CycleReached, SortedBy, NoRepeats, Reaches;
    var clash := CheckRacks(nodes);
    if clash.Some? {
      return Unresolved(RackCollision(clash.value.0, clash.value.1));
    }
    GraphIsQuery(q, nodes, graph);
    var order, cycle := InstallOrder.Topo(graph, requested);
    if cycle.Some? {
      CycleFromGraph(q, InstallOrder.EdgesOf(graph), cycle.value);
      return Unresolved(Cyclic(cycle.value));
    }
    OrderFromGraph(q, InstallOrder.EdgesOf(graph), order);
    var closure := Assemble(q, raws, requested, nodes, used, order);
    var problems := ClosureCheck.ValidateClosureResult(closure);
    if problems != [] {
      FailureIsANode(q, raws, closure);
      return Unresolved(InvalidNode);
    }
    return Resolved(closure);
  }

  lemma ListAssembles(q: Query, nodes: map<FormulaId, Node>, list: seq<Node>)
    requires forall id :: id in nodes <==> Needed(q, id)
    requires forall id | id in nodes :: NodeResolves(q, id) && nodes[id] == NodeOf(q, id)
    requires ClosureCheck.Ids(list) == nodes.Keys
    requires forall k | 0 <= k < |list| :: list[k].id in nodes && list[k] == nodes[list[k].id]
    requires forall i, j | 0 <= i < j < |list| :: list[i].id != list[j].id
    ensures NodesAssembled(q, list)
  {
    hide Needed, NodeOf, NodeResolves, ClosureCheck.Ids;
  }

  method Assemble(q: Query, raws: seq<FormulaId>, requested: seq<FormulaId>, nodes: map<FormulaId, Node>,
                  used: set<TapId>, order: seq<FormulaId>) returns (closure: ClosureResult)
    requires raws != [] && AllFound(q.r, raws) && requested == FoundIds(q.r, raws)
    requires q.roots == Elems(requested) && NoRepeats(requested)
    requires |nodes| <= MAX_CLOSURE_NODES && forall id :: id in nodes <==> Needed(q, id)
    requires forall id | id in nodes :: NodeResolves(q, id) && nodes[id] == NodeOf(q, id)
    requires forall a, b | a in nodes && b in nodes && a != b :: nodes[a].name != nodes[b].name
    requires used == RootTaps(q.r, raws) + NodeTaps(q, nodes.Keys)
    requires OrderAssembled(q, order)
    ensures Assembled(q, raws, closure) && SortedBy(closure.nodes, NodeLe)
    ensures forall i, j | 0 <= i < j < |closure.nodes| :: closure.nodes[i].name != closure.nodes[j].name
  {
    hide Needed, NodeOf, LookupExact, LookupTaps, OrderAssembled, RootTaps, NodeTaps, NodesAssembled, NodeResolves,
      ClosureCheck.Ids, SortedBy;
    forall id | id in nodes ensures nodes[id].id == id {
      NodeOfIdentity(q, id);
    }
    var list := ListNodes(nodes);
    ListAssembles(q, nodes, list);
    var taps := ListStrings(used);
    assert |raws| == |requested|;
    closure := ClosureResult(requested, Some(PairUp(raws, requested)), Some(taps), list, order);
  }

  /** On success the closure holds exactly what the resolved roots need, at most the limit, in
      an order that installs each node once after its dependencies; the independent check
      accepts it. On failure the error reported is true of the request, and is never that a
      queued identity was not canonical. */
  method Resolve(r: Resolver, raws: seq<FormulaId>, platform: Platform) returns (result: ResolveResult)
    ensures result.Resolved? ==>
      && AllFound(r, raws) && Assembled(QueryOf(r, raws, platform), raws, result.closure)
      && ClosureCheck.ClosureOk(result.closure) && SortedBy(result.closure.nodes, NodeLe)
    ensures result.Unresolved? ==>
      && Fault(r, raws, platform, result.error)
      && !result.error.NodeLookupFailed? && !result.error.NotItself?
  {
    hide Fault, Assembled, ClosureCheck.ClosureOk;
    result := ResolveRequest(r, raws, platform);
    if result.Unresolved? {
      CanonicalErrorsCannotOccur(r, raws, platform, result.error);
    }
  }

  /** Success and every reported error exclude each other, so Resolve succeeds exactly when
      no fault is true of the request. */
  lemma ResolvedHasNoFault(r: Resolver, raws: seq<FormulaId>, platform: Platform, closure: ClosureResult,
                           error: ResolveError)
    requires AllFound(r, raws) && Assembled(QueryOf(r, raws, platform), raws, closure)
    requires ClosureCheck.ClosureOk(closure)
    ensures !Fault(r, raws, platform, error)
  {
    hide Needed, NodeOf, LookupExact, Normalize, RootTaps, NodeTaps, IsCycle, TopoOrder, ClosureCheck.NodeOk,
      ClosureCheck.StructureOk, OpenedAt;
    var q := QueryOf(r, raws, platform);
    AssembledStructure(q, raws, closure);
    match error
    case DuplicateRoot(i, j) => assert i < j < |raws| ==> closure.requested[i] != closure.requested[j];
    case TooManyNodes => FewNeeded(q, closure.nodes);
    case NodeLookupFailed(id, e) => NeededIsFound(q, closure.nodes, id);
    case NotItself(id, c) => NeededIsFound(q, closure.nodes, id);
    case NodeShut(id) => assert Needed(q, id) ==> id in ClosureCheck.Ids(closure.nodes);
    case DependencyFailed(id, k, e) => assert Needed(q, id) ==> id in ClosureCheck.Ids(closure.nodes);
    case SignedMismatch(id, k) => assert Needed(q, id) ==> id in ClosureCheck.Ids(closure.nodes);
    case RackCollision(a, b) => RacksDiffer(q, closure.nodes, a, b);
    case Cyclic(cycle) => NoCycleNeeded(q, closure.installOrder, cycle);
    case InvalidNode => AllNodesOk(q, closure.nodes);
    case _ =>
  }

  lemma NeededIsFound(q: Query, nodes: seq<Node>, id: FormulaId)
    requires NodesAssembled(q, nodes)
    ensures Needed(q, id) ==> LookupExact(q.r, id).Found? && LookupExact(q.r, id).id == id
  {
    hide NodeOf, Needed, LookupExact;
    if Needed(q, id) {
      assert id in ClosureCheck.Ids(nodes);
    }
  }

  lemma FewNeeded(q: Query, nodes: seq<Node>)
    requires NodesAssembled(q, nodes) && |nodes| <= MAX_CLOSURE_NODES
    ensures !ManyNeeded(q)
  {
    hide NodeOf, NodeResolves, Needed;
    var list := seq(|nodes|, k requires 0 <= k < |nodes| => nodes[k].id);
    assert NoRepeats(list) && Elems(list) == ClosureCheck.Ids(nodes) by {
      assert forall k | 0 <= k < |nodes| :: list[k] == nodes[k].id;
    }
    NoRepeatsSize(list);
    forall ids: set<FormulaId> | forall id | id in ids :: Needed(q, id) ensures |ids| <= MAX_CLOSURE_NODES {
      SubsetSize(ids, Elems(list));
    }
  }

  lemma RacksDiffer(q: Query, nodes: seq<Node>, a: FormulaId, b: FormulaId)
    requires NodesAssembled(q, nodes) && ClosureCheck.NodesOk(nodes)
    ensures a != b && Needed(q, a) && Needed(q, b) && NodeResolves(q, a) && NodeResolves(q, b) ==>
      NodeOf(q, a).name != NodeOf(q, b).name
  {
    hide NodeOf, NodeResolves, Needed, ClosureCheck.NodeOk;
    if a != b && Needed(q, a) && Needed(q, b) && NodeResolves(q, a) && NodeResolves(q, b) {
      assert a in ClosureCheck.Ids(nodes) && b in ClosureCheck.Ids(nodes);
      var i :| 0 <= i < |nodes| && nodes[i].id == a;
      var j :| 0 <= j < |nodes| && nodes[j].id == b;
    }
  }

  lemma NoCycleNeeded(q: Query, order: seq<FormulaId>, cycle: seq<FormulaId>)
    requires OrderAssembled(q, order)
    ensures !(IsCycle(QueryEdges(q), cycle) && Needed(q, cycle[0]))
  {
    hide TopoOrder, IsCycle, QueryEdges;
    RootsAreNeeded(q);
    TopoOrderHasNoCycle(QueryEdges(q), order, q.roots);
  }

  lemma AllNodesOk(q: Query, nodes: seq<Node>)
    requires NodesAssembled(q, nodes) && ClosureCheck.NodesOk(nodes)
    ensures !QueryFault(q, InvalidNode)
  {
    hide NodeOf, NodeResolves, Needed, ClosureCheck.NodeOk;
    forall id | Needed(q, id) && NodeResolves(q, id) ensures ClosureCheck.NodeOk(NodeOf(q, id)) {
      assert id in ClosureCheck.Ids(nodes);
      var k :| 0 <= k < |nodes| && nodes[k].id == id;
    }
  }
}
