/** What the minimum versions behind an installed receipt demand, in terms of versions alone:
    internal/bottle/receipt.go, validateSelectedMinimum and the part of
    resolvedInstalledDependencies that overlays a historical tab. */
module ReceiptMinimums {
  import opened Identity
  import opened Wrappers
  import opened Digraph
  import opened ReceiptGraph
  import opened ReceiptWalk
  import opened ReceiptPolicy

  /** The selected node is at or above a version, a revision and a bottle rebuild. */
  ghost predicate IsAtLeast(v: Versions, selected: Node, version: string, revision: int, rebuild: int) {
    var order := v.compare(selected.formulaVersion, version);
    || order > 0
    || (order == 0 && selected.formulaRevision > revision)
    || (order == 0 && selected.formulaRevision == revision && selected.bottleRebuild >= rebuild)
  }

  /** The selected node meets a minimum package version, which names a revision of its own, with
      the revision and rebuild required beside it. Without a minimum nothing may be required. */
  ghost predicate Meets(v: Versions, minimum: string, revision: int, rebuild: int, selected: Node) {
    if minimum == "" then revision == 0 && rebuild == 0
    else
      exists version, own ::
        && v.split(minimum) == Some((version, own))
        && IsAtLeast(v, selected, version, if own > revision then own else revision, rebuild)
  }

  lemma MinimumMeaning(v: Versions, requirement: Requirement, selected: Node)
    ensures MinimumOk(v, requirement, selected) <==>
      Meets(v, requirement.minimum, requirement.revision, requirement.bottleRebuild, selected)
  {
  }

  // ----- The minimum of a signed edge -----

  /** The tab entry at k is about this node. */
  ghost predicate RecordsAt(tab: seq<TabDependency>, k: int, child: Node) {
    0 <= k < |tab| && child.identity.Some? && tab[k].identity == child.identity
  }

  /** What a signed edge demands of the node it leads to: without a tab entry for that node its own
      minimum; with one, the recorded minimum, which what is signed must not contradict. */
  ghost predicate SignedEdgeMeets(v: Versions, tab: seq<TabDependency>, edge: Requirement, child: Node) {
    if exists k :: RecordsAt(tab, k, child) then
      exists k :: RecordsAt(tab, k, child) && Agrees(edge, tab[k])
        && Meets(v, tab[k].pkgVersion, tab[k].revision, tab[k].bottleRebuild, child)
    else Meets(v, edge.minimum, edge.revision, edge.bottleRebuild, child)
  }

  /** The signed numbers repeat the recorded ones; only without a signed minimum may they be left
      at zero. */
  ghost predicate Agrees(edge: Requirement, was: TabDependency) {
    if edge.minimum == "" then
      (edge.revision == 0 || edge.revision == was.revision)
      && (edge.bottleRebuild == 0 || edge.bottleRebuild == was.bottleRebuild)
    else
      edge.minimum == was.pkgVersion && edge.revision == was.revision && edge.bottleRebuild == was.bottleRebuild
  }

  ghost predicate TabSound(tab: seq<TabDependency>) {
    && (forall k | 0 <= k < |tab| ::
          tab[k].identity.Some? && tab[k].pkgVersion != "" && tab[k].revision >= 0 && tab[k].bottleRebuild >= 0)
    && forall i, j | 0 <= i < j < |tab| :: tab[i].identity != tab[j].identity
  }

  /** The signed edges of a node: named, known, once each, and met. */
  ghost predicate SignedEdgesSound(v: Versions, idx: Index, node: Node) {
    && (forall k | 0 <= k < |node.dependencies| ::
          var edge := node.dependencies[k];
          && edge.name.text != "" && edge.revision >= 0 && edge.bottleRebuild >= 0 && edge.name in idx.nodes
          && SignedEdgeMeets(v, node.tab, edge, idx.nodes[edge.name]))
    && forall i, j | 0 <= i < j < |node.dependencies| :: node.dependencies[i].name != node.dependencies[j].name
  }

  /** A direct dependency that a tab records, where it is selected, is met. */
  ghost predicate PastEdgeMeets(v: Versions, idx: Index, was: TabDependency) {
    was.declaredDirectly && was.identity.Some? && was.identity.value in idx.byFullName ==>
      Meets(v, was.pkgVersion, was.revision, was.bottleRebuild, idx.byFullName[was.identity.value])
  }

  ghost predicate PastEdgesSound(v: Versions, idx: Index, tab: seq<TabDependency>) {
    forall k | 0 <= k < |tab| :: PastEdgeMeets(v, idx, tab[k])
  }

  lemma TabMeaning(tab: seq<TabDependency>)
    ensures TabOk(tab) <==> TabSound(tab)
  {
  }

  lemma EdgeMeaning(v: Versions, tab: seq<TabDependency>, edge: Requirement, child: Node)
    requires TabOk(tab) && edge.revision >= 0 && edge.bottleRebuild >= 0
    ensures var effective := Effective(edge, HistoryOf(tab), child);
      effective.Some? && MinimumOk(v, effective.value, child) <==> SignedEdgeMeets(v, tab, edge, child)
  {
    hide HistoryOf, MinimumOk, Meets, TabOk;
    RecordsMeaning(tab, child);
    if exists k :: RecordsAt(tab, k, child) {
      var k :| RecordsAt(tab, k, child);
      HistoryFaithful(tab, k);
      RecordsOnce(tab, k, child);
      var was := tab[k];
      MinimumMeaning(v, edge.(minimum := was.pkgVersion, revision := was.revision, bottleRebuild := was.bottleRebuild),
                     child);
      MinimumMeaning(v, edge, child);
    } else {
      MinimumMeaning(v, edge, child);
    }
  }

  lemma RecordsMeaning(tab: seq<TabDependency>, child: Node)
    ensures child.identity.Some? && child.identity.value in HistoryOf(tab) <==> exists k :: RecordsAt(tab, k, child)
  {
    HistoryLists(tab);
    if child.identity.Some? && child.identity.value in HistoryOf(tab) {
      var k :| 0 <= k < |tab| && tab[k] == HistoryOf(tab)[child.identity.value];
      assert RecordsAt(tab, k, child);
    }
  }

  lemma RecordsOnce(tab: seq<TabDependency>, k: int, child: Node)
    requires TabOk(tab) && RecordsAt(tab, k, child)
    ensures forall j | RecordsAt(tab, j, child) :: j == k
  {
  }

  ghost predicate AllPastOk(v: Versions, idx: Index, history: map<FormulaId, TabDependency>) {
    forall id | id in history :: PastOk(v, idx, history, id)
  }

  lemma PastMeaning(v: Versions, idx: Index, tab: seq<TabDependency>)
    requires TabOk(tab)
    ensures AllPastOk(v, idx, HistoryOf(tab)) <==> PastEdgesSound(v, idx, tab)
  {
    hide HistoryOf, PastOk, PastEdgeMeets;
    var history := HistoryOf(tab);
    HistoryLists(tab);
    forall k | 0 <= k < |tab|
      ensures tab[k].identity.value in history && history[tab[k].identity.value] == tab[k]
    {
      HistoryFaithful(tab, k);
    }
    if AllPastOk(v, idx, history) {
      forall k | 0 <= k < |tab| ensures PastEdgeMeets(v, idx, tab[k]) {
        PastOneMeaning(v, idx, history, tab[k]);
      }
    }
    if PastEdgesSound(v, idx, tab) {
      forall id | id in history ensures PastOk(v, idx, history, id) {
        var k :| 0 <= k < |tab| && tab[k] == history[id];
        PastOneMeaning(v, idx, history, tab[k]);
      }
    }
  }

  lemma PastOneMeaning(v: Versions, idx: Index, history: map<FormulaId, TabDependency>, was: TabDependency)
    requires was.identity.Some? && was.identity.value in history && history[was.identity.value] == was
    ensures PastOk(v, idx, history, was.identity.value) <==> PastEdgeMeets(v, idx, was)
  {
    hide MinimumOk, Meets;
    if was.identity.value in idx.byFullName {
      var child := idx.byFullName[was.identity.value];
      MinimumMeaning(v, HistoricalRequirement(was, child), child);
    }
  }

  /** A node is faulty exactly when its tab is unsound or one of its edges is not met. */
  lemma NodeMeaning(v: Versions, idx: Index, node: Node)
    ensures NodeOk(v, idx, node) <==>
      TabSound(node.tab) && SignedEdgesSound(v, idx, node) && PastEdgesSound(v, idx, node.tab)
  {
    hide TabOk, HistoryOf, PastOk, PastEdgesSound, SignedEdgeMeets, Effective, MinimumOk, TabSound;
    TabMeaning(node.tab);
    if TabOk(node.tab) {
      PastMeaning(v, idx, node.tab);
      forall k | 0 <= k < |node.dependencies| && node.dependencies[k].name in idx.nodes
        && node.dependencies[k].revision >= 0 && node.dependencies[k].bottleRebuild >= 0
        ensures var edge := node.dependencies[k];
          var effective := Effective(edge, HistoryOf(node.tab), idx.nodes[edge.name]);
          effective.Some? && MinimumOk(v, effective.value, idx.nodes[edge.name]) <==>
          SignedEdgeMeets(v, node.tab, edge, idx.nodes[edge.name])
      {
        EdgeMeaning(v, node.tab, node.dependencies[k], idx.nodes[node.dependencies[k].name]);
      }
    }
  }

  /** In a closure with a policy every edge of every node the root reaches is met. */
  lemma PolicyMeetsMinimums(v: Versions, root: Node, closure: seq<Node>, idx: Index, name: Rack)
    requires SoundClosure(v, root, closure, idx) && Reaches(WalkGraph(idx), root.name, name)
    ensures name in idx.nodes && var node := idx.nodes[name];
      TabSound(node.tab) && SignedEdgesSound(v, idx, node) && PastEdgesSound(v, idx, node.tab)
  {
    hide NodeOk, Acyclic, Indexes, WellFormed, DistinctRacks, WalkGraph, CurrentGraph, Reaches;
    assert !FaultyAt(v, idx, name);
    NodeMeaning(v, idx, idx.nodes[name]);
  }

  // ----- A later version instead -----

  /** Comparing versions is a total preorder. */
  ghost predicate Ordered(v: Versions) {
    && (forall a, b :: v.compare(a, b) > 0 <==> v.compare(b, a) < 0)
    && (forall a, b, c :: v.compare(a, b) >= 0 && v.compare(b, c) >= 0 ==> v.compare(a, c) >= 0)
  }

  /** The same node in a version, revision or rebuild that is not earlier. */
  ghost predicate NotEarlier(v: Versions, was: Node, now: Node) {
    && now == was.(formulaVersion := now.formulaVersion, formulaRevision := now.formulaRevision,
                     pkgVersion := now.pkgVersion, bottleRebuild := now.bottleRebuild)
    && NodeValid(now) && IsAtLeast(v, now, was.formulaVersion, was.formulaRevision, was.bottleRebuild)
  }

  lemma AtLeastGrows(v: Versions, was: Node, now: Node, version: string, revision: int, rebuild: int)
    requires Ordered(v) && NotEarlier(v, was, now) && IsAtLeast(v, was, version, revision, rebuild)
    ensures IsAtLeast(v, now, version, revision, rebuild)
  {
    var a, b := now.formulaVersion, was.formulaVersion;
    assert v.compare(a, b) >= 0 && v.compare(b, version) >= 0;
    assert v.compare(a, version) >= 0;
    if v.compare(a, version) == 0 {
      assert v.compare(version, a) >= 0;
      assert v.compare(version, b) >= 0 && v.compare(b, a) >= 0;
    }
  }

  lemma MeetsGrows(v: Versions, was: Node, now: Node, minimum: string, revision: int, rebuild: int)
    requires Ordered(v) && NotEarlier(v, was, now) && Meets(v, minimum, revision, rebuild, was)
    ensures Meets(v, minimum, revision, rebuild, now)
  {
    hide IsAtLeast, NotEarlier, Ordered;
    if minimum != "" {
      var version, own :| v.split(minimum) == Some((version, own))
        && IsAtLeast(v, was, version, if own > revision then own else revision, rebuild);
      AtLeastGrows(v, was, now, version, if own > revision then own else revision, rebuild);
    }
  }

  function Replaced(idx: Index, now: Node): Index
    requires now.identity.Some?
  {
    Index(idx.nodes[now.name := now], idx.byFullName[now.identity.value := now])
  }

  lemma ReplacedIndexes(v: Versions, idx: Index, closure: seq<Node>, k: nat, now: Node)
    requires Indexes(idx, closure) && DistinctRacks(closure) && k < |closure| && NotEarlier(v, closure[k], now)
    ensures Indexes(Replaced(idx, now), closure[k := now]) && DistinctRacks(closure[k := now])
  {
    hide NodeValid, IsAtLeast, Indexes;
    ValidHasIdentity(now);
    ReplacedMembers(closure, k, now);
    assert closure[k] in closure;
    ReplacedHolds(idx, closure, closure[k], now, closure[k := now]);
  }

  lemma ReplacedMembers(closure: seq<Node>, k: nat, now: Node)
    requires DistinctRacks(closure) && k < |closure| && now.name == closure[k].name
    ensures DistinctRacks(closure[k := now])
    ensures forall node :: node in closure[k := now] <==> node == now || (node in closure && node.name != now.name)
  {
    var after := closure[k := now];
    forall j | 0 <= j < |closure| && j != k ensures closure[j].name != now.name && after[j] == closure[j] {
      OthersDiffer(closure, j, k);
    }
    assert after[k] == now;
    forall node | node in after ensures node == now || (node in closure && node.name != now.name) {
      var j :| 0 <= j < |after| && after[j] == node;
    }
    forall node | node in closure && node.name != now.name ensures node in after {
      var j :| 0 <= j < |closure| && closure[j] == node;
      assert after[j] == node;
    }
  }

  lemma ReplacedHolds(idx: Index, closure: seq<Node>, was: Node, now: Node, after: seq<Node>)
    requires Indexes(idx, closure) && was in closure && NodeValid(now)
    requires now.identity.Some? && now.name == was.name && now.identity == was.identity
    requires forall node :: node in after <==> node == now || (node in closure && node.name != now.name)
    ensures Indexes(Replaced(idx, now), after)
  {
    hide NodeValid;
    assert idx.nodes[now.name] == was && idx.byFullName[now.identity.value] == was;
    forall id | id in idx.byFullName && id != now.identity.value ensures idx.byFullName[id].name != now.name {
      assert idx.byFullName[id] in closure;
    }
  }

  lemma OthersDiffer(closure: seq<Node>, i: nat, j: nat)
    requires DistinctRacks(closure) && i < |closure| && j < |closure| && i != j
    ensures closure[i].name != closure[j].name
  {
  }

  /** Replacing a node changes no edge. */
  lemma ReplacedEdges(v: Versions, idx: Index, closure: seq<Node>, was: Node, now: Node, name: Rack)
    requires Indexes(idx, closure) && was in closure && NotEarlier(v, was, now) && now.identity.Some?
    ensures CurrentGraph(Replaced(idx, now))(name) == CurrentGraph(idx)(name)
    ensures WalkGraph(Replaced(idx, now))(name) == WalkGraph(idx)(name)
  {
    hide NodeValid, IsAtLeast, HistoryOf, CurrentNames, Indexes, PastNames;
    WasIndexed(idx, closure, was);
    if name in idx.nodes {
      ReplacedPast(v, idx, closure, was, now, HistoryOf(idx.nodes[name].tab));
    }
  }

  lemma ReplacedPast(v: Versions, idx: Index, closure: seq<Node>, was: Node, now: Node,
                     history: map<FormulaId, TabDependency>)
    requires Indexes(idx, closure) && was in closure && NotEarlier(v, was, now) && now.identity.Some?
    ensures PastNames(Replaced(idx, now), history, history.Keys) == PastNames(idx, history, history.Keys)
  {
    hide NodeValid, IsAtLeast;
    var idx' := Replaced(idx, now);
    assert idx'.byFullName.Keys == idx.byFullName.Keys;
    assert forall id | id in idx.byFullName :: idx'.byFullName[id].name == idx.byFullName[id].name;
  }

  lemma CyclesAgree<T(!new)>(e: Edges<T>, f: Edges<T>)
    requires Acyclic(e) && forall x :: f(x) == e(x)
    ensures Acyclic(f)
  {
    forall c ensures !IsCycle(f, c) {
      assert !IsCycle(e, c);
      if IsCycle(f, c) {
        forall i | 0 <= i < |c| - 1 ensures Step(e, c, i) {
          assert Step(f, c, i);
        }
      }
    }
  }

  lemma ReachAgrees<T(!new)>(e: Edges<T>, f: Edges<T>, a: T, b: T)
    requires forall x :: f(x) == e(x)
    ensures Reaches(f, a, b) <==> Reaches(e, a, b)
  {
    if Reaches(e, a, b) {
      ReachesMono(e, f, a, b);
    }
    if Reaches(f, a, b) {
      ReachesMono(f, e, a, b);
    }
  }

  /** What a node demands is still met when another node is replaced by a later one. */
  lemma ReplacedMeets(v: Versions, idx: Index, closure: seq<Node>, was: Node, now: Node, node: Node)
    requires Ordered(v) && Indexes(idx, closure) && was in closure && NotEarlier(v, was, now) && now.identity.Some?
    requires NodeOk(v, idx, node)
    ensures NodeOk(v, Replaced(idx, now), node)
    ensures node == was ==> NodeOk(v, Replaced(idx, now), now)
  {
    hide NodeOk, Meets, Ordered, NodeValid, TabSound;
    var idx' := Replaced(idx, now);
    NodeMeaning(v, idx, node);
    NodeMeaning(v, idx', node);
    NodeMeaning(v, idx', now);
    hide IsAtLeast;
    forall minimum, revision, rebuild, child | child in closure && Meets(v, minimum, revision, rebuild, child)
      ensures child == was ==> Meets(v, minimum, revision, rebuild, now)
    {
      if child == was {
        MeetsGrows(v, was, now, minimum, revision, rebuild);
      }
    }
    forall k | 0 <= k < |node.dependencies|
      ensures var edge := node.dependencies[k];
        edge.name in idx'.nodes && SignedEdgeMeets(v, node.tab, edge, idx'.nodes[edge.name])
    {
      var edge := node.dependencies[k];
      if edge.name == now.name {
        EdgeGrows(v, node.tab, edge, was, now);
      }
    }
    forall k | 0 <= k < |node.tab| ensures PastEdgeMeets(v, idx', node.tab[k]) {
      assert PastEdgeMeets(v, idx, node.tab[k]);
    }
  }

  lemma EdgeGrows(v: Versions, tab: seq<TabDependency>, edge: Requirement, was: Node, now: Node)
    requires Ordered(v) && NotEarlier(v, was, now) && SignedEdgeMeets(v, tab, edge, was)
    ensures SignedEdgeMeets(v, tab, edge, now)
  {
    hide Meets, Ordered, NodeValid, IsAtLeast;
    assert forall k :: RecordsAt(tab, k, was) <==> RecordsAt(tab, k, now);
    if exists k :: RecordsAt(tab, k, was) {
      var k :| RecordsAt(tab, k, was) && Agrees(edge, tab[k])
        && Meets(v, tab[k].pkgVersion, tab[k].revision, tab[k].bottleRebuild, was);
      MeetsGrows(v, was, now, tab[k].pkgVersion, tab[k].revision, tab[k].bottleRebuild);
      assert RecordsAt(tab, k, now);
    } else {
      MeetsGrows(v, was, now, edge.minimum, edge.revision, edge.bottleRebuild);
    }
  }

  /** Replacing a selected node by a later one keeps the policy: the closure stays sound, and the
      same nodes are listed. */
  lemma LaterKeepsPolicy(v: Versions, root: Node, closure: seq<Node>, idx: Index, k: nat, now: Node)
    requires Ordered(v) && SoundClosure(v, root, closure, idx) && k < |closure| && NotEarlier(v, closure[k], now)
    ensures now.identity.Some?
    ensures var root' := if root == closure[k] then now else root;
      && SoundClosure(v, root', closure[k := now], Replaced(idx, now))
      && forall name :: InPolicy(Replaced(idx, now), root', name) <==> InPolicy(idx, root, name)
  {
    hide NodeOk, Acyclic, WalkGraph, CurrentGraph, Reaches, Indexes, DistinctRacks, Ordered, IsAtLeast, NodeValid;
    ValidHasIdentity(now);
    var was, after, idx' := closure[k], closure[k := now], Replaced(idx, now);
    var root' := if root == was then now else root;
    ReplacedIndexes(v, idx, closure, k, now);
    IndexLists(idx, closure);
    WasIndexed(idx, closure, was);
    forall name ensures CurrentGraph(idx')(name) == CurrentGraph(idx)(name)
      && WalkGraph(idx')(name) == WalkGraph(idx)(name)
    {
      ReplacedEdges(v, idx, closure, was, now, name);
    }
    CyclesAgree(CurrentGraph(idx), CurrentGraph(idx'));
    forall name ensures Reaches(WalkGraph(idx'), root'.name, name) <==> Reaches(WalkGraph(idx), root.name, name) {
      ReachAgrees(WalkGraph(idx), WalkGraph(idx'), root.name, name);
    }
    forall name | Reaches(WalkGraph(idx'), root'.name, name) ensures !FaultyAt(v, idx', name) {
      assert !FaultyAt(v, idx, name);
      ReplacedMeets(v, idx, closure, was, now, idx.nodes[name]);
    }
    if root == was {
      assert after[k] == root';
    } else {
      var j :| 0 <= j < |closure| && closure[j] == root;
      assert after[j] == root';
    }
  }

  lemma WasIndexed(idx: Index, closure: seq<Node>, was: Node)
    requires Indexes(idx, closure) && was in closure
    ensures was.name in idx.nodes && idx.nodes[was.name] == was
  {
  }
}
