/** The two overlaid edge sets of an installed receipt: internal/bottle/receipt.go,
    resolvedInstalledDependencies up to the walk, historicalDependencyMinimums and
    validateSelectedMinimum. */
module ReceiptGraph {
  import opened Identity
  import opened Wrappers
  import opened Sorting

  /** A short Formula name, which is also its Cellar rack. */
  datatype Rack = Rack(text: string)

  predicate RackLe(a: Rack, b: Rack) { TextLe(a.text, b.text) }

  lemma RackLeOrder()
    ensures TotalPreorder(RackLe)
  {
    KeyOrder((rack: Rack) => rack.text, RackLe);
  }

  /** A signed dependency edge of the current resolution. */
  datatype Requirement = Requirement(name: Rack, minimum: string, revision: int, bottleRebuild: int, direct: bool)

  /** A dependency recorded in a historical bottle tab; `identity` is None when its name does
      not parse. */
  datatype TabDependency = TabDependency(
    identity: Option<FormulaId>, revision: int, bottleRebuild: int, pkgVersion: string, declaredDirectly: bool)

  /** `identity` is None unless the full name is the canonical text of an identity. */
  datatype Node = Node(
    name: Rack, identity: Option<FormulaId>, formulaVersion: string, formulaRevision: int, pkgVersion: string,
    versionScheme: int, bottleRebuild: int, dependencies: seq<Requirement>, tab: seq<TabDependency>)

  /** The version package: how a package version splits, and how versions compare. */
  datatype Versions = Versions(split: string -> Option<(string, int)>, compare: (string, string) -> int)

  predicate AtLeast(v: Versions, version: string, revision: int, minimum: string, minimumRevision: int) {
    if v.compare(version, minimum) != 0 then v.compare(version, minimum) > 0 else revision >= minimumRevision
  }

  /** validateSelectedMinimum */
  predicate MinimumOk(v: Versions, requirement: Requirement, selected: Node) {
    if requirement.minimum == "" then requirement.revision == 0 && requirement.bottleRebuild == 0
    else
      match v.split(requirement.minimum)
      case None => false
      case Some((version, revision)) =>
        var required := Max(requirement.revision, revision);
        && AtLeast(v, selected.formulaVersion, selected.formulaRevision, version, required)
        && !(v.compare(selected.formulaVersion, version) == 0 && selected.formulaRevision == required
             && selected.bottleRebuild < requirement.bottleRebuild)
  }

  // ----- The closure index -----

  predicate NodeValid(node: Node) {
    && node.identity.Some? && node.identity.value.name == node.name.text
    && node.formulaVersion != "" && node.pkgVersion != ""
    && node.formulaRevision >= 0 && node.bottleRebuild >= 0
  }

  datatype Index = Index(nodes: map<Rack, Node>, byFullName: map<FormulaId, Node>)

  /** The index holds exactly the listed nodes, under their names and under their identities. */
  ghost predicate Indexes(idx: Index, closure: seq<Node>) {
    && (forall node | node in closure :: NodeValid(node))
    && (forall node | node in closure :: node.name in idx.nodes && idx.nodes[node.name] == node)
    && (forall name | name in idx.nodes :: idx.nodes[name] in closure && idx.nodes[name].name == name)
    && (forall node | node in closure && node.identity.Some? ::
          node.identity.value in idx.byFullName && idx.byFullName[node.identity.value] == node)
    && (forall id | id in idx.byFullName :: idx.byFullName[id] in closure && idx.byFullName[id].identity == Some(id))
  }

  datatype IndexFault = BadNode(k: nat) | RepeatedName(i: nat, j: nat) | RepeatedFullName(i: nat, j: nat)

  ghost predicate FaultOf(closure: seq<Node>, fault: IndexFault) {
    match fault
    case BadNode(k) => k < |closure| && !NodeValid(closure[k])
    case RepeatedName(i, j) => i < j < |closure| && closure[i].name == closure[j].name
    case RepeatedFullName(i, j) => i < j < |closure| && closure[i].identity == closure[j].identity
  }

  method BuildIndex(closure: seq<Node>) returns (fault: Option<IndexFault>, idx: Index)
    ensures fault.Some? ==> FaultOf(closure, fault.value)
    ensures fault.None? ==> Indexes(idx, closure)
    ensures fault.None? ==> forall i, j | 0 <= i < j < |closure| :: closure[i].name != closure[j].name
  {
    hide NodeValid, Indexes;
    idx := Index(map[], map[]);
    NothingIndexed();
    assert closure[..0] == [];
    var i := 0;
    while i < |closure|
      invariant 0 <= i <= |closure|
      invariant Indexes(idx, closure[..i])
      invariant forall j, k | 0 <= j < k < i :: closure[j].name != closure[k].name
    {
      var node := closure[i];
      if !NodeValid(node) {
        return Some(BadNode(i)), idx;
      }
      IndexLists(idx, closure[..i]);
      if node.name in idx.nodes {
        var j := IndexOf(closure[..i], idx.nodes[node.name]);
        return Some(RepeatedName(j, i)), idx;
      }
      ValidHasIdentity(node);
      if node.identity.value in idx.byFullName {
        var j := IndexOf(closure[..i], idx.byFullName[node.identity.value]);
        return Some(RepeatedFullName(j, i)), idx;
      }
      IndexGrows(idx, closure[..i], node);
      NamesFresh(idx, closure[..i], node);
      assert closure[..i + 1] == closure[..i] + [node];
      idx := Index(idx.nodes[node.name := node], idx.byFullName[node.identity.value := node]);
      i := i + 1;
    }
    assert closure[..i] == closure;
    return None, idx;
  }

  lemma NothingIndexed()
    ensures Indexes(Index(map[], map[]), [])
  {
  }

  lemma IndexLists(idx: Index, closure: seq<Node>)
    requires Indexes(idx, closure)
    ensures forall name | name in idx.nodes :: idx.nodes[name] in closure && idx.nodes[name].name == name
    ensures forall id | id in idx.byFullName :: idx.byFullName[id] in closure && idx.byFullName[id].identity == Some(id)
  {
  }

  lemma ValidHasIdentity(node: Node)
    requires NodeValid(node)
    ensures node.identity.Some? && node.identity.value.name == node.name.text
  {
  }

  function IndexOf(s: seq<Node>, x: Node): (i: nat)
    requires x in s
    ensures i < |s| && s[i] == x
  {
    if s[0] == x then 0 else IndexOf(s[1..], x) + 1
  }

  lemma NamesFresh(idx: Index, closure: seq<Node>, node: Node)
    requires Indexes(idx, closure) && node.name !in idx.nodes
    ensures forall k | 0 <= k < |closure| :: closure[k].name != node.name
  {
    forall k | 0 <= k < |closure| ensures closure[k].name != node.name {
      assert closure[k] in closure;
    }
  }

  lemma IndexGrows(idx: Index, closure: seq<Node>, node: Node)
    requires Indexes(idx, closure) && NodeValid(node) && node.identity.Some?
    requires node.name !in idx.nodes && node.identity.value !in idx.byFullName
    ensures Indexes(Index(idx.nodes[node.name := node], idx.byFullName[node.identity.value := node]), closure + [node])
  {
    hide NodeValid;
    assert forall x :: x in closure + [node] <==> x in closure || x == node;
  }

  // ----- Historical tabs -----

  ghost predicate TabEntryOk(dependency: TabDependency) {
    && dependency.identity.Some? && dependency.pkgVersion != ""
    && dependency.revision >= 0 && dependency.bottleRebuild >= 0
  }

  ghost predicate TabOk(tab: seq<TabDependency>) {
    && (forall k | 0 <= k < |tab| :: TabEntryOk(tab[k]))
    && (forall i, j | 0 <= i < j < |tab| :: tab[i].identity != tab[j].identity)
  }

  /** The tab as a map from identities; a valid tab has one entry for each. */
  ghost function HistoryOf(tab: seq<TabDependency>): map<FormulaId, TabDependency> {
    if tab == [] then map[]
    else
      var last := tab[|tab| - 1];
      var front := HistoryOf(tab[..|tab| - 1]);
      if last.identity.Some? then front[last.identity.value := last] else front
  }

  lemma {:induction false} HistoryLists(tab: seq<TabDependency>)
    ensures forall id | id in HistoryOf(tab) :: HistoryOf(tab)[id] in tab && HistoryOf(tab)[id].identity == Some(id)
    ensures forall k | 0 <= k < |tab| :: tab[k].identity.Some? ==> tab[k].identity.value in HistoryOf(tab)
  {
    if tab != [] {
      HistoryLists(tab[..|tab| - 1]);
      forall k | 0 <= k < |tab| && tab[k].identity.Some? ensures tab[k].identity.value in HistoryOf(tab) {
        if k < |tab| - 1 {
          assert tab[..|tab| - 1][k] == tab[k];
        }
      }
    }
  }

  /** A valid tab loses nothing: each of its entries is the one under its identity. */
  lemma HistoryFaithful(tab: seq<TabDependency>, k: nat)
    requires TabOk(tab) && k < |tab|
    ensures tab[k].identity.value in HistoryOf(tab) && HistoryOf(tab)[tab[k].identity.value] == tab[k]
  {
    HistoryLists(tab);
    var entry := HistoryOf(tab)[tab[k].identity.value];
    var j :| 0 <= j < |tab| && tab[j] == entry;
  }

  lemma TabSnoc(tab: seq<TabDependency>, dependency: TabDependency)
    requires TabOk(tab)
    ensures TabOk(tab + [dependency]) <==>
      TabEntryOk(dependency) && dependency.identity.value !in HistoryOf(tab)
  {
    var longer := tab + [dependency];
    assert forall k | 0 <= k < |tab| :: longer[k] == tab[k];
    assert longer[|tab|] == dependency;
    HistoryLists(tab);
    if TabEntryOk(dependency) && dependency.identity.value in HistoryOf(tab) {
      var k :| 0 <= k < |tab| && tab[k] == HistoryOf(tab)[dependency.identity.value];
      assert longer[k].identity == longer[|tab|].identity;
    }
  }

  lemma TabPrefix(tab: seq<TabDependency>, i: nat)
    requires i <= |tab| && TabOk(tab)
    ensures TabOk(tab[..i])
  {
  }

  /** historicalDependencyMinimums */
  method HistoricalMinimums(tab: seq<TabDependency>) returns (result: Option<map<FormulaId, TabDependency>>)
    ensures result.Some? <==> TabOk(tab)
    ensures result.Some? ==> result.value == HistoryOf(tab)
  {
    var m: map<FormulaId, TabDependency> := map[];
    var i := 0;
    while i < |tab|
      invariant 0 <= i <= |tab|
      invariant TabOk(tab[..i]) && m == HistoryOf(tab[..i])
    {
      var dependency := tab[i];
      assert tab[..i + 1] == tab[..i] + [dependency];
      assert tab[..i + 1][..i] == tab[..i];
      TabSnoc(tab[..i], dependency);
      if dependency.identity.None? || dependency.pkgVersion == "" || dependency.revision < 0
         || dependency.bottleRebuild < 0 || dependency.identity.value in m {
        if TabOk(tab) {
          TabPrefix(tab, i + 1);
        }
        return None;
      }
      m := m[dependency.identity.value := dependency];
      i := i + 1;
    }
    assert tab[..i] == tab;
    return Some(m);
  }

  // ----- The edges of one node -----

  /** The minimum that applies to a current edge: the tab may supply it, never contradict it. */
  function Effective(requirement: Requirement, history: map<FormulaId, TabDependency>,
                     child: Node): Option<Requirement> {
    if child.identity.Some? && child.identity.value in history then
      var was := history[child.identity.value];
      if requirement.minimum == "" then
        if (requirement.revision != 0 && requirement.revision != was.revision)
          || (requirement.bottleRebuild != 0 && requirement.bottleRebuild != was.bottleRebuild)
        then None
        else Some(requirement.(minimum := was.pkgVersion, revision := was.revision, bottleRebuild := was.bottleRebuild))
      else if requirement.minimum != was.pkgVersion || requirement.revision != was.revision
        || requirement.bottleRebuild != was.bottleRebuild
      then None
      else Some(requirement)
    else Some(requirement)
  }

  predicate CurrentOk(v: Versions, idx: Index, history: map<FormulaId, TabDependency>, requirement: Requirement) {
    && requirement.name.text != "" && requirement.revision >= 0 && requirement.bottleRebuild >= 0
    && requirement.name in idx.nodes
    && var child := idx.nodes[requirement.name];
       var effective := Effective(requirement, history, child);
       effective.Some? && MinimumOk(v, effective.value, child)
  }

  function HistoricalRequirement(entry: TabDependency, child: Node): Requirement {
    Requirement(child.name, entry.pkgVersion, entry.revision, entry.bottleRebuild, true)
  }

  /** A selected historical direct dependency must meet the minimum the tab records. */
  predicate PastOk(v: Versions, idx: Index, history: map<FormulaId, TabDependency>, id: FormulaId)
    requires id in history
  {
    history[id].declaredDirectly && id in idx.byFullName ==>
      MinimumOk(v, HistoricalRequirement(history[id], idx.byFullName[id]), idx.byFullName[id])
  }

  ghost function CurrentNames(dependencies: seq<Requirement>): set<Rack> {
    set k | 0 <= k < |dependencies| :: dependencies[k].name
  }

  ghost predicate DistinctNames(dependencies: seq<Requirement>) {
    forall i, j | 0 <= i < j < |dependencies| :: dependencies[i].name != dependencies[j].name
  }

  ghost function PastNames(idx: Index, history: map<FormulaId, TabDependency>, ids: set<FormulaId>): set<Rack> {
    set id | id in ids && id in history && history[id].declaredDirectly && id in idx.byFullName ::
      idx.byFullName[id].name
  }

  /** Where a node's edges lead; true marks an edge that only the historical tab declares. */
  ghost function EdgeKinds(idx: Index, node: Node): map<Rack, bool> {
    var current := CurrentNames(node.dependencies);
    var past := PastNames(idx, HistoryOf(node.tab), HistoryOf(node.tab).Keys);
    map target | target in current + past :: target !in current
  }

  ghost predicate NodeOk(v: Versions, idx: Index, node: Node) {
    && TabOk(node.tab)
    && DistinctNames(node.dependencies)
    && (forall k | 0 <= k < |node.dependencies| :: CurrentOk(v, idx, HistoryOf(node.tab), node.dependencies[k]))
    && (forall id | id in HistoryOf(node.tab) :: PastOk(v, idx, HistoryOf(node.tab), id))
  }

  method CurrentEdgesOf(v: Versions, idx: Index, history: map<FormulaId, TabDependency>, dependencies: seq<Requirement>)
    returns (ok: bool, edges: map<Rack, bool>)
    ensures ok <==>
      && DistinctNames(dependencies)
      && forall k | 0 <= k < |dependencies| :: CurrentOk(v, idx, history, dependencies[k])
    ensures ok ==> edges == map target | target in CurrentNames(dependencies) :: false
  {
    hide CurrentOk;
    edges := map[];
    var seen: set<Rack> := {};
    var i := 0;
    while i < |dependencies|
      invariant 0 <= i <= |dependencies|
      invariant seen == CurrentNames(dependencies[..i])
      invariant DistinctNames(dependencies[..i])
      invariant forall k | 0 <= k < i :: CurrentOk(v, idx, history, dependencies[k])
      invariant edges == map target | target in CurrentNames(dependencies[..i]) :: false
    {
      var requirement := dependencies[i];
      NamesSnoc(dependencies[..i], requirement);
      assert dependencies[..i + 1] == dependencies[..i] + [requirement];
      if requirement.name in seen {
        assert !DistinctNames(dependencies[..i + 1]);
        return false, edges;
      }
      if !CurrentOk(v, idx, history, requirement) {
        return false, edges;
      }
      seen := seen + {requirement.name};
      edges := edges[requirement.name := false];
      i := i + 1;
    }
    assert dependencies[..i] == dependencies;
    return true, edges;
  }

  lemma NamesSnoc(dependencies: seq<Requirement>, requirement: Requirement)
    ensures CurrentNames(dependencies + [requirement]) == CurrentNames(dependencies) + {requirement.name}
    ensures DistinctNames(dependencies + [requirement]) <==>
      DistinctNames(dependencies) && requirement.name !in CurrentNames(dependencies)
  {
    var longer := dependencies + [requirement];
    assert forall k | 0 <= k < |dependencies| :: longer[k] == dependencies[k];
    assert longer[|dependencies|] == requirement;
    if requirement.name in CurrentNames(dependencies) {
      var k :| 0 <= k < |dependencies| && dependencies[k].name == requirement.name;
      assert longer[k].name == longer[|dependencies|].name;
    }
  }

  method AddPastEdges(v: Versions, idx: Index, history: map<FormulaId, TabDependency>, current: map<Rack, bool>)
    returns (ok: bool, edges: map<Rack, bool>)
    requires forall target | target in current :: !current[target]
    ensures ok <==> forall id | id in history :: PastOk(v, idx, history, id)
    ensures ok ==> edges.Keys == current.Keys + PastNames(idx, history, history.Keys)
    ensures ok ==> forall target | target in edges :: edges[target] == (target !in current)
  {
    hide MinimumOk;
    edges := current;
    var left := history.Keys;
    while left != {}
      invariant left <= history.Keys
      invariant forall id | id in history && id !in left :: PastOk(v, idx, history, id)
      invariant edges.Keys == current.Keys + PastNames(idx, history, history.Keys - left)
      invariant forall target | target in edges :: edges[target] == (target !in current)
      decreases left
    {
      var id :| id in left;
      var entry := history[id];
      PastSnoc(idx, history, left, id);
      left := left - {id};
      if !entry.declaredDirectly {
        continue;
      }
      if id !in idx.byFullName {
        continue;
      }
      var child := idx.byFullName[id];
      if !MinimumOk(v, HistoricalRequirement(entry, child), child) {
        assert !PastOk(v, idx, history, id);
        return false, edges;
      }
      if child.name !in edges {
        edges := edges[child.name := true];
      }
    }
    assert history.Keys - left == history.Keys;
    return true, edges;
  }

  lemma PastSnoc(idx: Index, history: map<FormulaId, TabDependency>, left: set<FormulaId>, id: FormulaId)
    requires id in left && left <= history.Keys
    ensures PastNames(idx, history, history.Keys - (left - {id})) == PastNames(idx, history, history.Keys - left) +
      (if history[id].declaredDirectly && id in idx.byFullName then {idx.byFullName[id].name} else {})
  {
    assert history.Keys - (left - {id}) == history.Keys - left + {id};
  }

  /** The edges collected when a node is visited; refused exactly when the node is faulty. */
  method CollectEdges(v: Versions, idx: Index, node: Node) returns (edges: Option<map<Rack, bool>>)
    ensures edges.Some? <==> NodeOk(v, idx, node)
    ensures edges.Some? ==> edges.value == EdgeKinds(idx, node)
  {
    hide TabOk, DistinctNames, CurrentOk, PastOk, HistoryOf;
    var history := HistoricalMinimums(node.tab);
    if history.None? {
      return None;
    }
    var ok, current := CurrentEdgesOf(v, idx, history.value, node.dependencies);
    if !ok {
      return None;
    }
    var fine, all := AddPastEdges(v, idx, history.value, current);
    if !fine {
      return None;
    }
    return Some(all);
  }
}
