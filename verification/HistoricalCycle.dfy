/** A cycle that does not go through the root and does not fail: the code of
    internal/bottle/receipt.go, resolvedInstalledDependencies, against its comment. */
module HistoricalCycle {
  import opened Identity
  import opened Wrappers
  import opened Digraph
  import opened ReceiptGraph
  import opened ReceiptWalk
  import opened ReceiptPolicy

  /** A closure that is sound apart from cycles. */
  ghost predicate SoundApartFromCycles(v: Versions, root: Node, closure: seq<Node>, idx: Index) {
    && Indexes(idx, closure) && DistinctRacks(closure) && root in closure
    && (forall name | name in idx.nodes :: WellFormed(idx, idx.nodes[name].dependencies))
    && (forall name | Reaches(WalkGraph(idx), root.name, name) :: !FaultyAt(v, idx, name))
  }

  /** Exactly the cycles of signed edges fail, wherever they are. */
  lemma OnlySignedCyclesFail(v: Versions, root: Node, closure: seq<Node>, idx: Index)
    requires SoundApartFromCycles(v, root, closure, idx)
    ensures (exists error :: ErrorHolds(v, root, closure, error)) <==> !Acyclic(CurrentGraph(idx))
  {
    hide Acyclic, CurrentGraph, WalkGraph, FaultyAt, WellFormed, Indexes, DistinctRacks, Reaches;
    if Acyclic(CurrentGraph(idx)) {
      forall error ensures !ErrorHolds(v, root, closure, error) {
        SoundClosureExcludes(v, root, closure, idx, error);
      }
    } else {
      assert CurrentFaultHolds(idx, Cycle);
      assert ErrorHolds(v, root, closure, BadCurrentGraph(Cycle));
    }
  }

  function Named(id: FormulaId): Rack { Rack(id.name) }

  function Plain(id: FormulaId, dependencies: seq<Requirement>, tab: seq<TabDependency>): Node {
    Node(Named(id), Some(id), "1", 0, "1", 0, 0, dependencies, tab)
  }

  function Signed(id: FormulaId): Requirement { Requirement(Named(id), "", 0, 0, true) }

  function Past(id: FormulaId): TabDependency { TabDependency(Some(id), 0, 0, "1", true) }

  /** The root needs a, and a needs b, by signed edges; only b's old tab says that b needs a. */
  function Three(root: FormulaId, a: FormulaId, b: FormulaId): seq<Node> {
    [Plain(root, [Signed(a)], []), Plain(a, [Signed(b)], []), Plain(b, [], [Past(a)])]
  }

  function IndexOfThree(root: FormulaId, a: FormulaId, b: FormulaId): Index {
    var nodes := Three(root, a, b);
    Index(map[Named(root) := nodes[0], Named(a) := nodes[1], Named(b) := nodes[2]],
          map[root := nodes[0], a := nodes[1], b := nodes[2]])
  }

  ghost predicate Distinct(root: FormulaId, a: FormulaId, b: FormulaId) {
    root.name != a.name && root.name != b.name && a.name != b.name
  }

  lemma ThreeIndexed(root: FormulaId, a: FormulaId, b: FormulaId)
    requires Distinct(root, a, b)
    ensures Indexes(IndexOfThree(root, a, b), Three(root, a, b)) && DistinctRacks(Three(root, a, b))
  {
    hide Indexes;
    var nodes := Three(root, a, b);
    var none := Index(map[], map[]);
    var one := Index(none.nodes[Named(root) := nodes[0]], none.byFullName[root := nodes[0]]);
    var two := Index(one.nodes[Named(a) := nodes[1]], one.byFullName[a := nodes[1]]);
    NothingIndexed();
    IndexGrows(none, [], nodes[0]);
    IndexGrows(one, [] + [nodes[0]], nodes[1]);
    IndexGrows(two, [] + [nodes[0]] + [nodes[1]], nodes[2]);
    assert [] + [nodes[0]] + [nodes[1]] + [nodes[2]] == nodes;
  }

  lemma OneName(id: FormulaId)
    ensures CurrentNames([Signed(id)]) == {Named(id)} && CurrentNames([]) == {}
    ensures DistinctNames([Signed(id)])
  {
    assert [Signed(id)][0] == Signed(id);
  }

  lemma OneEntry(id: FormulaId)
    ensures HistoryOf([Past(id)]) == map[id := Past(id)] && HistoryOf([]) == map[] && TabOk([Past(id)]) && TabOk([])
  {
    assert [Past(id)][..0] == [];
  }

  /** The signed edges, and the historical one. */
  lemma EdgesOfThree(root: FormulaId, a: FormulaId, b: FormulaId)
    requires Distinct(root, a, b)
    ensures var idx := IndexOfThree(root, a, b);
      && CurrentGraph(idx)(Named(root)) == {Named(a)} && CurrentGraph(idx)(Named(a)) == {Named(b)}
      && CurrentGraph(idx)(Named(b)) == {}
      && WalkGraph(idx)(Named(root)) == {Named(a)} && WalkGraph(idx)(Named(a)) == {Named(b)}
      && WalkGraph(idx)(Named(b)) == {Named(a)}
  {
    hide CurrentNames, HistoryOf;
    OneName(a);
    OneName(b);
    OneEntry(a);
    var idx := IndexOfThree(root, a, b);
    assert PastNames(idx, map[], {}) == {};
    assert PastNames(idx, map[a := Past(a)], {a}) == {Named(a)};
    assert map[a := Past(a)].Keys == {a};
  }

  /** The version package reads "1" as version 1 and finds it equal to itself. */
  predicate Reads(v: Versions) { v.split("1") == Some(("1", 0)) && v.compare("1", "1") == 0 }

  lemma ThreeOk(v: Versions, root: FormulaId, a: FormulaId, b: FormulaId)
    requires Distinct(root, a, b) && Reads(v)
    ensures var idx := IndexOfThree(root, a, b);
      forall name | name in idx.nodes :: NodeOk(v, idx, idx.nodes[name])
  {
    hide CurrentNames, HistoryOf, TabOk;
    OneName(a);
    OneName(b);
    OneEntry(a);
  }

  lemma ThreeAcyclic(root: FormulaId, a: FormulaId, b: FormulaId)
    requires Distinct(root, a, b)
    ensures Acyclic(CurrentGraph(IndexOfThree(root, a, b)))
  {
    hide CurrentGraph;
    var idx := IndexOfThree(root, a, b);
    var order := [Named(b), Named(a), Named(root)];
    EdgesOfThree(root, a, b);
    assert order[..0] == [] && order[..1] == [Named(b)] && order[..2] == [Named(b), Named(a)];
    OrderedIsAcyclic(idx, order);
  }

  lemma ThreeSound(v: Versions, root: FormulaId, a: FormulaId, b: FormulaId)
    requires Distinct(root, a, b) && Reads(v)
    ensures SoundClosure(v, Three(root, a, b)[0], Three(root, a, b), IndexOfThree(root, a, b))
  {
    hide NodeOk, Acyclic, WalkGraph, CurrentGraph, Indexes, DistinctRacks;
    var idx := IndexOfThree(root, a, b);
    var e := WalkGraph(idx);
    ThreeIndexed(root, a, b);
    EdgesOfThree(root, a, b);
    ThreeOk(v, root, a, b);
    ThreeAcyclic(root, a, b);
    ClosedCoversReached(e, idx.nodes.Keys, {Named(root)});
    forall name | Reaches(e, Named(root), name) ensures !FaultyAt(v, idx, name) {
      assert ReachedFrom(e, {Named(root)}, name);
    }
  }

  /** The closure is sound, so its policy is computed without an error; yet a and b, which the
      root reaches, are in a cycle that the root is not part of. */
  lemma CycleNotThroughRoot(v: Versions, root: FormulaId, a: FormulaId, b: FormulaId)
    requires Distinct(root, a, b) && Reads(v)
    ensures var idx, nodes := IndexOfThree(root, a, b), Three(root, a, b);
      && SoundClosure(v, nodes[0], nodes, idx) && (forall error :: !ErrorHolds(v, nodes[0], nodes, error))
      && IsCycle(WalkGraph(idx), [Named(a), Named(b), Named(a)])
      && Named(root) !in [Named(a), Named(b), Named(a)]
      && Reaches(WalkGraph(idx), Named(root), Named(a))
  {
    hide SoundClosure, ErrorHolds, WalkGraph, IndexOfThree;
    var idx, nodes := IndexOfThree(root, a, b), Three(root, a, b);
    var e, cycle := WalkGraph(idx), [Named(a), Named(b), Named(a)];
    EdgesOfThree(root, a, b);
    assert Step(e, cycle, 0) && Step(e, cycle, 1);
    ReachesSelf(e, Named(root));
    ReachesStep(e, Named(root), Named(root), Named(a));
    ThreeSound(v, root, a, b);
    forall error ensures !ErrorHolds(v, nodes[0], nodes, error) {
      SoundClosureExcludes(v, nodes[0], nodes, idx, error);
    }
  }
}
