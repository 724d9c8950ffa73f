/** Canonical closures and their comparison: canonicalizeClosure and CanonicalClosureResult of
    internal/catalog/canonical.go, CompareClosure of internal/catalog/compare.go. Canonical
    bytes are compared as canonical values. */
module Canonical {
  import opened Identity
  import opened Catalog
  import opened Wrappers
  import opened Sorting
  import opened Digraph
  import opened Listing
  import opened ClosureCheck

  // ----- Orders -----

  function RawText(raw: Spelling): string {
    match raw
    case Bare(name) => name
    case Qualified(id) => Text(id)
    case Malformed(text) => text
  }

  /** Compares first keys, and second keys where the first are equal. */
  predicate LexLe(a1: string, a2: string, b1: string, b2: string) {
    if a1 != b1 then TextLe(a1, b1) else TextLe(a2, b2)
  }

  predicate MappingLe(a: RequestedMapping, b: RequestedMapping) {
    LexLe(Text(a.requested), Text(a.resolved), Text(b.requested), Text(b.resolved))
  }

  predicate RequirementLe(a: Requirement, b: Requirement) {
    LexLe(Text(a.id), RawText(a.raw), Text(b.id), RawText(b.raw))
  }

  lemma LexOrder<T(!new)>(key1: T -> string, key2: T -> string, le: (T, T) -> bool)
    requires forall x, y :: le(x, y) == LexLe(key1(x), key2(x), key1(y), key2(y))
    ensures TotalPreorder(le)
  {
    forall x, y ensures le(x, y) || le(y, x) {
      TextLeTotal(key1(x), key1(y));
      TextLeTotal(key2(x), key2(y));
    }
    forall x, y, z | le(x, y) && le(y, z) ensures le(x, z) {
      LexTrans(key1(x), key2(x), key1(y), key2(y), key1(z), key2(z));
    }
  }

  lemma LexTrans(a1: string, a2: string, b1: string, b2: string, c1: string, c2: string)
    requires LexLe(a1, a2, b1, b2) && LexLe(b1, b2, c1, c2)
    ensures LexLe(a1, a2, c1, c2)
  {
    if a1 == b1 && b1 == c1 {
      TextLeTrans(a2, b2, c2);
    } else if a1 != b1 && b1 != c1 {
      TextLeTrans(a1, b1, c1);
      if a1 == c1 {
        TextLeAntisym(a1, b1);
      }
    }
  }

  lemma OrdersAreTotal()
    ensures TotalPreorder(MappingLe) && TotalPreorder(RequirementLe) && TotalPreorder(NodeLe)
    ensures TotalPreorder(IdLe) && TotalPreorder(TextLe)
  {
    LexOrder((m: RequestedMapping) => Text(m.requested), (m: RequestedMapping) => Text(m.resolved), MappingLe);
    LexOrder((r: Requirement) => Text(r.id), (r: Requirement) => RawText(r.raw), RequirementLe);
    NodeLeOrder();
    IdLeOrder();
    TextLeOrder();
  }

  // ----- Arrangements -----

  /** `to` is `from`, sorted. */
  ghost predicate Arranged<T>(from: seq<T>, to: seq<T>, le: (T, T) -> bool) {
    multiset(from) == multiset(to) && SortedBy(to, le)
  }

  lemma SortArranges<T(!new)>(s: seq<T>, le: (T, T) -> bool)
    requires TotalPreorder(le)
    ensures Arranged(s, Sort(s, le), le)
  {
    SortSame(s, le);
    SortSorts(s, le);
  }

  ghost predicate DistinctBy<T, K>(s: seq<T>, key: T -> K) {
    forall i, j | 0 <= i < j < |s| :: key(s[i]) != key(s[j])
  }

  lemma DistinctPermutes<T, K>(s: seq<T>, t: seq<T>, key: T -> K)
    requires DistinctBy(s, key) && multiset(s) == multiset(t)
    ensures DistinctBy(t, key)
  {
    NoRepeatsPermutes(s, t);
    SameMembers(s, t);
    forall i, j | 0 <= i < j < |t| ensures key(t[i]) != key(t[j]) {
      assert t[i] in s && t[j] in s;
      var a :| 0 <= a < |s| && s[a] == t[i];
      var b :| 0 <= b < |s| && s[b] == t[j];
    }
  }

  lemma DistinctKeys<T, K>(s: seq<T>, key: T -> K, x: T, y: T)
    requires DistinctBy(s, key) && x in s && y in s && key(x) == key(y)
    ensures x == y
  {
    var i :| 0 <= i < |s| && s[i] == x;
    var j :| 0 <= j < |s| && s[j] == y;
  }

  /** Lists without repeats that hold the same elements are arranged alike. */
  lemma SameSetArranged<T(!new)>(s: seq<T>, t: seq<T>, a: seq<T>, b: seq<T>, le: (T, T) -> bool)
    requires NoRepeats(s) && NoRepeats(t) && (forall x :: x in s <==> x in t)
    requires Arranged(s, a, le) && Arranged(t, b, le) && KeyedBy(s, le) && TotalPreorder(le)
    ensures a == b
  {
    NoRepeatsCounts(s);
    NoRepeatsCounts(t);
    forall x ensures multiset(s)[x] == multiset(t)[x] {
      assert x in multiset(s) <==> x in s;
      assert x in multiset(t) <==> x in t;
    }
    SameMembers(s, a);
    SortedUnique(a, b, le);
  }

  // ----- The canonical form -----

  /** A JSON round trip drops an empty tap list, which is written with omitempty. */
  function Clone(c: ClosureResult): ClosureResult {
    if c.taps == Some([]) then c.(taps := None) else c
  }

  function TapList(c: ClosureResult): seq<TapId> { if c.taps.Some? then c.taps.value else [] }

  function CanonicalNode(node: Node): Node { node.(dependencies := Sort(node.dependencies, RequirementLe)) }

  function CanonicalNodes(nodes: seq<Node>): (r: seq<Node>)
    ensures |r| == |nodes| && forall k | 0 <= k < |r| :: r[k] == CanonicalNode(nodes[k])
  {
    seq(|nodes|, k requires 0 <= k < |nodes| => CanonicalNode(nodes[k]))
  }

  /** The taps of `d` are the sorted taps of `c`, given or by default. */
  ghost predicate CanonicalTaps(c: ClosureResult, d: ClosureResult) {
    && d.taps != Some([])
    && (if TapList(c) != [] then Arranged(TapList(c), TapList(d), TextLe)
        else NoRepeats(TapList(d)) && Elems(TapList(d)) == DefaultTaps(c.nodes) && SortedBy(TapList(d), TextLe))
  }

  ghost predicate IsCanonical(c: ClosureResult, d: ClosureResult) {
    && Arranged(c.requested, d.requested, IdLe)
    && d.mappings.Some? && Arranged(EffectiveMappings(c), d.mappings.value, MappingLe)
    && CanonicalTaps(c, d)
    && Arranged(CanonicalNodes(c.nodes), d.nodes, NodeLe)
    && d.installOrder == c.installOrder
  }

  /** canonicalizeClosure on a clone. */
  method Canonicalize(c: ClosureResult) returns (d: ClosureResult)
    ensures IsCanonical(c, d)
  {
    hide Arranged;
    OrdersAreTotal();
    var clone := Clone(c);
    var mappings := EffectiveMappings(clone);
    assert mappings == EffectiveMappings(c);
    var taps := SortedTaps(clone);
    SortArranges(mappings, MappingLe);
    SortArranges(clone.requested, IdLe);
    var nodes := SortedNodes(clone.nodes);
    d := ClosureResult(Sort(clone.requested, IdLe), Some(Sort(mappings, MappingLe)),
                       if taps == [] then None else Some(taps), nodes, clone.installOrder);
    assert TapList(d) == taps;
  }

  method SortedTaps(clone: ClosureResult) returns (taps: seq<TapId>)
    requires clone.taps != Some([])
    ensures clone.taps.Some? ==> Arranged(clone.taps.value, taps, TextLe) && taps != []
    ensures clone.taps.None? ==> NoRepeats(taps) && Elems(taps) == DefaultTaps(clone.nodes) && SortedBy(taps, TextLe)
  {
    TextLeOrder();
    if clone.taps.Some? {
      SortArranges(clone.taps.value, TextLe);
      SortPermutes(clone.taps.value, TextLe);
      return Sort(clone.taps.value, TextLe);
    }
    var seen: set<TapId> := {};
    for i := 0 to |clone.nodes|
      invariant seen == set k | 0 <= k < i && !IsCore(clone.nodes[k].id) :: clone.nodes[k].tap
    {
      if !IsCore(clone.nodes[i].id) {
        seen := seen + {clone.nodes[i].tap};
      }
    }
    taps := ListStrings(seen);
  }

  /** The nodes sorted by identity, then the dependencies of each in place. */
  method SortedNodes(nodes: seq<Node>) returns (sorted: seq<Node>)
    ensures Arranged(CanonicalNodes(nodes), sorted, NodeLe)
  {
    hide CanonicalNode;
    NodeLeOrder();
    sorted := Sort(nodes, NodeLe);
    ghost var before := sorted;
    SortArranges(nodes, NodeLe);
    for i := 0 to |sorted|
      invariant |sorted| == |before|
      invariant forall k | 0 <= k < i :: sorted[k] == CanonicalNode(before[k])
      invariant forall k | i <= k < |sorted| :: sorted[k] == before[k]
    {
      sorted := sorted[i := CanonicalNode(sorted[i])];
    }
    assert sorted == CanonicalNodes(before);
    MapPermutes(nodes, before);
    forall k | 0 <= k < |before| ensures sorted[k].id == before[k].id {
      CanonicalNodeId(before[k]);
    }
  }

  lemma CanonicalNodeId(node: Node)
    ensures CanonicalNode(node).id == node.id
  {
  }

  lemma RemoveAt<T>(t: seq<T>, k: nat)
    requires k < |t|
    ensures multiset(t[..k] + t[k + 1..]) == multiset(t) - multiset{t[k]}
  {
    assert t == t[..k] + [t[k]] + t[k + 1..];
  }

  lemma MapAround(t: seq<Node>, k: nat)
    requires k < |t|
    ensures multiset(CanonicalNodes(t[..k] + t[k + 1..])) == multiset(CanonicalNodes(t)) - multiset{CanonicalNode(t[k])}
    ensures CanonicalNode(t[k]) in multiset(CanonicalNodes(t))
  {
    hide CanonicalNode;
    var all := CanonicalNodes(t);
    assert CanonicalNodes(t[..k] + t[k + 1..]) == all[..k] + all[k + 1..];
    RemoveAt(all, k);
  }

  lemma {:induction false} MapPermutes(s: seq<Node>, t: seq<Node>)
    requires multiset(s) == multiset(t)
    ensures multiset(CanonicalNodes(s)) == multiset(CanonicalNodes(t))
  {
    hide CanonicalNode, CanonicalNodes;
    SameMembers(s, t);
    if s != [] {
      assert s[0] in t;
      var k :| 0 <= k < |t| && t[k] == s[0];
      RemoveAt(t, k);
      TailMultiset(s);
      MapPermutes(s[1..], t[..k] + t[k + 1..]);
      MapOneMore(s, t, k);
    }
  }

  lemma MapTail(s: seq<Node>)
    requires s != []
    ensures multiset(CanonicalNodes(s[1..])) == multiset(CanonicalNodes(s)) - multiset{CanonicalNode(s[0])}
    ensures CanonicalNode(s[0]) in multiset(CanonicalNodes(s))
  {
    hide CanonicalNode, CanonicalNodes;
    MapAround(s, 0);
    assert s[..0] + s[1..] == s[1..];
  }

  lemma MapOneMore(s: seq<Node>, t: seq<Node>, k: nat)
    requires s != [] && k < |t| && t[k] == s[0]
    requires multiset(CanonicalNodes(s[1..])) == multiset(CanonicalNodes(t[..k] + t[k + 1..]))
    ensures multiset(CanonicalNodes(s)) == multiset(CanonicalNodes(t))
  {
    hide CanonicalNode, CanonicalNodes;
    MapTail(s);
    MapAround(t, k);
    Restore(multiset(CanonicalNodes(s)), multiset(CanonicalNodes(t)), CanonicalNode(s[0]));
  }

  lemma Restore<T>(a: multiset<T>, b: multiset<T>, x: T)
    requires x in a && x in b && a - multiset{x} == b - multiset{x}
    ensures a == b
  {
    assert a == (a - multiset{x}) + multiset{x} && b == (b - multiset{x}) + multiset{x};
  }

  // ----- The canonical form of a sound closure is sound -----

  lemma CanonicalNodeOk(node: Node)
    ensures forall r :: r in CanonicalNode(node).dependencies <==> r in node.dependencies
    ensures NodeOk(node) ==> NodeOk(CanonicalNode(node))
  {
    hide RequirementOk;
    var s, t := node.dependencies, CanonicalNode(node).dependencies;
    SortPermutes(s, RequirementLe);
    if NodeOk(node) {
      DistinctPermutes(s, t, (r: Requirement) => r.id);
      forall k | 0 <= k < |t| ensures RequirementOk(t[k], node.tap) && t[k].id != node.id {
        assert t[k] in s;
      }
    }
  }

  /** The nodes of a canonical form are the canonical nodes. */
  ghost predicate NodesMatch(nodes: seq<Node>, sorted: seq<Node>) {
    && (forall node | node in nodes :: CanonicalNode(node) in sorted)
    && (forall node | node in sorted :: exists k | 0 <= k < |nodes| :: node == CanonicalNode(nodes[k]))
  }

  lemma NodesArranged(nodes: seq<Node>, sorted: seq<Node>)
    requires multiset(CanonicalNodes(nodes)) == multiset(sorted)
    ensures NodesMatch(nodes, sorted) && |sorted| == |nodes| && Ids(sorted) == Ids(nodes)
  {
    hide CanonicalNode;
    var mapped := CanonicalNodes(nodes);
    SameMembers(mapped, sorted);
    forall node | node in nodes ensures CanonicalNode(node) in sorted {
      var k :| 0 <= k < |nodes| && nodes[k] == node;
      assert mapped[k] in mapped;
    }
    forall node | node in sorted ensures exists k | 0 <= k < |nodes| :: node == CanonicalNode(nodes[k]) {
      assert node in mapped;
      var k :| 0 <= k < |mapped| && mapped[k] == node;
    }
    SameIds(nodes, sorted);
  }

  lemma SameIds(nodes: seq<Node>, sorted: seq<Node>)
    requires NodesMatch(nodes, sorted)
    ensures Ids(sorted) == Ids(nodes) && DefaultTaps(sorted) == DefaultTaps(nodes)
  {
    hide CanonicalNode;
    forall k | 0 <= k < |sorted|
      ensures exists j | 0 <= j < |nodes| :: nodes[j].id == sorted[k].id && nodes[j].tap == sorted[k].tap
    {
      assert sorted[k] in sorted;
      var j :| 0 <= j < |nodes| && sorted[k] == CanonicalNode(nodes[j]);
      CanonicalNodeFields(nodes[j]);
    }
    forall k | 0 <= k < |nodes|
      ensures exists j | 0 <= j < |sorted| :: nodes[k].id == sorted[j].id && nodes[k].tap == sorted[j].tap
    {
      assert nodes[k] in nodes;
      CanonicalNodeFields(nodes[k]);
      var j :| 0 <= j < |sorted| && sorted[j] == CanonicalNode(nodes[k]);
    }
  }

  lemma NodesStayOk(nodes: seq<Node>, sorted: seq<Node>)
    requires multiset(CanonicalNodes(nodes)) == multiset(sorted) && NodesOk(nodes)
    ensures NodesOk(sorted)
  {
    hide NodeOk, CanonicalNode;
    NodesArranged(nodes, sorted);
    var mapped := CanonicalNodes(nodes);
    forall k | 0 <= k < |nodes| ensures mapped[k].id == nodes[k].id && mapped[k].name == nodes[k].name {
      CanonicalNodeFields(nodes[k]);
    }
    DistinctPermutes(mapped, sorted, (n: Node) => n.id);
    DistinctPermutes(mapped, sorted, (n: Node) => n.name);
    forall k | 0 <= k < |sorted| ensures NodeOk(sorted[k]) {
      assert sorted[k] in sorted;
      var j :| 0 <= j < |nodes| && sorted[k] == CanonicalNode(nodes[j]);
      CanonicalNodeOk(nodes[j]);
    }
  }

  lemma CanonicalNodeFields(node: Node)
    ensures CanonicalNode(node) == node.(dependencies := CanonicalNode(node).dependencies)
  {
  }

  lemma MappingsStayOk(mappings: seq<RequestedMapping>, sorted: seq<RequestedMapping>, requested: seq<FormulaId>,
                       roots: seq<FormulaId>)
    requires multiset(mappings) == multiset(sorted) && multiset(requested) == multiset(roots)
    requires MappingsOk(mappings, requested)
    ensures MappingsOk(sorted, roots)
  {
    SameMembers(mappings, sorted);
    SameMembers(requested, roots);
    DistinctSources(mappings);
    DistinctPermutes(mappings, sorted, (m: RequestedMapping) => m.requested);
    DistinctPermutes(mappings, sorted, (m: RequestedMapping) => m.resolved);
    forall root | root in Elems(roots) ensures root in Elems(Results(sorted)) {
      assert root in Elems(requested);
      var k :| 0 <= k < |mappings| && Results(mappings)[k] == root;
      assert mappings[k] in sorted;
      var j :| 0 <= j < |sorted| && sorted[j] == mappings[k];
      assert Results(sorted)[j] == root;
    }
  }

  lemma DistinctSources(mappings: seq<RequestedMapping>)
    requires NoRepeats(Sources(mappings)) && NoRepeats(Results(mappings))
    ensures DistinctBy(mappings, (m: RequestedMapping) => m.requested)
    ensures DistinctBy(mappings, (m: RequestedMapping) => m.resolved)
  {
    forall i, j | 0 <= i < j < |mappings|
      ensures mappings[i].requested != mappings[j].requested && mappings[i].resolved != mappings[j].resolved
    {
      assert Sources(mappings)[i] != Sources(mappings)[j] && Results(mappings)[i] != Results(mappings)[j];
    }
  }

  /** Whether the given tap list is empty or absent makes no difference to a sound closure. */
  lemma DefaultAgrees(c: ClosureResult)
    requires ClosureOk(c) && TapList(c) == []
    ensures DefaultTaps(c.nodes) == EffectiveTaps(c)
  {
    hide NodesOk, MappingsOk, RootsOk, OrderOk, AllReached;
    if c.taps.Some? && c.nodes != [] && c.requested != [] {
      forall k | 0 <= k < |c.nodes| ensures IsCore(c.nodes[k].id) {
        assert NodeTapsOk(c.nodes[k], EffectiveTaps(c), Ids(c.nodes));
      }
    }
  }

  lemma TapsStay(c: ClosureResult, d: ClosureResult)
    requires ClosureOk(c) && CanonicalTaps(c, d) && DefaultTaps(d.nodes) == DefaultTaps(c.nodes)
    ensures EffectiveTaps(d) == EffectiveTaps(c) == Elems(TapList(d)) && NoRepeats(TapList(d))
  {
    hide NodesOk, MappingsOk, RootsOk, OrderOk, AllReached, EdgesOk;
    if TapList(c) == [] {
      DefaultAgrees(c);
    } else {
      NoRepeatsPermutes(TapList(c), TapList(d));
    }
  }

  lemma EdgesStay(mappings: seq<RequestedMapping>, sorted: seq<RequestedMapping>, nodes: seq<Node>, nodes': seq<Node>,
                  taps: set<TapId>, ids: set<FormulaId>)
    requires multiset(mappings) == multiset(sorted) && NodesMatch(nodes, nodes') && EdgesOk(mappings, nodes, taps, ids)
    ensures EdgesOk(sorted, nodes', taps, ids)
  {
    hide RequirementTapsOk, CanonicalNode;
    SameMembers(mappings, sorted);
    forall k | 0 <= k < |sorted| ensures !IsCore(sorted[k].requested) ==> sorted[k].requested.tap in taps {
      assert sorted[k] in mappings;
    }
    forall k | 0 <= k < |nodes'| ensures NodeTapsOk(nodes'[k], taps, ids) {
      assert nodes'[k] in nodes';
      var j :| 0 <= j < |nodes| && nodes'[k] == CanonicalNode(nodes[j]);
      CanonicalNodeOk(nodes[j]);
      CanonicalNodeFields(nodes[j]);
      assert NodeTapsOk(nodes[j], taps, ids);
      var a, b := nodes[j].dependencies, nodes'[k].dependencies;
      forall m | 0 <= m < |b| ensures RequirementTapsOk(b[m], taps, ids) {
        assert b[m] in a;
      }
    }
  }

  lemma OrderStays(order: seq<FormulaId>, nodes: seq<Node>, nodes': seq<Node>, ids: set<FormulaId>)
    requires NodesMatch(nodes, nodes') && OrderOk(order, nodes, ids)
    ensures OrderOk(order, nodes', ids)
  {
    hide Before, NoRepeats, CanonicalNode;
    forall k | 0 <= k < |nodes'| ensures NodePlaced(order, nodes'[k]) {
      assert nodes'[k] in nodes';
      var j :| 0 <= j < |nodes| && nodes'[k] == CanonicalNode(nodes[j]);
      CanonicalNodeOk(nodes[j]);
      CanonicalNodeFields(nodes[j]);
      assert NodePlaced(order, nodes[j]);
      var a, b := nodes[j].dependencies, nodes'[k].dependencies;
      forall m | 0 <= m < |b| ensures Before(order, b[m].id, nodes[j].id) {
        assert b[m] in a;
      }
    }
  }

  lemma SameEdges(nodes: seq<Node>, nodes': seq<Node>, id: FormulaId)
    requires NodesMatch(nodes, nodes') && NodesOk(nodes) && NodesOk(nodes')
    ensures GraphEdges(NodeMap(nodes))(id) == GraphEdges(NodeMap(nodes'))(id)
  {
    hide NodeOk, CanonicalNode, NodeMap;
    NodeMapLists(nodes);
    NodeMapLists(nodes');
    SameIds(nodes, nodes');
    if id in NodeMap(nodes) {
      var node, other := NodeMap(nodes)[id], NodeMap(nodes')[id];
      assert node in nodes && CanonicalNode(node) in nodes';
      CanonicalNodeId(node);
      DistinctKeys(nodes', (n: Node) => n.id, CanonicalNode(node), other);
      CanonicalNodeOk(node);
      SameTargets(node, other);
    }
  }

  lemma SameTargets(a: Node, b: Node)
    requires forall r :: r in a.dependencies <==> r in b.dependencies
    ensures (set k | 0 <= k < |a.dependencies| :: a.dependencies[k].id) == set k | 0 <= k < |b.dependencies| ::
      b.dependencies[k].id
  {
    forall k | 0 <= k < |a.dependencies|
      ensures a.dependencies[k].id in set k | 0 <= k < |b.dependencies| :: b.dependencies[k].id
    {
      assert a.dependencies[k] in b.dependencies;
    }
    forall k | 0 <= k < |b.dependencies|
      ensures b.dependencies[k].id in set k | 0 <= k < |a.dependencies| :: a.dependencies[k].id
    {
      assert b.dependencies[k] in a.dependencies;
    }
  }

  lemma ReachedStays(nodes: seq<Node>, nodes': seq<Node>, requested: seq<FormulaId>, roots: seq<FormulaId>)
    requires NodesMatch(nodes, nodes') && NodesOk(nodes) && NodesOk(nodes') && Elems(requested) == Elems(roots)
    requires AllReached(nodes, requested)
    ensures AllReached(nodes', roots)
  {
    hide NodesOk, CanonicalNode, NodeMap, GraphEdges, Reaches;
    var e, f := GraphEdges(NodeMap(nodes)), GraphEdges(NodeMap(nodes'));
    forall x ensures e(x) <= f(x) {
      SameEdges(nodes, nodes', x);
    }
    forall k | 0 <= k < |nodes'| ensures ReachedFrom(f, Elems(roots), nodes'[k].id) {
      assert nodes'[k] in nodes';
      var j :| 0 <= j < |nodes| && nodes'[k] == CanonicalNode(nodes[j]);
      CanonicalNodeId(nodes[j]);
      assert ReachedFrom(e, Elems(requested), nodes[j].id);
      var a :| a in Elems(requested) && Reaches(e, a, nodes[j].id);
      ReachesMono(e, f, a, nodes[j].id);
    }
  }

  /** Canonicalization never spoils a closure, so the check after it always passes. */
  lemma CanonicalStaysOk(c: ClosureResult, d: ClosureResult)
    requires ClosureOk(c) && IsCanonical(c, d)
    ensures ClosureOk(d)
  {
    hide NodesOk, MappingsOk, EdgesOk, OrderOk, AllReached, CanonicalNode, TapsOk, CanonicalTaps, NodesMatch,
      NoRepeats, DefaultTaps;
    NodesArranged(c.nodes, d.nodes);
    SameIds(c.nodes, d.nodes);
    TapsStay(c, d);
    SameMembers(c.requested, d.requested);
    SameMembers(EffectiveMappings(c), d.mappings.value);
    if c.requested == [] || c.nodes == [] {
      EmptyStays(c, d);
    } else {
      NodesStayOk(c.nodes, d.nodes);
      NoRepeatsPermutes(c.requested, d.requested);
      MappingsStayOk(EffectiveMappings(c), d.mappings.value, c.requested, d.requested);
      EdgesStay(EffectiveMappings(c), d.mappings.value, c.nodes, d.nodes, EffectiveTaps(c), Ids(c.nodes));
      OrderStays(c.installOrder, c.nodes, d.nodes, Ids(c.nodes));
      ReachedStays(c.nodes, d.nodes, c.requested, d.requested);
      TapsStayOk(c, d);
    }
  }

  lemma TapsStayOk(c: ClosureResult, d: ClosureResult)
    requires TapsOk(c) && EffectiveTaps(d) == EffectiveTaps(c) && NoRepeats(TapList(d))
    ensures TapsOk(d)
  {
  }

  lemma EmptyStays(c: ClosureResult, d: ClosureResult)
    requires IsEmpty(c) && IsCanonical(c, d)
    ensures IsEmpty(d)
  {
    SameMembers(c.requested, d.requested);
    SameMembers(EffectiveMappings(c), d.mappings.value);
    SameMembers(CanonicalNodes(c.nodes), d.nodes);
    NoElems(TapList(d));
  }

  lemma NoElems<T>(s: seq<T>)
    ensures Elems(s) == {} <==> s == []
  {
    if s != [] {
      assert s[0] in Elems(s);
    }
  }

  // ----- What the comparison decides -----

  ghost predicate SameDependencies(a: seq<Requirement>, b: seq<Requirement>) { forall r :: r in a <==> r in b }

  ghost predicate SameNode(a: Node, b: Node) {
    a == b.(dependencies := a.dependencies) && SameDependencies(a.dependencies, b.dependencies)
  }

  ghost predicate HasSame(node: Node, nodes: seq<Node>) { exists k | 0 <= k < |nodes| :: SameNode(node, nodes[k]) }

  /** The same install order, and the same roots, mappings, taps and nodes in any order, where
      defaults count and nodes may list their dependencies in any order. */
  ghost predicate SameClosure(a: ClosureResult, b: ClosureResult) {
    && a.installOrder == b.installOrder
    && (forall id :: id in a.requested <==> id in b.requested)
    && (forall m :: m in EffectiveMappings(a) <==> m in EffectiveMappings(b))
    && EffectiveTaps(a) == EffectiveTaps(b)
    && (forall node | node in a.nodes :: HasSame(node, b.nodes))
    && (forall node | node in b.nodes :: HasSame(node, a.nodes))
  }

  lemma RequirementsKeyed(s: seq<Requirement>)
    requires DistinctTargets(s)
    ensures NoRepeats(s) && KeyedBy(s, RequirementLe)
  {
    forall x, y | x in s && y in s && RequirementLe(x, y) && RequirementLe(y, x) ensures x == y {
      SameFirst(Text(x.id), RawText(x.raw), Text(y.id), RawText(y.raw));
      TextInjective(x.id, y.id);
      DistinctKeys(s, (r: Requirement) => r.id, x, y);
    }
  }

  lemma SameFirst(a1: string, a2: string, b1: string, b2: string)
    requires LexLe(a1, a2, b1, b2) && LexLe(b1, b2, a1, a2)
    ensures a1 == b1
  {
    if a1 != b1 {
      TextLeAntisym(a1, b1);
    }
  }

  lemma MappingsKeyed(s: seq<RequestedMapping>)
    requires NoRepeats(Sources(s)) && NoRepeats(Results(s))
    ensures NoRepeats(s) && KeyedBy(s, MappingLe)
  {
    DistinctSources(s);
    forall x, y | x in s && y in s && MappingLe(x, y) && MappingLe(y, x) ensures x == y {
      SameFirst(Text(x.requested), Text(x.resolved), Text(y.requested), Text(y.resolved));
      TextInjective(x.requested, y.requested);
      DistinctKeys(s, (m: RequestedMapping) => m.requested, x, y);
    }
    forall i, j | 0 <= i < j < |s| ensures s[i] != s[j] {
      assert s[i].requested != s[j].requested;
    }
  }

  lemma NodesKeyed(s: seq<Node>)
    requires NodesOk(s)
    ensures NoRepeats(s) && KeyedBy(s, NodeLe)
  {
    hide NodeOk;
    forall x, y | x in s && y in s && NodeLe(x, y) && NodeLe(y, x) ensures x == y {
      IdLeAntisym(x.id, y.id);
      DistinctKeys(s, (n: Node) => n.id, x, y);
    }
  }

  lemma CanonicalNodeDecides(a: Node, b: Node)
    requires NodeOk(a) && NodeOk(b)
    ensures CanonicalNode(a) == CanonicalNode(b) <==> SameNode(a, b)
  {
    hide RequirementOk;
    CanonicalNodeOk(a);
    CanonicalNodeOk(b);
    if SameNode(a, b) {
      OrdersAreTotal();
      RequirementsKeyed(a.dependencies);
      RequirementsKeyed(b.dependencies);
      SortArranges(a.dependencies, RequirementLe);
      SortArranges(b.dependencies, RequirementLe);
      var x, y := CanonicalNode(a).dependencies, CanonicalNode(b).dependencies;
      SameSetArranged(a.dependencies, b.dependencies, x, y, RequirementLe);
    }
  }

  /** Sorted canonical nodes are equal exactly when every node has its like on the other side. */
  lemma NodesDecide(a: seq<Node>, b: seq<Node>, a': seq<Node>, b': seq<Node>)
    requires NodesOk(a) && NodesOk(b)
    requires Arranged(CanonicalNodes(a), a', NodeLe) && Arranged(CanonicalNodes(b), b', NodeLe)
    ensures a' == b' <==> (forall node | node in a :: HasSame(node, b)) && (forall node | node in b :: HasSame(node, a))
  {
    hide NodeOk, CanonicalNode, SameNode;
    NodesArranged(a, a');
    NodesArranged(b, b');
    NodesStayOk(a, a');
    NodesStayOk(b, b');
    if a' == b' {
      LikesFound(a, b, a');
      LikesFound(b, a, a');
    } else if (forall node | node in a :: HasSame(node, b)) && (forall node | node in b :: HasSame(node, a)) {
      LikesListed(a, b, a', b');
      LikesListed(b, a, b', a');
      OrdersAreTotal();
      NodesKeyed(a');
      NodesKeyed(b');
      SameSetArranged(a', b', a', b', NodeLe);
    }
  }

  lemma LikesFound(a: seq<Node>, b: seq<Node>, sorted: seq<Node>)
    requires NodesOk(a) && NodesOk(b) && NodesMatch(a, sorted) && NodesMatch(b, sorted)
    ensures forall node | node in a :: HasSame(node, b)
  {
    hide NodeOk, CanonicalNode, SameNode;
    forall node | node in a ensures HasSame(node, b) {
      assert CanonicalNode(node) in sorted;
      var k :| 0 <= k < |b| && CanonicalNode(node) == CanonicalNode(b[k]);
      CanonicalNodeDecides(node, b[k]);
    }
  }

  lemma LikesListed(a: seq<Node>, b: seq<Node>, a': seq<Node>, b': seq<Node>)
    requires NodesOk(a) && NodesOk(b) && NodesMatch(a, a') && NodesMatch(b, b')
    requires forall node | node in a :: HasSame(node, b)
    ensures forall node | node in a' :: node in b'
  {
    hide NodeOk, CanonicalNode, SameNode;
    forall node | node in a' ensures node in b' {
      var j :| 0 <= j < |a| && node == CanonicalNode(a[j]);
      assert a[j] in a && HasSame(a[j], b);
      var k :| 0 <= k < |b| && SameNode(a[j], b[k]);
      CanonicalNodeDecides(a[j], b[k]);
      assert b[k] in b;
    }
  }

  lemma RootsDecide(a: seq<FormulaId>, b: seq<FormulaId>, a': seq<FormulaId>, b': seq<FormulaId>)
    requires NoRepeats(a) && NoRepeats(b) && Arranged(a, a', IdLe) && Arranged(b, b', IdLe)
    ensures a' == b' <==> forall id :: id in a <==> id in b
  {
    SameMembers(a, a');
    SameMembers(b, b');
    OrdersAreTotal();
    if forall id :: id in a <==> id in b {
      forall x, y | x in a && y in a && IdLe(x, y) && IdLe(y, x) ensures x == y {
        IdLeAntisym(x, y);
      }
      SameSetArranged(a, b, a', b', IdLe);
    }
  }

  lemma MappingsDecide(a: seq<RequestedMapping>, b: seq<RequestedMapping>, a': seq<RequestedMapping>,
                       b': seq<RequestedMapping>)
    requires NoRepeats(Sources(a)) && NoRepeats(Results(a)) && NoRepeats(Sources(b)) && NoRepeats(Results(b))
    requires Arranged(a, a', MappingLe) && Arranged(b, b', MappingLe)
    ensures a' == b' <==> forall m :: m in a <==> m in b
  {
    SameMembers(a, a');
    SameMembers(b, b');
    OrdersAreTotal();
    MappingsKeyed(a);
    MappingsKeyed(b);
    if forall m :: m in a <==> m in b {
      SameSetArranged(a, b, a', b', MappingLe);
    }
  }

  lemma TapsDecide(a: seq<TapId>, b: seq<TapId>)
    requires NoRepeats(a) && NoRepeats(b) && SortedBy(a, TextLe) && SortedBy(b, TextLe)
    ensures a == b <==> Elems(a) == Elems(b)
  {
    TextLeOrder();
    if Elems(a) == Elems(b) {
      forall x ensures x in a <==> x in b {
        assert x in Elems(a) <==> x in Elems(b);
      }
      forall x, y | x in a && y in a && TextLe(x, y) && TextLe(y, x) ensures x == y {
        TextLeAntisym(x, y);
      }
      SameSetArranged(a, b, a, b, TextLe);
    }
  }

  lemma CanonicalTapsSorted(c: ClosureResult, d: ClosureResult)
    requires CanonicalTaps(c, d)
    ensures SortedBy(TapList(d), TextLe) && d.taps == if TapList(d) == [] then None else Some(TapList(d))
  {
  }

  /** Sound closures have the same canonical form exactly when they are the same closure. */
  lemma CanonicalDecides(a: ClosureResult, b: ClosureResult, a': ClosureResult, b': ClosureResult)
    requires ClosureOk(a) && ClosureOk(b) && IsCanonical(a, a') && IsCanonical(b, b')
    ensures a' == b' <==> SameClosure(a, b)
  {
    hide ClosureOk, Arranged, CanonicalTaps, HasSame, NoRepeats, NodesOk, SortedBy, EffectiveTaps, EffectiveMappings,
      DefaultTaps, Ids;
    SoundParts(a);
    SoundParts(b);
    RootsDecide(a.requested, b.requested, a'.requested, b'.requested);
    MappingsDecide(EffectiveMappings(a), EffectiveMappings(b), a'.mappings.value, b'.mappings.value);
    NodesDecide(a.nodes, b.nodes, a'.nodes, b'.nodes);
    TapsOf(a, a');
    TapsOf(b, b');
    TapsDecide(TapList(a'), TapList(b'));
  }

  lemma TapsOf(c: ClosureResult, d: ClosureResult)
    requires ClosureOk(c) && IsCanonical(c, d)
    ensures NoRepeats(TapList(d)) && SortedBy(TapList(d), TextLe) && Elems(TapList(d)) == EffectiveTaps(c)
    ensures d.taps == if TapList(d) == [] then None else Some(TapList(d))
  {
    hide ClosureOk, CanonicalTaps, NoRepeats, SortedBy, EffectiveTaps, DefaultTaps, CanonicalNode, NodesMatch;
    NodesArranged(c.nodes, d.nodes);
    SameIds(c.nodes, d.nodes);
    TapsStay(c, d);
    CanonicalTapsSorted(c, d);
  }

  lemma SoundParts(c: ClosureResult)
    requires ClosureOk(c)
    ensures NoRepeats(c.requested) && NodesOk(c.nodes)
    ensures NoRepeats(Sources(EffectiveMappings(c))) && NoRepeats(Results(EffectiveMappings(c)))
  {
    hide NodeOk, EdgesOk, OrderOk, AllReached, TapsOk;
  }

  /** A closure and its canonical form are the same closure. */
  lemma CanonicalIsSame(c: ClosureResult, d: ClosureResult)
    requires ClosureOk(c) && IsCanonical(c, d)
    ensures SameClosure(c, d)
  {
    hide ClosureOk, CanonicalTaps, NodesOk, NodesMatch, CanonicalNode, SameNode, NoRepeats, SortedBy, DefaultTaps,
      Ids;
    SoundParts(c);
    SameMembers(c.requested, d.requested);
    SameMembers(EffectiveMappings(c), d.mappings.value);
    NodesArranged(c.nodes, d.nodes);
    SameIds(c.nodes, d.nodes);
    TapsStay(c, d);
    NodesLike(c.nodes, d.nodes);
  }

  lemma NodesLike(nodes: seq<Node>, sorted: seq<Node>)
    requires NodesMatch(nodes, sorted)
    ensures forall node | node in nodes :: HasSame(node, sorted)
    ensures forall node | node in sorted :: HasSame(node, nodes)
  {
    hide CanonicalNode;
    forall node | node in nodes ensures HasSame(node, sorted) {
      CanonicalNodeOk(node);
      CanonicalNodeFields(node);
      var k :| 0 <= k < |sorted| && sorted[k] == CanonicalNode(node);
      assert SameNode(node, sorted[k]);
    }
    forall node | node in sorted ensures HasSame(node, nodes) {
      var k :| 0 <= k < |nodes| && node == CanonicalNode(nodes[k]);
      CanonicalNodeOk(nodes[k]);
      CanonicalNodeFields(nodes[k]);
      assert SameNode(node, nodes[k]);
    }
  }

  /** Canonicalizing twice changes nothing. */
  lemma CanonicalTwice(c: ClosureResult, d: ClosureResult, e: ClosureResult)
    requires ClosureOk(c) && IsCanonical(c, d) && IsCanonical(d, e)
    ensures e == d
  {
    hide ClosureOk, IsCanonical, SameClosure;
    CanonicalStaysOk(c, d);
    CanonicalIsSame(c, d);
    CanonicalDecides(c, d, d, e);
  }

  datatype Canonicalized = Bytes(form: ClosureResult) | Invalid

  /** CanonicalClosureResult: the check after canonicalization never fails. */
  method CanonicalClosureResult(c: ClosureResult) returns (result: Canonicalized)
    ensures result.Bytes? <==> ClosureOk(c)
    ensures result.Bytes? ==> IsCanonical(c, result.form)
  {
    hide ClosureOk, IsCanonical;
    var problems := ValidateClosureResult(c);
    if problems != [] {
      return Invalid;
    }
    var d := Canonicalize(c);
    CanonicalStaysOk(c, d);
    problems := ValidateClosureResult(d);
    return if problems != [] then Invalid else Bytes(d);
  }

  method CompareClosure(signed: ClosureResult, recomputed: ClosureResult) returns (equal: bool)
    ensures equal <==> ClosureOk(signed) && ClosureOk(recomputed) && SameClosure(signed, recomputed)
  {
    hide ClosureOk, IsCanonical, SameClosure;
    var a := CanonicalClosureResult(signed);
    if a.Invalid? {
      return false;
    }
    var b := CanonicalClosureResult(recomputed);
    if b.Invalid? {
      return false;
    }
    CanonicalDecides(signed, recomputed, a.form, b.form);
    return a.form == b.form;
  }
}
