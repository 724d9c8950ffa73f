/** The policy-derived dependency list of an installed keg: internal/bottle/receipt.go,
    resolvedInstalledDependencies as a whole. */
module ReceiptPolicy {
  import opened Identity
  import opened Sorting
  import opened Digraph
  import opened ReceiptGraph
  import opened ReceiptWalk

  datatype PolicyError =
    | BadClosure(index: IndexFault) | RootAbsent | RootInconsistent | BadCurrentGraph(current: CurrentFault)
    | BadRootTab | WalkFailed(walk: WalkFault)

  datatype Policy = Dependencies(list: seq<ReceiptDependency>) | NoPolicy(error: PolicyError)

  ghost function DirectOf(idx: Index, root: Node): set<Rack> {
    (set k | 0 <= k < |root.dependencies| && root.dependencies[k].direct :: root.dependencies[k].name)
    + PastNames(idx, HistoryOf(root.tab), HistoryOf(root.tab).Keys)
  }

  method RootDirect(idx: Index, root: Node, history: map<FormulaId, TabDependency>) returns (direct: set<Rack>)
    requires history == HistoryOf(root.tab)
    ensures direct == DirectOf(idx, root)
  {
    hide HistoryOf;
    direct := set requirement | requirement in root.dependencies && requirement.direct :: requirement.name;
    assert direct == set k | 0 <= k < |root.dependencies| && root.dependencies[k].direct :: root.dependencies[k].name;
    direct := direct + set id | id in history && history[id].declaredDirectly && id in idx.byFullName ::
      idx.byFullName[id].name;
  }

  predicate EntryLe(a: ReceiptDependency, b: ReceiptDependency) { TextLe(a.fullName, b.fullName) }

  lemma EntryLeOrder()
    ensures TotalPreorder(EntryLe)
  {
    KeyOrder((d: ReceiptDependency) => d.fullName, EntryLe);
  }

  // ----- What the list holds -----

  /** A node other than the root that the root reaches over signed and selected historical
      direct edges. */
  ghost predicate InPolicy(idx: Index, root: Node, name: Rack) {
    name in idx.nodes && name != root.name && Reaches(WalkGraph(idx), root.name, name)
  }

  ghost predicate Describes(idx: Index, root: Node, name: Rack, d: ReceiptDependency) {
    InPolicy(idx, root, name) && d == Entry(idx.nodes[name], name in DirectOf(idx, root))
  }

  /** Exactly the entries of the nodes in the policy, each once, in the order of their names. */
  ghost predicate IsPolicy(idx: Index, root: Node, list: seq<ReceiptDependency>) {
    && (forall d :: d in list <==> exists name :: Describes(idx, root, name, d))
    && (forall i, j | 0 <= i < j < |list| :: list[i].fullName != list[j].fullName)
    && SortedBy(list, EntryLe)
  }

  /** Distinct nodes of a closure are written under distinct names. */
  lemma ReceiptNamesDiffer(a: Node, b: Node)
    requires NodeValid(a) && NodeValid(b) && ReceiptName(a) == ReceiptName(b)
    ensures a.name == b.name
  {
    var x, y := a.identity.value, b.identity.value;
    HasSlash(x);
    HasSlash(y);
    if !IsCore(x) && !IsCore(y) {
      TextInjective(x, y);
    }
  }

  lemma HasSlash(id: FormulaId)
    ensures '/' in Text(id)
  {
    LastSlash(id);
  }

  lemma EntriesDiffer(idx: Index, closure: seq<Node>, direct: set<Rack>, names: seq<Rack>, list: seq<ReceiptDependency>)
    requires Indexes(idx, closure) && NoRepeats(names) && |list| == |names|
    requires forall i | 0 <= i < |names| ::
      names[i] in idx.nodes && list[i] == Entry(idx.nodes[names[i]], names[i] in direct)
    ensures forall i, j | 0 <= i < j < |list| :: list[i].fullName != list[j].fullName
  {
    hide NodeValid;
    forall i, j | 0 <= i < j < |list| ensures list[i].fullName != list[j].fullName {
      var a, b := idx.nodes[names[i]], idx.nodes[names[j]];
      assert a in closure && b in closure && a.name == names[i] && b.name == names[j];
      if list[i].fullName == list[j].fullName {
        ReceiptNamesDiffer(a, b);
      }
    }
  }

  /** Distinct keys survive sorting. */
  lemma KeysDifferSorted(s: seq<ReceiptDependency>, t: seq<ReceiptDependency>)
    requires multiset(s) == multiset(t)
    requires forall i, j | 0 <= i < j < |s| :: s[i].fullName != s[j].fullName
    ensures forall i, j | 0 <= i < j < |t| :: t[i].fullName != t[j].fullName
  {
    NoRepeatsPermutes(s, t);
    forall i, j | 0 <= i < j < |t| ensures t[i].fullName != t[j].fullName {
      assert t[i] in Elems(t) && t[j] in Elems(t);
      assert t[i] in s && t[j] in s;
      var a :| 0 <= a < |s| && s[a] == t[i];
      var b :| 0 <= b < |s| && s[b] == t[j];
    }
  }

  lemma WalkIsPolicy(idx: Index, closure: seq<Node>, root: Node, finished: set<Rack>, names: seq<Rack>,
                     resolved: seq<ReceiptDependency>)
    requires Indexes(idx, closure)
    requires Emitted(idx, root.name, DirectOf(idx, root), finished, names, resolved)
    requires forall x :: x in finished <==> x in idx.nodes && Reaches(WalkGraph(idx), root.name, x)
    ensures IsPolicy(idx, root, Sort(resolved, EntryLe))
  {
    hide Reaches, WalkGraph, DirectOf, Indexes, EntryLe, Sort, NoRepeats, Entry;
    var list := Sort(resolved, EntryLe);
    SortPermutes(resolved, EntryLe);
    EntryLeOrder();
    SortSorts(resolved, EntryLe);
    EntriesDiffer(idx, closure, DirectOf(idx, root), names, resolved);
    KeysDifferSorted(resolved, list);
    EmittedDescribes(idx, root, finished, names, resolved);
  }

  /** The emitted entries are those of the nodes in the policy. */
  lemma EmittedDescribes(idx: Index, root: Node, finished: set<Rack>, names: seq<Rack>, list: seq<ReceiptDependency>)
    requires Emitted(idx, root.name, DirectOf(idx, root), finished, names, list)
    requires forall x :: x in finished <==> x in idx.nodes && Reaches(WalkGraph(idx), root.name, x)
    ensures forall d :: d in list <==> exists name :: Describes(idx, root, name, d)
  {
    hide Reaches, WalkGraph, DirectOf, NoRepeats, Entry;
    forall d | d in list ensures exists name :: Describes(idx, root, name, d) {
      var i :| 0 <= i < |list| && list[i] == d;
      assert names[i] in Elems(names);
      assert Describes(idx, root, names[i], d);
    }
    forall d, name | Describes(idx, root, name, d) ensures d in list {
      assert name in Elems(names);
      var i :| 0 <= i < |names| && names[i] == name;
      assert list[i] == d;
    }
  }

  /** When the walk from the root ends, it has finished exactly what the root reaches. */
  lemma WalkCovers(v: Versions, idx: Index, root: Rack, finished: set<Rack>)
    requires FinishedOk(v, idx, finished, []) && root in finished
    requires forall x | x in finished :: Reaches(WalkGraph(idx), root, x)
    ensures forall x :: x in finished <==> Reaches(WalkGraph(idx), root, x)
    ensures forall x | x in finished :: !FaultyAt(v, idx, x)
  {
    hide FaultyAt, WalkGraph;
    var e := WalkGraph(idx);
    assert Closed(e, finished);
    ClosedCoversReached(e, finished, {root});
    forall x | Reaches(e, root, x) ensures x in finished {
      assert ReachedFrom(e, {root}, x);
    }
  }

  // ----- The whole computation -----

  ghost predicate DistinctRacks(closure: seq<Node>) {
    forall i, j | 0 <= i < j < |closure| :: closure[i].name != closure[j].name
  }

  /** A Formula without dependencies, looked at alone, needs no closure. */
  predicate NothingToDo(root: Node, closure: seq<Node>) { |root.dependencies| == 0 && |closure| == 0 }

  /** What a refusal says. */
  ghost predicate ErrorHolds(v: Versions, root: Node, closure: seq<Node>, error: PolicyError) {
    !NothingToDo(root, closure) &&
    match error
    case BadClosure(fault) => FaultOf(closure, fault)
    case RootAbsent => forall node | node in closure :: node.name != root.name
    case RootInconsistent => exists node :: node in closure && node.name == root.name && node != root
    case BadCurrentGraph(fault) => exists idx :: Indexes(idx, closure) && CurrentFaultHolds(idx, fault)
    case BadRootTab => !TabOk(root.tab)
    case WalkFailed(FaultyNode(name)) =>
      exists idx :: Indexes(idx, closure) && Reaches(WalkGraph(idx), root.name, name) && FaultyAt(v, idx, name)
    case WalkFailed(CurrentCycle(_)) => false
  }

  /** The closure is sound, its signed edges are well formed and have no cycle, and nothing the
      root reaches is faulty. */
  ghost predicate SoundClosure(v: Versions, root: Node, closure: seq<Node>, idx: Index) {
    && Indexes(idx, closure) && DistinctRacks(closure) && root in closure
    && Acyclic(CurrentGraph(idx))
    && (forall name | name in idx.nodes :: WellFormed(idx, idx.nodes[name].dependencies))
    && (forall name | Reaches(WalkGraph(idx), root.name, name) :: !FaultyAt(v, idx, name))
  }

  ghost predicate PolicyOf(v: Versions, root: Node, closure: seq<Node>, idx: Index, list: seq<ReceiptDependency>) {
    SoundClosure(v, root, closure, idx) && IsPolicy(idx, root, list)
  }

  ghost predicate HasPolicy(v: Versions, root: Node, closure: seq<Node>, list: seq<ReceiptDependency>) {
    if NothingToDo(root, closure) then list == [] else exists idx :: PolicyOf(v, root, closure, idx, list)
  }

  method ResolvedInstalledDependencies(v: Versions, root: Node, closure: seq<Node>) returns (policy: Policy)
    ensures policy.Dependencies? ==> HasPolicy(v, root, closure, policy.list)
    ensures policy.NoPolicy? ==> ErrorHolds(v, root, closure, policy.error)
  {
    if |root.dependencies| == 0 && |closure| == 0 {
      return Dependencies([]);
    }
    var fault, idx := BuildIndex(closure);
    if fault.Some? {
      return NoPolicy(BadClosure(fault.value));
    }
    RootLookup(idx, closure, root);
    if root.name !in idx.nodes {
      return NoPolicy(RootAbsent);
    }
    if idx.nodes[root.name] != root {
      return NoPolicy(RootInconsistent);
    }
    policy := PolicyFromIndex(v, root, closure, idx);
  }

  lemma RootLookup(idx: Index, closure: seq<Node>, root: Node)
    requires Indexes(idx, closure)
    ensures root.name !in idx.nodes ==> forall node | node in closure :: node.name != root.name
    ensures root.name in idx.nodes ==> idx.nodes[root.name] in closure && idx.nodes[root.name].name == root.name
  {
  }

  method PolicyFromIndex(v: Versions, root: Node, closure: seq<Node>, idx: Index) returns (policy: Policy)
    requires Indexes(idx, closure) && DistinctRacks(closure) && !NothingToDo(root, closure)
    requires root.name in idx.nodes && idx.nodes[root.name] == root && root in closure
    ensures policy.Dependencies? ==> PolicyOf(v, root, closure, idx, policy.list)
    ensures policy.NoPolicy? ==> ErrorHolds(v, root, closure, policy.error)
  {
    hide Indexes, Acyclic, FaultyAt, Reaches, CurrentGraph, WalkGraph, TabOk, IsPolicy, EdgesAlong, Emitted,
      FinishedOk, Positions, WellFormed, NothingToDo, DistinctRacks;
    var current := ValidateCurrentGraph(idx);
    if current.Some? {
      return NoPolicy(BadCurrentGraph(current.value));
    }
    var history := HistoricalMinimums(root.tab);
    if history.None? {
      return NoPolicy(BadRootTab);
    }
    var direct := RootDirect(idx, root, history.value);
    var walker := new Walker(v, idx, root.name, direct);
    StartAlong(idx, root.name);
    assert walker.stack + [root.name] == [root.name];
    var fault := walker.Visit(root.name);
    if fault.Some? {
      return NoPolicy(WalkFailed(fault.value));
    }
    WalkCovers(v, idx, root.name, walker.finished);
    FinishedInClosure(v, idx, walker.finished);
    WalkIsPolicy(idx, closure, root, walker.finished, walker.names, walker.resolved);
    return Dependencies(Sort(walker.resolved, EntryLe));
  }

  lemma StartAlong(idx: Index, name: Rack)
    ensures EdgesAlong(idx, [name], [])
  {
  }

  lemma FinishedInClosure(v: Versions, idx: Index, finished: set<Rack>)
    requires forall x | x in finished :: !FaultyAt(v, idx, x)
    ensures forall x | x in finished :: x in idx.nodes
  {
  }

  // ----- The answer is determined by the closure -----

  lemma IndexUnique(a: Index, b: Index, closure: seq<Node>)
    requires Indexes(a, closure) && Indexes(b, closure)
    ensures a == b
  {
    hide NodeValid;
    assert a.nodes == b.nodes;
    assert a.byFullName == b.byFullName;
  }

  /** A closure that has a policy gives no error, so the computation succeeds exactly on the
      closures that have one. */
  lemma PolicyExcludesErrors(v: Versions, root: Node, closure: seq<Node>, list: seq<ReceiptDependency>,
                             error: PolicyError)
    requires HasPolicy(v, root, closure, list)
    ensures !ErrorHolds(v, root, closure, error)
  {
    hide IsPolicy;
    if !NothingToDo(root, closure) {
      var idx :| PolicyOf(v, root, closure, idx, list);
      SoundClosureExcludes(v, root, closure, idx, error);
    }
  }

  lemma SoundClosureExcludes(v: Versions, root: Node, closure: seq<Node>, idx: Index, error: PolicyError)
    requires SoundClosure(v, root, closure, idx)
    ensures !ErrorHolds(v, root, closure, error)
  {
    hide Acyclic, CurrentGraph, WalkGraph, FaultyAt, WellFormed, NodeValid, TabOk, NothingToDo, Reaches;
    ReachesSelf(WalkGraph(idx), root.name);
    RootSound(v, idx, root, closure);
    if error.BadClosure? {
      IndexedHasNoFault(idx, closure, error.index);
    }
    forall other | Indexes(other, closure) ensures other == idx {
      IndexUnique(idx, other, closure);
    }
  }

  lemma IndexedHasNoFault(idx: Index, closure: seq<Node>, fault: IndexFault)
    requires Indexes(idx, closure) && DistinctRacks(closure)
    ensures !FaultOf(closure, fault)
  {
    forall i, j | 0 <= i < j < |closure| ensures closure[i].identity != closure[j].identity {
      assert NodeValid(closure[i]) && NodeValid(closure[j]);
      assert closure[i].name != closure[j].name;
    }
  }

  lemma RootSound(v: Versions, idx: Index, root: Node, closure: seq<Node>)
    requires Indexes(idx, closure) && root in closure && !FaultyAt(v, idx, root.name)
    ensures TabOk(root.tab)
  {
  }

  lemma PolicyUnique(v: Versions, root: Node, closure: seq<Node>, s: seq<ReceiptDependency>, t: seq<ReceiptDependency>)
    requires HasPolicy(v, root, closure, s) && HasPolicy(v, root, closure, t)
    ensures s == t
  {
    hide IsPolicy, SoundClosure;
    if !NothingToDo(root, closure) {
      var a :| PolicyOf(v, root, closure, a, s);
      var b :| PolicyOf(v, root, closure, b, t);
      SoundIndexes(v, root, closure, a);
      SoundIndexes(v, root, closure, b);
      IndexUnique(a, b, closure);
      ListUnique(a, root, s, t);
    }
  }

  lemma SoundIndexes(v: Versions, root: Node, closure: seq<Node>, idx: Index)
    requires SoundClosure(v, root, closure, idx)
    ensures Indexes(idx, closure)
  {
  }

  lemma ListUnique(idx: Index, root: Node, s: seq<ReceiptDependency>, t: seq<ReceiptDependency>)
    requires IsPolicy(idx, root, s) && IsPolicy(idx, root, t)
    ensures s == t
  {
    hide Describes;
    SameElems(s, t);
    EntriesKeyed(s);
    SortedUnique(s, t, EntryLe);
  }

  lemma EntriesKeyed(s: seq<ReceiptDependency>)
    requires forall i, j | 0 <= i < j < |s| :: s[i].fullName != s[j].fullName
    ensures KeyedBy(s, EntryLe)
    ensures forall x | x in s :: EntryLe(x, x)
  {
    forall x | x in s ensures EntryLe(x, x) {
      TextLeTotal(x.fullName, x.fullName);
    }
    forall x, y | x in s && y in s && EntryLe(x, y) && EntryLe(y, x) ensures x == y {
      TextLeAntisym(x.fullName, y.fullName);
      var i :| 0 <= i < |s| && s[i] == x;
      var j :| 0 <= j < |s| && s[j] == y;
      assert i == j;
    }
  }

  lemma SameElems(s: seq<ReceiptDependency>, t: seq<ReceiptDependency>)
    requires forall d :: d in s <==> d in t
    requires forall i, j | 0 <= i < j < |s| :: s[i].fullName != s[j].fullName
    requires forall i, j | 0 <= i < j < |t| :: t[i].fullName != t[j].fullName
    ensures multiset(s) == multiset(t)
  {
    NoRepeatsCounts(s);
    NoRepeatsCounts(t);
    forall d ensures multiset(s)[d] == multiset(t)[d] {
      assert d in multiset(s) <==> d in s;
      assert d in multiset(t) <==> d in t;
    }
  }
}
