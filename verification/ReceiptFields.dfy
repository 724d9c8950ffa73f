/** What an accepted receipt and a repaired one hold, field by field: internal/bottle/receipt.go,
    compareInstalledReceiptDependencyMembers, resolvedInstalledDependencies and
    NormalizeInstalledReceiptDependencies. */
module ReceiptFields {
  import opened Wrappers
  import opened Digraph
  import opened ReceiptGraph
  import opened ReceiptWalk
  import opened ReceiptPolicy
  import opened ReceiptRepair

  // ----- The policy -----

  /** The entry describes the node: a core Formula by its name, any other by its full identity. */
  ghost predicate Tells(d: ReceiptDependency, node: Node) {
    && node.identity.Some?
    && d.fullName == (if node.identity.value.tap == "homebrew/core" then node.identity.value.name
                      else node.identity.value.tap + "/" + node.identity.value.name)
    && d.version == node.formulaVersion && d.revision == node.formulaRevision && d.pkgVersion == node.pkgVersion
    && d.bottleRebuild == node.bottleRebuild
  }

  ghost predicate SignsDirectly(root: Node, node: Node) {
    exists k :: 0 <= k < |root.dependencies| && root.dependencies[k].direct && root.dependencies[k].name == node.name
  }

  ghost predicate RecordsDirectly(root: Node, node: Node) {
    exists k :: 0 <= k < |root.tab| && root.tab[k].declaredDirectly && root.tab[k].identity == node.identity
  }

  /** The policy list has one entry for each node of the closure, other than the root, that the
      root reaches; it is direct when the root signs it so or its old tab records it so. */
  lemma PolicyInFields(v: Versions, root: Node, closure: seq<Node>, idx: Index, list: seq<ReceiptDependency>)
    requires PolicyOf(v, root, closure, idx, list)
    ensures forall d | d in list :: exists node :: node in closure && ListedFor(idx, root, node, d)
    ensures forall node | node in closure && node != root && Reaches(WalkGraph(idx), root.name, node.name) ::
      exists d :: d in list && ListedFor(idx, root, node, d)
  {
    hide Reaches, WalkGraph, Acyclic, CurrentGraph, WellFormed, FaultyAt, Describes, ListedFor, Indexes;
    RootTabOk(v, root, closure, idx);
    forall d | d in list ensures exists node :: node in closure && ListedFor(idx, root, node, d) {
      var name :| Describes(idx, root, name, d);
      DescribesMeans(idx, closure, root, name, d);
      assert idx.nodes[name] in closure;
    }
    forall node | node in closure && node != root && Reaches(WalkGraph(idx), root.name, node.name)
      ensures exists d :: d in list && ListedFor(idx, root, node, d)
    {
      var d := DescribedBy(idx, closure, root, node);
      assert d in list;
    }
  }

  ghost predicate ListedFor(idx: Index, root: Node, node: Node, d: ReceiptDependency) {
    && node != root && Reaches(WalkGraph(idx), root.name, node.name) && Tells(d, node)
    && (d.declaredDirectly <==> SignsDirectly(root, node) || RecordsDirectly(root, node))
  }

  lemma RootTabOk(v: Versions, root: Node, closure: seq<Node>, idx: Index)
    requires SoundClosure(v, root, closure, idx)
    ensures TabOk(root.tab) && Indexes(idx, closure) && root in closure
  {
    hide Reaches, WalkGraph, Acyclic, CurrentGraph, WellFormed, FaultyAt, TabOk, Indexes;
    ReachesSelf(WalkGraph(idx), root.name);
    RootSound(v, idx, root, closure);
  }

  lemma DirectMeaning(idx: Index, closure: seq<Node>, root: Node, node: Node)
    requires Indexes(idx, closure) && node in closure && TabOk(root.tab)
    ensures node.name in DirectOf(idx, root) <==> SignsDirectly(root, node) || RecordsDirectly(root, node)
  {
    hide HistoryOf, Indexes, PastNames, RecordsDirectly, TabOk;
    PastMeaning(idx, closure, root, node);
  }

  /** Following a tab leads to the selected nodes it records as direct. */
  lemma PastMeaning(idx: Index, closure: seq<Node>, from: Node, node: Node)
    requires Indexes(idx, closure) && node in closure && TabOk(from.tab)
    ensures node.name in PastNames(idx, HistoryOf(from.tab), HistoryOf(from.tab).Keys) <==> RecordsDirectly(from, node)
  {
    hide HistoryOf, NodeValid;
    var history := HistoryOf(from.tab);
    HistoryLists(from.tab);
    ValidHasIdentity(node);
    if RecordsDirectly(from, node) {
      var k :| 0 <= k < |from.tab| && from.tab[k].declaredDirectly && from.tab[k].identity == node.identity;
      HistoryFaithful(from.tab, k);
      assert node.identity.value in history && history[node.identity.value].declaredDirectly;
    }
    if node.name in PastNames(idx, history, history.Keys) {
      var id :| id in history && history[id].declaredDirectly && id in idx.byFullName
        && idx.byFullName[id].name == node.name;
      SameNameSameNode(idx, closure, idx.byFullName[id], node);
      var k :| 0 <= k < |from.tab| && from.tab[k] == history[id];
      assert from.tab[k].identity == node.identity;
    }
  }

  ghost predicate Signs(from: Node, node: Node) {
    exists k :: 0 <= k < |from.dependencies| && from.dependencies[k].name == node.name
  }

  /** The walk goes from a node to those it signs and those its old tab records as direct; an edge
      counts as historical when it is not signed. */
  lemma WalkMeaning(idx: Index, closure: seq<Node>, from: Node, node: Node)
    requires Indexes(idx, closure) && from in closure && node in closure && TabOk(from.tab)
    ensures node.name in WalkGraph(idx)(from.name) <==> Signs(from, node) || RecordsDirectly(from, node)
    ensures node.name in EdgeKinds(idx, from) ==> (EdgeKinds(idx, from)[node.name] <==> !Signs(from, node))
  {
    hide HistoryOf, PastNames, RecordsDirectly, TabOk, NodeValid;
    PastMeaning(idx, closure, from, node);
    assert idx.nodes[from.name] == from;
  }

  lemma SameNameSameNode(idx: Index, closure: seq<Node>, a: Node, b: Node)
    requires Indexes(idx, closure) && a in closure && b in closure && a.name == b.name
    ensures a == b
  {
  }

  lemma EntryTells(node: Node, direct: bool)
    requires node.identity.Some?
    ensures Tells(Entry(node, direct), node) && Entry(node, direct).declaredDirectly == direct
  {
  }

  lemma DescribesMeans(idx: Index, closure: seq<Node>, root: Node, name: Rack, d: ReceiptDependency)
    requires Indexes(idx, closure) && root in closure && TabOk(root.tab) && Describes(idx, root, name, d)
    ensures name in idx.nodes && idx.nodes[name] in closure && ListedFor(idx, root, idx.nodes[name], d)
  {
    hide Reaches, WalkGraph, NodeValid, Entry, Tells, DirectOf, SignsDirectly, RecordsDirectly, TabOk;
    var node := idx.nodes[name];
    assert node in closure && node.name == name;
    ValidHasIdentity(node);
    EntryTells(node, name in DirectOf(idx, root));
    DirectMeaning(idx, closure, root, node);
  }

  lemma DescribedBy(idx: Index, closure: seq<Node>, root: Node, node: Node) returns (d: ReceiptDependency)
    requires Indexes(idx, closure) && root in closure && TabOk(root.tab) && node in closure && node != root
    requires Reaches(WalkGraph(idx), root.name, node.name)
    ensures Describes(idx, root, node.name, d) && ListedFor(idx, root, node, d)
  {
    hide Reaches, WalkGraph, NodeValid, Entry, DirectOf, TabOk, ListedFor;
    assert idx.nodes[node.name] == node && idx.nodes[root.name] == root;
    d := Entry(node, node.name in DirectOf(idx, root));
    DescribesMeans(idx, closure, root, node.name, d);
  }

  // ----- Accepted receipts -----

  /** A written entry agrees with an expected one: the package version may be left out where it
      is the one the version and revision give, and the rebuild may be lost. */
  ghost predicate Agrees(w: Written, e: ReceiptDependency) {
    && w.fullName == e.fullName && w.version == e.version && w.revision == e.revision
    && (match w.pkgVersion
        case Some(text) => text == e.pkgVersion
        case None => e.pkgVersion == Catalog.PkgVersion(e.version, e.revision))
    && (w.bottleRebuild == 0 || w.bottleRebuild == e.bottleRebuild)
  }

  /** A written list that stands by itself: every entry has a name and a version, no number is
      negative, and no name occurs twice. */
  ghost predicate Proper(entries: seq<Written>) {
    && (forall k | 0 <= k < |entries| ::
          var w := entries[k];
          w.fullName != "" && w.version != "" && w.pkgVersion != Some("") && w.revision >= 0 && w.bottleRebuild >= 0)
    && forall i, j | 0 <= i < j < |entries| :: entries[i].fullName != entries[j].fullName
  }

  ghost predicate AllAgree(entries: seq<Written>, list: seq<ReceiptDependency>) {
    forall k | 0 <= k < |entries| :: AgreesWithOne(entries[k], list)
  }

  ghost predicate AgreesWithOne(w: Written, list: seq<ReceiptDependency>) {
    exists e :: e in list && Agrees(w, e)
  }

  lemma PkgVersionText(version: string, revision: int)
    requires version != ""
    ensures Catalog.PkgVersion(version, revision) != ""
  {
  }

  lemma ProperMeaning(field: Field)
    ensures ListValid(ReadField(field)) <==> Proper(Entries(field))
  {
    var entries, list := Entries(field), ReadField(field);
    forall k | 0 <= k < |entries|
      ensures EntryValid(list[k]) <==>
        var w := entries[k];
        w.fullName != "" && w.version != "" && w.pkgVersion != Some("") && w.revision >= 0 && w.bottleRebuild >= 0
    {
      if entries[k].version != "" {
        PkgVersionText(entries[k].version, entries[k].revision);
      }
    }
    if ListValid(list) {
      assert forall k | 0 <= k < |entries| :: list[k] in list;
      assert forall k | 0 <= k < |entries| :: list[k].fullName == entries[k].fullName;
    }
  }

  lemma AgreeMeaning(field: Field, list: seq<ReceiptDependency>)
    ensures AllMatch(ReadField(field), list) <==> AllAgree(Entries(field), list)
  {
    hide Matched, AgreesWithOne;
    var entries, read := Entries(field), ReadField(field);
    forall k | 0 <= k < |entries| ensures Matched(read[k], list) <==> AgreesWithOne(entries[k], list) {
      AgreeOne(entries[k], list);
    }
    if AllMatch(read, list) {
      assert forall k | 0 <= k < |entries| :: read[k] in read;
    }
    if AllAgree(entries, list) {
      forall d | d in read ensures Matched(d, list) {
        var k :| 0 <= k < |read| && read[k] == d;
        assert AgreesWithOne(entries[k], list);
      }
    }
  }

  lemma AgreeOne(w: Written, list: seq<ReceiptDependency>)
    ensures Matched(Read(w), list) <==> AgreesWithOne(w, list)
  {
    forall e ensures Matches(Read(w), e) <==> Agrees(w, e) {}
  }

  /** A receipt is accepted exactly when its list is proper, as long as the policy, and agrees with
      it entry by entry. */
  lemma AcceptedInFields<Rest>(v: Versions, root: Node, closure: seq<Node>, restOk: Rest -> bool,
                               document: Document<Rest>, list: seq<ReceiptDependency>)
    requires HasPolicy(v, root, closure, list)
    ensures Accepted(v, root, closure, restOk, document) <==>
      var entries := Entries(document.dependencies);
      restOk(document.rest) && Proper(entries) && |entries| == |list| && AllAgree(entries, list)
  {
    hide HasPolicy, ListValid, AllMatch, Proper, AllAgree;
    OnlyPolicy(v, root, closure, list);
    PolicyIsValid(v, root, closure, list);
    ProperMeaning(document.dependencies);
    AgreeMeaning(document.dependencies, list);
    if AcceptedBy(restOk, document, list) {
      assert Accepted(v, root, closure, restOk, document);
    }
  }

  /** A receipt is repaired exactly when its list is proper, shorter than the policy, and agrees
      with it as far as it goes. */
  lemma RepairableInFields<Rest>(v: Versions, root: Node, closure: seq<Node>, restOk: Rest -> bool,
                                 document: Document<Rest>, list: seq<ReceiptDependency>)
    requires HasPolicy(v, root, closure, list)
    ensures Repairable(v, root, closure, restOk, document) <==>
      var entries := Entries(document.dependencies);
      && restOk(document.rest) && document.dependencies.Listed?
      && Proper(entries) && |entries| < |list| && AllAgree(entries, list)
  {
    hide HasPolicy, ListValid, AllMatch, Proper, AllAgree;
    OnlyPolicy(v, root, closure, list);
    PolicyIsValid(v, root, closure, list);
    ProperMeaning(document.dependencies);
    AgreeMeaning(document.dependencies, list);
    if RepairableTo(restOk, document, list) {
      assert Repairable(v, root, closure, restOk, document);
    }
  }

  /** Of an accepted receipt and the policy, entries of one name agree. */
  lemma AcceptedEntry<Rest>(v: Versions, root: Node, closure: seq<Node>, restOk: Rest -> bool,
                            document: Document<Rest>, list: seq<ReceiptDependency>, w: Written, e: ReceiptDependency)
    requires HasPolicy(v, root, closure, list) && Accepted(v, root, closure, restOk, document)
    requires w in Entries(document.dependencies) && e in list && w.fullName == e.fullName
    ensures Agrees(w, e)
  {
    hide HasPolicy, Accepted, Proper, Complete, EntryValid, Agrees;
    AcceptedInFields(v, root, closure, restOk, document, list);
    PolicyIsValid(v, root, closure, list);
    var entries := Entries(document.dependencies);
    var k :| 0 <= k < |entries| && entries[k] == w;
    assert AgreesWithOne(entries[k], list);
    OneOfAName(w, list, e);
  }

  lemma OneOfAName(w: Written, list: seq<ReceiptDependency>, e: ReceiptDependency)
    requires AgreesWithOne(w, list) && DistinctEntries(list) && e in list && e.fullName == w.fullName
    ensures Agrees(w, e)
  {
    var f :| f in list && Agrees(w, f);
    var i :| 0 <= i < |list| && list[i] == e;
    var j :| 0 <= j < |list| && list[j] == f;
  }

  // ----- Repaired receipts -----

  /** A repair keeps every old entry: the new receipt has one of that name, with the same version,
      revision and package version, and the same rebuild unless the old entry had lost it. */
  lemma RepairKeepsEntries<Rest>(before: Document<Rest>, after: Document<Rest>, list: seq<ReceiptDependency>, k: nat)
    requires Repaired(before, after, list) && k < |Entries(before.dependencies)|
    ensures exists w :: w in Entries(after.dependencies) && KeptAs(Entries(before.dependencies)[k], w)
  {
    hide ReadField;
    AgreeMeaning(before.dependencies, list);
    var was := Entries(before.dependencies)[k];
    assert AgreesWithOne(was, list);
    var e :| e in list && Agrees(was, e);
    var i :| 0 <= i < |list| && list[i] == e;
    var w := Entries(after.dependencies)[i];
    assert Read(w) == e;
    assert w in Entries(after.dependencies);
  }

  ghost predicate KeptAs(was: Written, now: Written) {
    && now.fullName == was.fullName && now.version == was.version && now.revision == was.revision
    && (was.bottleRebuild == 0 || now.bottleRebuild == was.bottleRebuild)
    && PkgOf(now) == PkgOf(was)
  }

  function PkgOf(w: Written): string {
    match w.pkgVersion
    case Some(text) => text
    case None => Catalog.PkgVersion(w.version, w.revision)
  }
}
