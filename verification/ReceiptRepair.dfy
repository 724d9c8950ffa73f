/** The repair of an installed receipt whose dependency list is incomplete:
    internal/bottle/receipt.go, NormalizeInstalledReceiptDependencies with the comparisons it
    uses. A receipt is its dependency field and the rest, whose own checks are a parameter. */
module ReceiptRepair {
  import opened Wrappers
  import opened Sorting
  import opened ReceiptGraph
  import opened ReceiptWalk
  import opened ReceiptPolicy
  import Catalog

  /** A dependency as a receipt spells it; the package version may be left out. */
  datatype Written = Written(
    fullName: string, version: string, revision: int, bottleRebuild: int, pkgVersion: Option<string>,
    declaredDirectly: bool)

  datatype Field = Absent | Null | Listed(entries: seq<Written>)

  datatype Document<Rest> = Document(rest: Rest, dependencies: Field)

  function Read(w: Written): ReceiptDependency {
    ReceiptDependency(w.fullName, w.version, w.revision, w.bottleRebuild,
      if w.pkgVersion.Some? then w.pkgVersion.value else Catalog.PkgVersion(w.version, w.revision),
      w.declaredDirectly)
  }

  function Write(d: ReceiptDependency): Written {
    Written(d.fullName, d.version, d.revision, d.bottleRebuild, Some(d.pkgVersion), d.declaredDirectly)
  }

  function Entries(field: Field): seq<Written> {
    if field.Listed? then field.entries else []
  }

  function ReadField(field: Field): (r: seq<ReceiptDependency>)
    ensures |r| == |Entries(field)|
    ensures forall i | 0 <= i < |r| :: r[i] == Read(Entries(field)[i])
  {
    seq(|Entries(field)|, i requires 0 <= i < |Entries(field)| => Read(Entries(field)[i]))
  }

  function WriteField(list: seq<ReceiptDependency>): (f: Field)
    ensures ReadField(f) == list
  {
    var entries := seq(|list|, i requires 0 <= i < |list| => Write(list[i]));
    assert forall i | 0 <= i < |list| :: Read(Write(list[i])) == list[i];
    Listed(entries)
  }

  // ----- Comparisons -----

  predicate EntryValid(d: ReceiptDependency) {
    d.fullName != "" && d.version != "" && d.pkgVersion != "" && d.revision >= 0 && d.bottleRebuild >= 0
  }

  ghost predicate DistinctEntries(deps: seq<ReceiptDependency>) {
    forall i, j | 0 <= i < j < |deps| :: deps[i].fullName != deps[j].fullName
  }

  ghost predicate ListValid(deps: seq<ReceiptDependency>) {
    (forall d | d in deps :: EntryValid(d)) && DistinctEntries(deps)
  }

  method ValidateReceiptDependencies(deps: seq<ReceiptDependency>) returns (ok: bool)
    ensures ok <==> ListValid(deps)
  {
    var seen: set<string> := {};
    for i := 0 to |deps|
      invariant seen == set j | 0 <= j < i :: deps[j].fullName
      invariant forall j | 0 <= j < i :: EntryValid(deps[j])
      invariant forall j, k | 0 <= j < k < i :: deps[j].fullName != deps[k].fullName
    {
      if !EntryValid(deps[i]) || deps[i].fullName in seen {
        return false;
      }
      seen := seen + {deps[i].fullName};
    }
    return true;
  }

  /** Homebrew may lose the bottle rebuild, but must not invent another one; whether a
      dependency is direct is not compared. */
  predicate Matches(actual: ReceiptDependency, expected: ReceiptDependency) {
    && actual.fullName == expected.fullName
    && actual.version == expected.version && actual.revision == expected.revision
    && actual.pkgVersion == expected.pkgVersion
    && (actual.bottleRebuild == 0 || actual.bottleRebuild == expected.bottleRebuild)
  }

  ghost predicate Matched(d: ReceiptDependency, expected: seq<ReceiptDependency>) {
    exists e :: e in expected && Matches(d, e)
  }

  ghost predicate AllMatch(actual: seq<ReceiptDependency>, expected: seq<ReceiptDependency>) {
    forall d | d in actual :: Matched(d, expected)
  }

  ghost predicate ByName(byName: map<string, ReceiptDependency>, expected: seq<ReceiptDependency>) {
    && (forall name | name in byName :: byName[name] in expected && byName[name].fullName == name)
    && (forall e | e in expected :: e.fullName in byName && byName[e.fullName] == e)
  }

  method IndexByName(expected: seq<ReceiptDependency>) returns (byName: map<string, ReceiptDependency>)
    requires DistinctEntries(expected)
    ensures ByName(byName, expected)
  {
    byName := map[];
    for i := 0 to |expected|
      invariant ByName(byName, expected[..i])
    {
      assert expected[..i + 1] == expected[..i] + [expected[i]];
      ByNameSnoc(byName, expected[..i], expected[i]);
      byName := byName[expected[i].fullName := expected[i]];
    }
    assert expected[..|expected|] == expected;
  }

  lemma ByNameSnoc(byName: map<string, ReceiptDependency>, front: seq<ReceiptDependency>, last: ReceiptDependency)
    requires ByName(byName, front) && forall j | 0 <= j < |front| :: front[j].fullName != last.fullName
    ensures ByName(byName[last.fullName := last], front + [last])
  {
  }

  method CompareMembers(actual: seq<ReceiptDependency>, expected: seq<ReceiptDependency>) returns (ok: bool)
    requires DistinctEntries(expected)
    ensures ok <==> AllMatch(actual, expected)
  {
    var byName := IndexByName(expected);
    for i := 0 to |actual|
      invariant forall j | 0 <= j < i :: Matched(actual[j], expected)
    {
      if actual[i].fullName !in byName || !Matches(actual[i], byName[actual[i].fullName]) {
        assert !Matched(actual[i], expected);
        return false;
      }
    }
    return true;
  }

  /** compareInstalledReceiptDependencies */
  ghost predicate Complete(actual: seq<ReceiptDependency>, expected: seq<ReceiptDependency>) {
    ListValid(actual) && ListValid(expected) && |actual| == |expected| && AllMatch(actual, expected)
  }

  /** compareInstalledReceiptDependencySubset */
  ghost predicate Incomplete(actual: seq<ReceiptDependency>, expected: seq<ReceiptDependency>) {
    ListValid(actual) && ListValid(expected) && |actual| < |expected| && AllMatch(actual, expected)
  }

  method CompareInstalled(actual: seq<ReceiptDependency>, expected: seq<ReceiptDependency>) returns (ok: bool)
    ensures ok <==> Complete(actual, expected)
  {
    hide AllMatch;
    ok := ValidateReceiptDependencies(actual);
    if !ok { return; }
    ok := ValidateReceiptDependencies(expected);
    if !ok || |actual| != |expected| { return false; }
    ok := CompareMembers(actual, expected);
  }

  method CompareSubset(actual: seq<ReceiptDependency>, expected: seq<ReceiptDependency>) returns (ok: bool)
    ensures ok <==> Incomplete(actual, expected)
  {
    hide AllMatch;
    ok := ValidateReceiptDependencies(actual);
    if !ok { return; }
    ok := ValidateReceiptDependencies(expected);
    if !ok || |actual| >= |expected| { return false; }
    ok := CompareMembers(actual, expected);
  }

  // ----- What the comparison means -----

  function Names(deps: seq<ReceiptDependency>): set<string> {
    set d | d in deps :: d.fullName
  }

  lemma {:induction false} NamesSize(deps: seq<ReceiptDependency>)
    requires DistinctEntries(deps)
    ensures |Names(deps)| == |deps|
  {
    if deps != [] {
      var front, last := deps[..|deps| - 1], deps[|deps| - 1];
      NamesSize(front);
      assert last.fullName !in Names(front);
      assert deps == front + [last];
      assert Names(deps) == Names(front) + {last.fullName};
    }
  }

  /** Lists of equal length whose members all match hold the same names, and every expected
      dependency is matched: no expected dependency is missing. */
  lemma CompleteIsOnto(actual: seq<ReceiptDependency>, expected: seq<ReceiptDependency>)
    requires Complete(actual, expected)
    ensures Names(actual) == Names(expected)
    ensures forall e | e in expected :: exists d :: d in actual && Matches(d, e)
  {
    hide EntryValid;
    NamesSize(actual);
    NamesSize(expected);
    assert Names(actual) <= Names(expected);
    SameSizeSubset(Names(actual), Names(expected));
    forall e | e in expected ensures exists d :: d in actual && Matches(d, e) {
      assert e.fullName in Names(actual);
      var d :| d in actual && d.fullName == e.fullName;
      assert Matched(d, expected);
      var f :| f in expected && Matches(d, f);
      var i :| 0 <= i < |expected| && expected[i] == e;
      var j :| 0 <= j < |expected| && expected[j] == f;
      assert i == j;
    }
  }

  lemma SameSizeSubset<T>(a: set<T>, b: set<T>)
    requires a <= b && |a| == |b|
    ensures a == b
  {
    assert |b - a| == |b| - |a|;
  }

  /** The policy list passes every check made of a dependency list. */
  lemma PolicyIsValid(v: Versions, root: Node, closure: seq<Node>, list: seq<ReceiptDependency>)
    requires HasPolicy(v, root, closure, list)
    ensures ListValid(list) && Complete(list, list)
  {
    hide SoundClosure, Describes;
    if !NothingToDo(root, closure) {
      var idx :| PolicyOf(v, root, closure, idx, list);
      SoundIndexes(v, root, closure, idx);
      forall d | d in list ensures EntryValid(d) {
        var name :| Describes(idx, root, name, d);
        DescribedIsValid(idx, root, closure, name, d);
      }
    }
    forall d | d in list ensures Matched(d, list) {
      assert Matches(d, d);
    }
  }

  lemma DescribedIsValid(idx: Index, root: Node, closure: seq<Node>, name: Rack, d: ReceiptDependency)
    requires Indexes(idx, closure) && Describes(idx, root, name, d)
    ensures EntryValid(d)
  {
    assert NodeValid(idx.nodes[name]);
  }

  // ----- Verification and repair -----

  ghost predicate AcceptedBy<Rest>(restOk: Rest -> bool, document: Document<Rest>, list: seq<ReceiptDependency>) {
    restOk(document.rest) && Complete(ReadField(document.dependencies), list)
  }

  ghost predicate Accepted<Rest>(v: Versions, root: Node, closure: seq<Node>, restOk: Rest -> bool,
                                 document: Document<Rest>) {
    exists list :: HasPolicy(v, root, closure, list) && AcceptedBy(restOk, document, list)
  }

  /** The receipt lists a proper part of the policy, and nothing else is wrong with it. */
  ghost predicate RepairableTo<Rest>(restOk: Rest -> bool, document: Document<Rest>, list: seq<ReceiptDependency>) {
    restOk(document.rest) && document.dependencies.Listed? && Incomplete(ReadField(document.dependencies), list)
  }

  ghost predicate Repairable<Rest>(v: Versions, root: Node, closure: seq<Node>, restOk: Rest -> bool,
                                   document: Document<Rest>) {
    exists list :: HasPolicy(v, root, closure, list) && RepairableTo(restOk, document, list)
  }

  method VerifyInstalledReceipt<Rest>(v: Versions, root: Node, closure: seq<Node>, restOk: Rest -> bool,
                                      document: Document<Rest>)
    returns (ok: bool)
    ensures ok <==> Accepted(v, root, closure, restOk, document)
  {
    hide HasPolicy, Complete;
    var policy := ResolvedInstalledDependencies(v, root, closure);
    if policy.NoPolicy? {
      NoPolicyHere(v, root, closure, policy.error);
      return false;
    }
    OnlyPolicy(v, root, closure, policy.list);
    if !restOk(document.rest) {
      return false;
    }
    ok := CompareInstalled(ReadField(document.dependencies), policy.list);
    assert ok ==> AcceptedBy(restOk, document, policy.list);
  }

  lemma NoPolicyHere(v: Versions, root: Node, closure: seq<Node>, error: PolicyError)
    requires ErrorHolds(v, root, closure, error)
    ensures forall list :: !HasPolicy(v, root, closure, list)
  {
    hide HasPolicy, ErrorHolds;
    forall list | HasPolicy(v, root, closure, list) ensures false {
      PolicyExcludesErrors(v, root, closure, list, error);
    }
  }

  lemma OnlyPolicy(v: Versions, root: Node, closure: seq<Node>, list: seq<ReceiptDependency>)
    requires HasPolicy(v, root, closure, list)
    ensures forall other | HasPolicy(v, root, closure, other) :: other == list
  {
    hide HasPolicy;
    forall other | HasPolicy(v, root, closure, other) ensures other == list {
      PolicyUnique(v, root, closure, list, other);
    }
  }

  datatype Normalization<Rest> = Unchanged | Changed(document: Document<Rest>) | Refused

  /** The entry as a repair writes it: nothing is left out. */
  ghost predicate WrittenAs(w: Written, e: ReceiptDependency) {
    && w.fullName == e.fullName && w.version == e.version && w.revision == e.revision
    && w.bottleRebuild == e.bottleRebuild && w.pkgVersion == Some(e.pkgVersion)
    && w.declaredDirectly == e.declaredDirectly
  }

  ghost predicate WrittenInFull(field: Field, list: seq<ReceiptDependency>) {
    && field.Listed? && |field.entries| == |list|
    && forall k | 0 <= k < |list| :: WrittenAs(field.entries[k], list[k])
  }

  /** What a repair produces: the same receipt with exactly the policy list, written in full. */
  ghost predicate Repaired<Rest>(before: Document<Rest>, after: Document<Rest>, list: seq<ReceiptDependency>) {
    && after.rest == before.rest && WrittenInFull(after.dependencies, list)
    && ReadField(after.dependencies) == list
    && AllMatch(ReadField(before.dependencies), list)
  }

  /** An accepted receipt is left alone, a receipt that lists a proper part of the policy is
      completed, and every other one is refused. A completed receipt is accepted, so repairing
      it again changes nothing. */
  method Normalize<Rest>(v: Versions, root: Node, closure: seq<Node>, restOk: Rest -> bool, document: Document<Rest>)
    returns (outcome: Normalization<Rest>)
    ensures outcome.Unchanged? <==> Accepted(v, root, closure, restOk, document)
    ensures outcome.Changed? <==> Repairable(v, root, closure, restOk, document)
    ensures outcome.Changed? ==>
      && Accepted(v, root, closure, restOk, outcome.document)
      && exists list :: HasPolicy(v, root, closure, list) && Repaired(document, outcome.document, list)
  {
    hide HasPolicy, Complete, Incomplete, ErrorHolds, Repaired, EntryLe, AllMatch;
    var ok := VerifyInstalledReceipt(v, root, closure, restOk, document);
    NeverBoth(v, root, closure, restOk, document);
    if ok {
      return Unchanged;
    }
    var policy := ResolvedInstalledDependencies(v, root, closure);
    if policy.NoPolicy? {
      NoPolicyHere(v, root, closure, policy.error);
      return Refused;
    }
    var expected := policy.list;
    OnlyPolicy(v, root, closure, expected);
    if |expected| == 0 || !document.dependencies.Listed? {
      NothingIsIncomplete(ReadField(document.dependencies), expected);
      return Refused;
    }
    var subset := CompareSubset(ReadField(document.dependencies), expected);
    if !subset {
      return Refused;
    }
    var sorted := Sort(expected, EntryLe);
    AlreadySorted(v, root, closure, expected);
    var after := Document(document.rest, WriteField(sorted));
    PolicyIsValid(v, root, closure, expected);
    ok := VerifyInstalledReceipt(v, root, closure, restOk, after);
    AfterRepair(v, root, closure, restOk, document, after, expected);
    if !ok {
      return Refused;
    }
    assert RepairableTo(restOk, document, expected);
    return Changed(after);
  }

  lemma AfterRepair<Rest>(v: Versions, root: Node, closure: seq<Node>, restOk: Rest -> bool, before: Document<Rest>,
                          after: Document<Rest>, list: seq<ReceiptDependency>)
    requires HasPolicy(v, root, closure, list) && Complete(list, list)
    requires Incomplete(ReadField(before.dependencies), list)
    requires after == Document(before.rest, WriteField(list))
    ensures Repaired(before, after, list)
    ensures Accepted(v, root, closure, restOk, after) <==> restOk(before.rest)
  {
    hide HasPolicy, Complete;
    if restOk(before.rest) {
      assert AcceptedBy(restOk, after, list);
    }
  }

  lemma NeverBoth<Rest>(v: Versions, root: Node, closure: seq<Node>, restOk: Rest -> bool, document: Document<Rest>)
    ensures !(Accepted(v, root, closure, restOk, document) && Repairable(v, root, closure, restOk, document))
  {
    hide HasPolicy;
    forall s, t | HasPolicy(v, root, closure, s) && HasPolicy(v, root, closure, t)
      ensures !(AcceptedBy(restOk, document, s) && RepairableTo(restOk, document, t))
    {
      PolicyUnique(v, root, closure, s, t);
    }
  }

  lemma NothingIsIncomplete(actual: seq<ReceiptDependency>, expected: seq<ReceiptDependency>)
    ensures expected == [] ==> !Incomplete(actual, expected)
  {
  }

  lemma AlreadySorted(v: Versions, root: Node, closure: seq<Node>, list: seq<ReceiptDependency>)
    requires HasPolicy(v, root, closure, list)
    ensures Sort(list, EntryLe) == list
  {
    hide SoundClosure;
    EntryLeOrder();
    SortSame(list, EntryLe);
    SortSorts(list, EntryLe);
    if !NothingToDo(root, closure) {
      var idx :| PolicyOf(v, root, closure, idx, list);
      EntriesKeyed(list);
      SortedUnique(list, Sort(list, EntryLe), EntryLe);
    }
  }
}
