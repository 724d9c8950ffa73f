/** What a resolved closure says about the core snapshot and the tap documents, without the
    functions that compute it: internal/catalogresolver/resolver.go, lookupExact to
    nodeAndDependencies, and internal/homebrew/metadata/catalog.go, Lookup. */
module DocumentTerms {
  import opened Identity
  import opened Catalog
  import opened Wrappers
  import opened Sorting
  import opened Digraph
  import opened Mapping
  import opened TapCatalogs
  import opened Lookups
  import opened Resolution

  // ----- Names in core -----

  /** A canonical name stands for itself. Any other name, unless it is versioned, stands for what
      its alias says, else its old name, else its migration inside core. */
  ghost predicate StandsFor(core: Core, name: Name, canonical: Name) {
    if name in core.canonical then canonical == name
    else
      && '@' !in name
      && if name in core.aliases then core.aliases[name] == canonical
         else if name in core.oldNames then core.oldNames[name] == canonical
         else name in core.migrations && core.migrations[name] == InCore(canonical)
  }

  /** The name stands for this Formula, which is enabled and has a bottle. */
  ghost predicate CoreHolds(core: Core, name: Name, f: CoreFormula) {
    && f.name in core.canonical && core.canonical[f.name] == f && StandsFor(core, name, f.name)
    && !f.disabled && f.hasBottle
  }

  /** Core has no Formula of this name, and does not know that it has moved elsewhere. */
  ghost predicate CoreUnknown(core: Core, name: Name) {
    && name !in core.canonical && '@' !in name
    && (forall canonical | StandsFor(core, name, canonical) :: canonical !in core.canonical)
    && (name in core.migrations && core.migrations[name].OutOfCore? ==> name in core.aliases || name in core.oldNames)
  }

  lemma CoreLookupMeaning(core: Core, name: Name)
    ensures forall f :: CoreLookup(core, name) == CoreMatch(f) <==> CoreHolds(core, name, f)
    ensures CoreLookup(core, name) == CoreFailed(NotFound) <==> CoreUnknown(core, name)
  {
    forall f | CoreHolds(core, name, f) ensures CoreLookup(core, name) == CoreMatch(f) {}
    if CoreUnknown(core, name) {
      if name in core.aliases {
        assert StandsFor(core, name, core.aliases[name]);
      } else if name in core.oldNames {
        assert StandsFor(core, name, core.oldNames[name]);
      } else if name in core.migrations {
        assert StandsFor(core, name, core.migrations[name].canonical);
      }
    }
  }

  // ----- Looking up an identity -----

  /** Following mappings from `id` comes to rest at `end`. */
  ghost predicate MapsTo(m: Mappings, id: FormulaId, end: FormulaId) {
    end !in m && exists n: nat :: Orbit(m, id, n) == end
  }

  /** The document of its tap lists the Formula under this identity. */
  ghost predicate ListedIn(catalogs: map<TapId, TapCatalog>, id: FormulaId, f: Formula) {
    f.id == id && exists k :: FormulaAt(catalogs, id.tap, k, f)
  }

  ghost predicate ComesFrom(r: Resolver, id: FormulaId, x: FormulaId, source: Source) {
    match source
    case FromTap(f) => !IsCore(id) && MapsTo(r.mappings, id, x) && !IsCore(x) && ListedIn(r.catalogs, x, f)
    case FromCore(f) =>
      && x == FormulaId(CORE_TAP, f.name)
      && if IsCore(id) then CoreHolds(r.core, id.name, f)
         else MapsTo(r.mappings, id, x) && CoreHolds(r.core, x.name, f)
  }

  lemma {:induction false} OrbitRests(m: Mappings, id: FormulaId, n: nat, k: nat)
    requires Orbit(m, id, n) !in m
    ensures Orbit(m, id, n + k) == Orbit(m, id, n)
    decreases n
  {
    if n > 0 && id in m {
      OrbitRests(m, m[id], n - 1, k);
    }
  }

  lemma MapsToOnce(m: Mappings, id: FormulaId, a: FormulaId, b: FormulaId)
    requires MapsTo(m, id, a) && MapsTo(m, id, b)
    ensures a == b
  {
    var i: nat :| Orbit(m, id, i) == a;
    var j: nat :| Orbit(m, id, j) == b;
    OrbitRests(m, id, i, j);
    OrbitRests(m, id, j, i);
  }

  lemma FollowIsMapsTo(m: Mappings, id: FormulaId, end: FormulaId)
    ensures FollowMap(m, id) == Ends(end) <==> MapsTo(m, id, end)
  {
    hide FollowMap, Orbit;
    FollowMeaning(m, id);
    if MapsTo(m, id, end) {
      var n: nat :| Orbit(m, id, n) == end;
      assert !NeverLeaves(m, id);
      var last := FollowMap(m, id).last;
      assert MapsTo(m, id, last);
      MapsToOnce(m, id, end, last);
    }
  }

  lemma IndexIsListed(r: Resolver, id: FormulaId, f: Formula)
    requires WellBuilt(r) && !IsCore(id)
    ensures id in r.formulae && r.formulae[id] == f <==> ListedIn(r.catalogs, id, f)
  {
    hide ValidTapCatalog, IndexesMappings;
    if id in r.formulae && r.formulae[id] == f {
      var tap, k :| tap in r.catalogs.Keys && FormulaAt(r.catalogs, tap, k, f);
      assert Acceptable(r.catalogs, tap);
      ListedInOwnTap(r.catalogs[tap], k);
    }
  }

  lemma ListedInOwnTap(document: TapCatalog, k: int)
    requires ValidTapCatalog(document) && 0 <= k < |document.formulae|
    ensures document.formulae[k].id.tap == document.tap
  {
  }

  /** A lookup finds exactly what mappings lead to and the snapshot or a document holds. */
  lemma LookupMeaning(r: Resolver, id: FormulaId, x: FormulaId, source: Source)
    requires WellBuilt(r)
    ensures LookupExact(r, id) == Found(x, source) <==> ComesFrom(r, id, x, source)
  {
    hide WellBuilt, FollowMap, CoreLookup, MapsTo, ListedIn, CoreHolds;
    if IsCore(id) {
      CoreLookupMeaning(r.core, id.name);
    } else {
      FollowIsMapsTo(r.mappings, id, x);
      CoreLookupMeaning(r.core, x.name);
      if !IsCore(x) && source.FromTap? {
        IndexIsListed(r, x, source.external);
      }
    }
  }

  /** An identity that is found under itself: canonical in core, or listed by its document; then
      it is no mapping source. */
  ghost predicate CanonicalIn(r: Resolver, id: FormulaId) {
    if IsCore(id) then exists f :: CoreHolds(r.core, id.name, f) && f.name == id.name
    else id !in r.mappings && exists f :: ListedIn(r.catalogs, id, f)
  }

  lemma CanonicalMeaning(r: Resolver, id: FormulaId)
    requires WellBuilt(r)
    ensures CanonicalIn(r, id) <==> LookupExact(r, id).Found? && LookupExact(r, id).id == id
  {
    hide WellBuilt, LookupExact, CoreHolds, ListedIn, Orbit;
    if LookupExact(r, id).Found? && LookupExact(r, id).id == id {
      LookupMeaning(r, id, id, LookupExact(r, id).source);
    }
    if CanonicalIn(r, id) {
      if IsCore(id) {
        var f :| CoreHolds(r.core, id.name, f) && f.name == id.name;
        LookupMeaning(r, id, id, FromCore(f));
      } else {
        var f :| ListedIn(r.catalogs, id, f);
        RestsAtItself(r.mappings, id);
        LookupMeaning(r, id, id, FromTap(f));
      }
    }
  }

  lemma RestsAtItself(m: Mappings, id: FormulaId)
    requires id !in m
    ensures MapsTo(m, id, id)
  {
    assert Orbit(m, id, 0) == id;
  }

  // ----- Spellings -----

  /** A qualified spelling is looked up as it is written. A bare one is a core name where core
      has it, and a name of the owner's tap only where core does not know it. */
  ghost predicate Means(r: Resolver, owner: TapId, raw: Spelling, x: FormulaId, source: Source) {
    match raw
    case Malformed(_) => false
    case Qualified(id) => ComesFrom(r, id, x, source)
    case Bare(name) =>
      || ComesFrom(r, FormulaId(CORE_TAP, name), x, source)
      || (CoreUnknown(r.core, name) && ComesFrom(r, FormulaId(owner, name), x, source))
  }

  lemma NormalizeMeaning(r: Resolver, owner: TapId, raw: Spelling, x: FormulaId, source: Source)
    requires WellBuilt(r)
    ensures Normalize(r, owner, raw) == Found(x, source) <==> Means(r, owner, raw, x, source)
  {
    hide WellBuilt, ComesFrom, CoreUnknown, FollowMap, CoreLookup;
    match raw
    case Malformed(_) =>
    case Qualified(id) => LookupMeaning(r, id, x, source);
    case Bare(name) =>
      CoreLookupMeaning(r.core, name);
      LookupMeaning(r, FormulaId(CORE_TAP, name), x, source);
      LookupMeaning(r, FormulaId(owner, name), x, source);
  }

  // ----- Variations -----

  ghost predicate ForbiddenFor(variations: seq<Variation>, tag: string) {
    exists k :: 0 <= k < |variations| && variations[k].tag == tag && variations[k].unavailable
  }

  ghost predicate Replaces(variations: seq<Variation>, tag: string, k: int) {
    0 <= k < |variations| && variations[k].tag == tag && variations[k].overridesDependencies
  }

  ghost predicate Resets(variations: seq<Variation>, tag: string, k: int) {
    0 <= k < |variations| && variations[k].tag == tag && variations[k].overridesKegOnly
  }

  /** The dependencies for a tag: those of the last variation that replaces them, else the base. */
  ghost predicate DependenciesFor(variations: seq<Variation>, tag: string, base: seq<Dependency>,
                                  chosen: seq<Dependency>) {
    if exists k :: Replaces(variations, tag, k)
    then exists k :: Replaces(variations, tag, k) && chosen == variations[k].dependencies
           && forall j | j > k :: !Replaces(variations, tag, j)
    else chosen == base
  }

  ghost predicate KegOnlyFor(variations: seq<Variation>, tag: string, base: bool, chosen: bool) {
    if exists k :: Resets(variations, tag, k)
    then exists k :: Resets(variations, tag, k) && chosen == variations[k].kegOnly
           && forall j | j > k :: !Resets(variations, tag, j)
    else chosen == base
  }

  lemma DependenciesFromTail(variations: seq<Variation>, tag: string, base: seq<Dependency>, chosen: seq<Dependency>)
    requires variations != []
    requires DependenciesFor(variations[1..], tag,
                             if Replaces(variations, tag, 0) then variations[0].dependencies else base, chosen)
    ensures DependenciesFor(variations, tag, base, chosen)
  {
    var tail := variations[1..];
    assert forall k | k >= 0 :: Replaces(tail, tag, k) <==> Replaces(variations, tag, k + 1);
    if exists k :: Replaces(tail, tag, k) {
      var k :| Replaces(tail, tag, k) && chosen == tail[k].dependencies && forall j | j > k :: !Replaces(tail, tag, j);
      assert Replaces(variations, tag, k + 1);
      forall j | j > k + 1 ensures !Replaces(variations, tag, j) {
        assert !Replaces(tail, tag, j - 1);
      }
    } else if Replaces(variations, tag, 0) {
      forall j | j > 0 ensures !Replaces(variations, tag, j) {
        assert !Replaces(tail, tag, j - 1);
      }
    } else {
      forall j ensures !Replaces(variations, tag, j) {
        assert !Replaces(tail, tag, j - 1);
      }
    }
  }

  lemma KegOnlyFromTail(variations: seq<Variation>, tag: string, base: bool, chosen: bool)
    requires variations != []
    requires KegOnlyFor(variations[1..], tag,
                        if Resets(variations, tag, 0) then variations[0].kegOnly else base, chosen)
    ensures KegOnlyFor(variations, tag, base, chosen)
  {
    var tail := variations[1..];
    assert forall k | k >= 0 :: Resets(tail, tag, k) <==> Resets(variations, tag, k + 1);
    if exists k :: Resets(tail, tag, k) {
      var k :| Resets(tail, tag, k) && chosen == tail[k].kegOnly && forall j | j > k :: !Resets(tail, tag, j);
      assert Resets(variations, tag, k + 1);
      forall j | j > k + 1 ensures !Resets(variations, tag, j) {
        assert !Resets(tail, tag, j - 1);
      }
    } else if Resets(variations, tag, 0) {
      forall j | j > 0 ensures !Resets(variations, tag, j) {
        assert !Resets(tail, tag, j - 1);
      }
    } else {
      forall j ensures !Resets(variations, tag, j) {
        assert !Resets(tail, tag, j - 1);
      }
    }
  }

  lemma ForbiddenFromTail(variations: seq<Variation>, tag: string)
    requires variations != []
    ensures ForbiddenFor(variations, tag) <==>
      (variations[0].tag == tag && variations[0].unavailable) || ForbiddenFor(variations[1..], tag)
  {
    var tail := variations[1..];
    if ForbiddenFor(tail, tag) {
      var k :| 0 <= k < |tail| && tail[k].tag == tag && tail[k].unavailable;
      assert variations[k + 1] == tail[k];
    }
    if ForbiddenFor(variations, tag) {
      var k :| 0 <= k < |variations| && variations[k].tag == tag && variations[k].unavailable;
      if k > 0 {
        assert tail[k - 1] == variations[k];
      }
    }
  }

  /** The selection for a tag: refused exactly when some variation forbids the tag; otherwise the
      last word on the dependencies and on keg-only. */
  lemma {:induction false} ChooseMeaning(variations: seq<Variation>, tag: string, dependencies: seq<Dependency>,
                                         kegOnly: bool)
    ensures var choice := Choose(variations, tag, dependencies, kegOnly);
      && (choice.Unavailable? <==> ForbiddenFor(variations, tag))
      && (choice.Selected? ==>
            && DependenciesFor(variations, tag, dependencies, choice.dependencies)
            && KegOnlyFor(variations, tag, kegOnly, choice.kegOnly))
  {
    hide DependenciesFor, KegOnlyFor, ForbiddenFor;
    if variations == [] {
      NoVariations(tag, dependencies, kegOnly);
    } else {
      var d := if Replaces(variations, tag, 0) then variations[0].dependencies else dependencies;
      var o := if Resets(variations, tag, 0) then variations[0].kegOnly else kegOnly;
      ChooseMeaning(variations[1..], tag, d, o);
      ForbiddenFromTail(variations, tag);
      var choice := Choose(variations[1..], tag, d, o);
      if choice.Selected? {
        DependenciesFromTail(variations, tag, dependencies, choice.dependencies);
        KegOnlyFromTail(variations, tag, kegOnly, choice.kegOnly);
      }
    }
  }

  lemma NoVariations(tag: string, dependencies: seq<Dependency>, kegOnly: bool)
    ensures !ForbiddenFor([], tag) && DependenciesFor([], tag, dependencies, dependencies)
    ensures KegOnlyFor([], tag, kegOnly, kegOnly)
  {
  }

  // ----- One node -----

  predicate Bottled(f: Formula, tag: string) {
    f.bottle.Some? && (tag in f.bottle.value.tags || "all" in f.bottle.value.tags)
  }

  /** The node of a core Formula on a platform, with the spellings of its dependencies. */
  ghost predicate CoreNodeSays(core: Core, platform: Platform, node: Node, spelled: seq<Spelling>) {
    var tag := BottleTag(platform);
    && node.id.name in core.canonical
    && var f := core.canonical[node.id.name];
      && !f.disabled && f.hasBottle && tag in f.tags && spelled == f.tags[tag].dependencies
      && node.tap == CORE_TAP && node.name == f.name && node.fullName == f.fullName
      && node.formulaVersion == f.stableVersion && node.formulaRevision == f.revision
      && node.pkgVersion == PkgVersion(f.stableVersion, f.revision) && node.versionScheme == f.versionScheme
      && node.bottleRebuild == f.bottleRebuild && node.license == f.license && node.kegOnly == f.tags[tag].kegOnly
  }

  /** The node of a tap's Formula on a platform: enabled, with a bottle for the platform or, as a
      requested root only, an authorized archive. */
  ghost predicate TapNodeSays(r: Resolver, platform: Platform, isRoot: bool, node: Node, f: Formula,
                              chosen: seq<Dependency>) {
    var tag := BottleTag(platform);
    && ListedIn(r.catalogs, node.id, f) && !f.disabled && (Bottled(f, tag) || (isRoot && r.authorized(f, platform)))
    && !ForbiddenFor(f.variations, tag) && DependenciesFor(f.variations, tag, f.dependencies, chosen)
    && KegOnlyFor(f.variations, tag, f.kegOnly, node.kegOnly)
    && node.tap == node.id.tap && node.name == f.name && node.fullName == f.fullName
    && node.formulaVersion == f.stableVersion && node.formulaRevision == f.revision
    && node.pkgVersion == PkgVersion(f.stableVersion, f.revision) && node.versionScheme == f.versionScheme
    && node.bottleRebuild == (if Bottled(f, tag) then f.bottle.value.rebuild else 0) && node.license == f.license
  }

  function Plain(raw: Spelling, target: FormulaId): Requirement { Requirement(raw, target, "", 0, 0, true) }

  /** One direct requirement without a minimum for each spelling, in the order of the targets. */
  ghost predicate Requires(node: Node, spelled: seq<Spelling>, targets: seq<FormulaId>) {
    && |spelled| == |targets| == |node.dependencies|
    && (forall k | 0 <= k < |spelled| :: Plain(spelled[k], targets[k]) in node.dependencies)
    && (forall d | d in node.dependencies :: exists k | 0 <= k < |spelled| :: d == Plain(spelled[k], targets[k]))
    && SortedBy(node.dependencies, RequirementLe)
  }

  /** Each target is what its spelling means in the tap of the node. */
  ghost predicate Leads(r: Resolver, owner: TapId, spelled: seq<Spelling>, targets: seq<FormulaId>) {
    |spelled| == |targets| && forall k | 0 <= k < |spelled| :: MeansThis(r, owner, spelled[k], targets[k])
  }

  ghost predicate MeansThis(r: Resolver, owner: TapId, raw: Spelling, x: FormulaId) {
    exists source :: Means(r, owner, raw, x, source)
  }

  ghost predicate ComesTo(r: Resolver, id: FormulaId, x: FormulaId) {
    exists source :: ComesFrom(r, id, x, source)
  }

  /** Everything a node says is what the snapshot or the document of its tap says. */
  ghost predicate NodeSays(r: Resolver, platform: Platform, isRoot: bool, node: Node) {
    if IsCore(node.id) then
      exists spelled, targets ::
        && CoreNodeSays(r.core, platform, node, spelled)
        && Requires(node, spelled, targets) && Leads(r, CORE_TAP, spelled, targets)
    else
      exists f, chosen ::
        && TapNodeSays(r, platform, isRoot, node, f, chosen)
        && Requires(node, RawsOf(chosen), IdsOf(chosen)) && Leads(r, node.id.tap, RawsOf(chosen), IdsOf(chosen))
  }

  ghost function RawsOf(list: seq<Dependency>): (raws: seq<Spelling>)
    ensures |raws| == |list| && forall k | 0 <= k < |list| :: raws[k] == list[k].raw
  {
    seq(|list|, k requires 0 <= k < |list| => list[k].raw)
  }

  ghost function IdsOf(list: seq<Dependency>): (ids: seq<FormulaId>)
    ensures |ids| == |list| && forall k | 0 <= k < |list| :: ids[k] == list[k].id
  {
    seq(|list|, k requires 0 <= k < |list| => list[k].id)
  }

  /** What the dependencies to be normalized are spelled like, and what they are found to be. */
  ghost function Spelled(wanted: seq<Wanted>): (raws: seq<Spelling>)
    ensures |raws| == |wanted| && forall k | 0 <= k < |wanted| :: raws[k] == wanted[k].raw
  {
    seq(|wanted|, k requires 0 <= k < |wanted| => wanted[k].raw)
  }

  ghost function FoundTargets(r: Resolver, id: FormulaId, wanted: seq<Wanted>): (ids: seq<FormulaId>)
    requires WantedResolve(r, id, wanted)
    ensures |ids| == |wanted|
    ensures forall k | 0 <= k < |wanted| :: ids[k] == Normalize(r, id.tap, wanted[k].raw).id
  {
    seq(|wanted|, k requires 0 <= k < |wanted| => Normalize(r, id.tap, wanted[k].raw).id)
  }

  lemma RequiresWanted(q: Query, id: FormulaId)
    requires NodeResolves(q, id)
    ensures var wanted := OpenedAt(q, id).wanted;
      Requires(NodeOf(q, id), Spelled(wanted), FoundTargets(q.r, id, wanted))
  {
    hide OpenedAt, Normalize, Sort;
    var wanted := OpenedAt(q, id).wanted;
    var list := RequirementsOf(q.r, id, wanted);
    SortPermutes(list, RequirementLe);
    KeyOrder((d: Requirement) => Text(d.id), RequirementLe);
    SortSorts(list, RequirementLe);
    var node := NodeOf(q, id);
    forall k | 0 <= k < |wanted|
      ensures Plain(Spelled(wanted)[k], FoundTargets(q.r, id, wanted)[k]) in node.dependencies
    {
      assert list[k] in list;
    }
    forall d | d in node.dependencies
      ensures exists k | 0 <= k < |wanted| :: d == Plain(Spelled(wanted)[k], FoundTargets(q.r, id, wanted)[k])
    {
      assert d in list;
      var k :| 0 <= k < |list| && list[k] == d;
      assert d == Plain(Spelled(wanted)[k], FoundTargets(q.r, id, wanted)[k]);
    }
  }

  lemma LeadsWanted(r: Resolver, id: FormulaId, wanted: seq<Wanted>)
    requires WellBuilt(r) && WantedResolve(r, id, wanted)
    ensures Leads(r, id.tap, Spelled(wanted), FoundTargets(r, id, wanted))
  {
    hide WellBuilt, Normalize, Means;
    var spelled, targets := Spelled(wanted), FoundTargets(r, id, wanted);
    forall k | 0 <= k < |wanted| ensures MeansThis(r, id.tap, spelled[k], targets[k]) {
      var found := Normalize(r, id.tap, wanted[k].raw);
      NormalizeMeaning(r, id.tap, wanted[k].raw, found.id, found.source);
    }
  }

  lemma CoreNodeInTerms(q: Query, id: FormulaId)
    requires WellBuilt(q.r) && NodeResolves(q, id) && IsCore(id)
    ensures CoreNodeSays(q.r.core, q.platform, NodeOf(q, id), Spelled(OpenedAt(q, id).wanted))
  {
    hide WellBuilt, Normalize, Sort, CoreHolds;
    var source := LookupExact(q.r, id).source;
    LookupMeaning(q.r, id, id, source);
    assert CoreHolds(q.r.core, id.name, source.core);
    HoldsFields(q.r.core, id.name, source.core);
    var wanted := OpenedAt(q, id).wanted;
    assert Spelled(wanted) == source.core.tags[BottleTag(q.platform)].dependencies;
  }

  lemma HoldsFields(core: Core, name: Name, f: CoreFormula)
    requires CoreHolds(core, name, f)
    ensures f.name in core.canonical && core.canonical[f.name] == f && !f.disabled && f.hasBottle
  {
  }

  lemma TapNodeInTerms(q: Query, id: FormulaId) returns (f: Formula, chosen: seq<Dependency>)
    requires WellBuilt(q.r) && NodeResolves(q, id) && !IsCore(id)
    ensures TapNodeSays(q.r, q.platform, id in q.roots, NodeOf(q, id), f, chosen)
    ensures var wanted := OpenedAt(q, id).wanted;
      RawsOf(chosen) == Spelled(wanted) && IdsOf(chosen) == FoundTargets(q.r, id, wanted)
  {
    hide WellBuilt, Normalize, Sort, ListedIn, MapsTo, DependenciesFor, KegOnlyFor, ForbiddenFor, Choose;
    var source := LookupExact(q.r, id).source;
    LookupMeaning(q.r, id, id, source);
    f := source.external;
    var tag := BottleTag(q.platform);
    ChooseMeaning(f.variations, tag, f.dependencies, f.kegOnly);
    chosen := Choose(f.variations, tag, f.dependencies, f.kegOnly).dependencies;
    var wanted := OpenedAt(q, id).wanted;
    assert RawsOf(chosen) == Spelled(wanted);
    assert forall k | 0 <= k < |wanted| :: wanted[k].signed == Some(chosen[k].id);
    assert IdsOf(chosen) == FoundTargets(q.r, id, wanted);
  }

  lemma NodeInTerms(q: Query, id: FormulaId)
    requires WellBuilt(q.r) && NodeResolves(q, id)
    ensures NodeSays(q.r, q.platform, id in q.roots, NodeOf(q, id))
  {
    hide WellBuilt, Normalize, Sort, CoreNodeSays, TapNodeSays, Requires, Leads, OpenedAt, NodeOf;
    NodeOfIdentity(q, id);
    RequiresWanted(q, id);
    LeadsWanted(q.r, id, OpenedAt(q, id).wanted);
    if IsCore(id) {
      CoreNodeInTerms(q, id);
    } else {
      var f, chosen := TapNodeInTerms(q, id);
    }
  }

  /** Every node of a resolved closure says what the snapshot or a document says of it on the
      platform, and every requested root is what the mappings make of the root asked for. */
  lemma ClosureInTerms(r: Resolver, raws: seq<FormulaId>, platform: Platform, closure: ClosureResult)
    requires WellBuilt(r) && AllFound(r, raws) && Assembled(QueryOf(r, raws, platform), raws, closure)
    ensures forall k | 0 <= k < |closure.nodes| ::
      NodeSays(r, platform, closure.nodes[k].id in closure.requested, closure.nodes[k])
    ensures |closure.requested| == |raws|
    ensures forall k | 0 <= k < |raws| :: ComesTo(r, raws[k], closure.requested[k])
  {
    hide WellBuilt, NodeSays, ComesFrom, Needed, NodeOf, NodeResolves, OrderAssembled, LookupExact, NodeTaps, RootTaps;
    var q := QueryOf(r, raws, platform);
    forall k | 0 <= k < |closure.nodes|
      ensures NodeSays(r, platform, closure.nodes[k].id in closure.requested, closure.nodes[k])
    {
      NodeInTerms(q, closure.nodes[k].id);
    }
    forall k | 0 <= k < |raws| ensures ComesTo(r, raws[k], closure.requested[k]) {
      var found := LookupExact(r, raws[k]);
      LookupMeaning(r, raws[k], found.id, found.source);
    }
  }

  // ----- When a resolved node passes the closure check -----

  /** The identity a spelling is written as is the one found under it. */
  ghost predicate WrittenCanonically(r: Resolver, owner: TapId, raw: Spelling) {
    match raw
    case Malformed(_) => false
    case Qualified(id) => CanonicalIn(r, id)
    case Bare(name) =>
      CanonicalIn(r, FormulaId(CORE_TAP, name)) || (CoreUnknown(r.core, name) && CanonicalIn(r, FormulaId(owner, name)))
  }

  /** The check of a requirement passes exactly for spellings that are written canonically. */
  lemma RequirementOkMeaning(r: Resolver, owner: TapId, raw: Spelling)
    requires WellBuilt(r) && Normalize(r, owner, raw).Found?
    ensures ClosureCheck.RequirementOk(Plain(raw, Normalize(r, owner, raw).id), owner) <==>
      WrittenCanonically(r, owner, raw)
  {
    hide WellBuilt, CanonicalIn, CoreUnknown, CoreLookup, FollowMap;
    match raw
    case Qualified(id) => CanonicalMeaning(r, id);
    case Bare(name) =>
      CanonicalMeaning(r, FormulaId(CORE_TAP, name));
      CanonicalMeaning(r, FormulaId(owner, name));
      CoreLookupMeaning(r.core, name);
      if CoreUnknown(r.core, name) {
        UnknownEndsElsewhere(r, owner, name);
      }
  }

  /** What core does not know is not found in core by way of the tap either. */
  lemma UnknownEndsElsewhere(r: Resolver, owner: TapId, name: Name)
    requires CoreLookup(r.core, name) == CoreFailed(NotFound)
    ensures LookupExact(r, FormulaId(owner, name)).Found? ==>
      LookupExact(r, FormulaId(owner, name)).id != FormulaId(CORE_TAP, name)
  {
    hide FollowMap;
  }

  /** The fields the closure check asks of a node, and its spellings: none stands for the node
      itself, no two stand for the same, and each is written canonically. */
  ghost predicate FieldsPass(node: Node) {
    && node.name == node.id.name && node.fullName == Text(node.id)
    && node.formulaVersion != "" && node.pkgVersion != ""
    && node.formulaRevision >= 0 && node.versionScheme >= 0 && node.bottleRebuild >= 0
  }

  ghost predicate SpellingsPass(r: Resolver, id: FormulaId, spelled: seq<Spelling>, targets: seq<FormulaId>) {
    && |spelled| == |targets| && id !in targets && NoRepeats(targets)
    && forall k | 0 <= k < |spelled| :: WrittenCanonically(r, id.tap, spelled[k])
  }

  lemma ResolvedNodeOk(q: Query, id: FormulaId)
    requires WellBuilt(q.r) && NodeResolves(q, id)
    ensures var wanted := OpenedAt(q, id).wanted;
      ClosureCheck.NodeOk(NodeOf(q, id)) <==>
      FieldsPass(NodeOf(q, id)) && SpellingsPass(q.r, id, Spelled(wanted), FoundTargets(q.r, id, wanted))
  {
    hide WellBuilt, Normalize, OpenedAt, NodeOf, Sort, WrittenCanonically;
    NodeOfIdentity(q, id);
    RequiresWanted(q, id);
    var wanted, node := OpenedAt(q, id).wanted, NodeOf(q, id);
    var spelled, targets := Spelled(wanted), FoundTargets(q.r, id, wanted);
    forall k | 0 <= k < |wanted|
      ensures ClosureCheck.RequirementOk(Plain(spelled[k], targets[k]), id.tap) <==>
        WrittenCanonically(q.r, id.tap, spelled[k])
    {
      RequirementOkMeaning(q.r, id.tap, wanted[k].raw);
    }
    TargetsDistinct(q, id);
    RequirementsPass(q.r, node, spelled, targets);
  }

  lemma RequirementsPass(r: Resolver, node: Node, spelled: seq<Spelling>, targets: seq<FormulaId>)
    requires Requires(node, spelled, targets)
    requires forall k | 0 <= k < |spelled| ::
      ClosureCheck.RequirementOk(Plain(spelled[k], targets[k]), node.id.tap) <==>
      WrittenCanonically(r, node.id.tap, spelled[k])
    ensures (forall i | 0 <= i < |node.dependencies| ::
      ClosureCheck.RequirementOk(node.dependencies[i], node.id.tap) && node.dependencies[i].id != node.id)
      <==> node.id !in targets && forall k | 0 <= k < |spelled| :: WrittenCanonically(r, node.id.tap, spelled[k])
  {
    hide WrittenCanonically, ClosureCheck.RequirementOk;
    var list := node.dependencies;
    if forall i | 0 <= i < |list| :: ClosureCheck.RequirementOk(list[i], node.id.tap) && list[i].id != node.id {
      forall k | 0 <= k < |spelled| ensures WrittenCanonically(r, node.id.tap, spelled[k]) && targets[k] != node.id {
        var i :| 0 <= i < |list| && list[i] == Plain(spelled[k], targets[k]);
      }
    }
    if node.id !in targets && forall k | 0 <= k < |spelled| :: WrittenCanonically(r, node.id.tap, spelled[k]) {
      forall i | 0 <= i < |list| ensures ClosureCheck.RequirementOk(list[i], node.id.tap) && list[i].id != node.id {
        assert list[i] in list;
        var k :| 0 <= k < |spelled| && list[i] == Plain(spelled[k], targets[k]);
      }
    }
  }

  lemma TargetsDistinct(q: Query, id: FormulaId)
    requires NodeResolves(q, id)
    ensures ClosureCheck.DistinctTargets(NodeOf(q, id).dependencies) <==>
      NoRepeats(FoundTargets(q.r, id, OpenedAt(q, id).wanted))
  {
    hide OpenedAt, Normalize, Sort;
    var wanted := OpenedAt(q, id).wanted;
    var list, targets := RequirementsOf(q.r, id, wanted), FoundTargets(q.r, id, wanted);
    SortPermutes(list, RequirementLe);
    var sorted := Sort(list, RequirementLe);
    if NoRepeats(targets) {
      DistinctSorted(list, sorted);
    }
    if ClosureCheck.DistinctTargets(sorted) {
      DistinctSorted(sorted, list);
      forall i, j | 0 <= i < j < |targets| ensures targets[i] != targets[j] {
        assert list[i].id == targets[i] && list[j].id == targets[j];
      }
    }
  }

  lemma DistinctSorted(a: seq<Requirement>, b: seq<Requirement>)
    requires multiset(a) == multiset(b) && ClosureCheck.DistinctTargets(a)
    ensures ClosureCheck.DistinctTargets(b)
  {
    NoRepeatsPermutes(a, b);
    SameMembers(a, b);
    forall i, j | 0 <= i < j < |b| ensures b[i].id != b[j].id {
      assert b[i] in b && b[j] in b;
      var x :| 0 <= x < |a| && a[x] == b[i];
      var y :| 0 <= y < |a| && a[y] == b[j];
    }
  }
}
