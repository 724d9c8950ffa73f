/** Single lookups and node expansion of internal/catalogresolver/resolver.go: lookupExact,
    normalizeDependency and nodeAndDependencies. Each function is paired with the taps it
    records as used. */
module Lookups {
  import opened Identity
  import opened Catalog
  import opened Wrappers
  import opened Mapping
  import opened TapCatalogs

  datatype Source = FromCore(core: CoreFormula) | FromTap(external: Formula)

  datatype Lookup = Found(id: FormulaId, source: Source) | Failed(error: LookupError)

  function LookupExact(r: Resolver, id: FormulaId): Lookup {
    if IsCore(id) then
      match CoreLookup(r.core, id.name)
      case CoreFailed(error) => Failed(error)
      case CoreMatch(formula) => Found(FormulaId(CORE_TAP, formula.name), FromCore(formula))
    else
      match FollowMap(r.mappings, id)
      case Loops => Failed(MappingLoops)
      case Ends(resolved) =>
        if IsCore(resolved) then
          match CoreLookup(r.core, resolved.name)
          case CoreFailed(error) => Failed(error)
          case CoreMatch(formula) =>
            if FormulaId(CORE_TAP, formula.name) == resolved then Found(resolved, FromCore(formula))
            else Failed(NotCanonical)
        else if resolved in r.formulae then Found(resolved, FromTap(r.formulae[resolved]))
        else if resolved.tap !in r.catalogs then Failed(MissingTap(resolved.tap))
        else Failed(Absent)
  }

  function LookupTaps(r: Resolver, id: FormulaId): set<TapId> {
    if IsCore(id) then {} else MapTaps(r.mappings, id)
  }

  function Normalize(r: Resolver, owner: TapId, raw: Spelling): Lookup {
    match raw
    case Malformed(_) => Failed(BadSpelling)
    case Qualified(id) => LookupExact(r, id)
    case Bare(name) =>
      var inCore := LookupExact(r, FormulaId(CORE_TAP, name));
      if inCore == Failed(NotFound) then LookupExact(r, FormulaId(owner, name)) else inCore
  }

  function NormalizeTaps(r: Resolver, owner: TapId, raw: Spelling): set<TapId> {
    match raw
    case Malformed(_) => {}
    case Qualified(id) => LookupTaps(r, id)
    case Bare(name) =>
      if LookupExact(r, FormulaId(CORE_TAP, name)) == Failed(NotFound) then LookupTaps(r, FormulaId(owner, name))
      else {}
  }

  /** lookupExact, with the set of taps it adds to. */
  method LookupFormula(r: Resolver, id: FormulaId, used: set<TapId>) returns (lookup: Lookup, used': set<TapId>)
    ensures lookup == LookupExact(r, id) && used' == used + LookupTaps(r, id)
  {
    hide FollowFrom, TapsFrom;
    if IsCore(id) {
      match CoreLookup(r.core, id.name)
      case CoreFailed(error) => return Failed(error), used;
      case CoreMatch(formula) => return Found(FormulaId(CORE_TAP, formula.name), FromCore(formula)), used;
    }
    var answer;
    answer, used' := ResolveMapping(r.mappings, id, used);
    if answer.Loops? {
      return Failed(MappingLoops), used';
    }
    var resolved := answer.last;
    if IsCore(resolved) {
      match CoreLookup(r.core, resolved.name)
      case CoreFailed(error) => return Failed(error), used';
      case CoreMatch(formula) =>
        if FormulaId(CORE_TAP, formula.name) != resolved {
          return Failed(NotCanonical), used';
        }
        return Found(resolved, FromCore(formula)), used';
    }
    if resolved !in r.formulae {
      return Failed(if resolved.tap !in r.catalogs then MissingTap(resolved.tap) else Absent), used';
    }
    return Found(resolved, FromTap(r.formulae[resolved])), used';
  }

  /** normalizeDependency */
  method NormalizeDependency(r: Resolver, owner: TapId, raw: Spelling, used: set<TapId>)
    returns (lookup: Lookup, used': set<TapId>)
    ensures lookup == Normalize(r, owner, raw) && used' == used + NormalizeTaps(r, owner, raw)
  {
    hide LookupExact, MapTaps;
    match raw
    case Malformed(_) =>
      return Failed(BadSpelling), used;
    case Qualified(id) =>
      lookup, used' := LookupFormula(r, id, used);
    case Bare(name) =>
      lookup, used' := LookupFormula(r, FormulaId(CORE_TAP, name), used);
      if lookup == Failed(NotFound) {
        lookup, used' := LookupFormula(r, FormulaId(owner, name), used');
      }
  }

  /** A canonical identity is found under itself. */
  lemma LookupIdempotent(r: Resolver, id: FormulaId)
    requires LookupExact(r, id).Found?
    ensures LookupExact(r, LookupExact(r, id).id) == LookupExact(r, id)
  {
    if !IsCore(id) {
      FollowIdempotent(r.mappings, id);
    }
  }

  /** What is found through a dependency spelling is canonical. */
  lemma NormalizeCanonical(r: Resolver, owner: TapId, raw: Spelling)
    requires Normalize(r, owner, raw).Found?
    ensures LookupExact(r, Normalize(r, owner, raw).id) == Normalize(r, owner, raw)
  {
    match raw
    case Qualified(id) => LookupIdempotent(r, id);
    case Bare(name) =>
      if LookupExact(r, FormulaId(CORE_TAP, name)) == Failed(NotFound) {
        LookupIdempotent(r, FormulaId(owner, name));
      } else {
        LookupIdempotent(r, FormulaId(CORE_TAP, name));
      }
  }

  // ----- Taps touched -----

  /** A lookup touches the tap it starts in, the tap it ends in and never core; a missing tap
      is touched, is not core, and has no document. */
  lemma LookupTouches(r: Resolver, id: FormulaId)
    ensures !IsCore(id) ==> id.tap in LookupTaps(r, id)
    ensures CORE_TAP !in LookupTaps(r, id)
    ensures LookupExact(r, id).Found? && !IsCore(LookupExact(r, id).id) ==>
      LookupExact(r, id).id.tap in LookupTaps(r, id)
    ensures forall t :: LookupExact(r, id) == Failed(MissingTap(t)) ==>
      t != CORE_TAP && t !in r.catalogs && t in LookupTaps(r, id)
  {
    if IsCore(id) {
      CoreNeverMissing(r.core, id.name);
    } else {
      EndsTouched(r.mappings, id, {});
      NoCoreTouched(r.mappings, id, {});
    }
  }

  /** A lookup that succeeds touches only taps with a document. */
  lemma FoundTouchesKnown(r: Resolver, id: FormulaId)
    requires WellBuilt(r) && LookupExact(r, id).Found?
    ensures LookupTaps(r, id) <= r.catalogs.Keys
  {
    hide WellBuilt, HasSource, HasFormula;
    if !IsCore(id) {
      forall x | x in r.mappings ensures x.tap in r.catalogs {
        KnownSource(r, x);
      }
      var resolved := FollowMap(r.mappings, id).last;
      if !IsCore(resolved) {
        KnownFormula(r, resolved);
      }
      TouchedTaps(r.mappings, id, {}, r.catalogs.Keys);
    }
  }

  lemma CoreNeverMissing(core: Core, name: Name)
    ensures CoreLookup(core, name).CoreFailed? ==> !CoreLookup(core, name).error.MissingTap?
  {
  }

  lemma {:induction false} NoCoreTouched(m: Mappings, id: FormulaId, seen: set<FormulaId>)
    requires seen <= m.Keys
    ensures CORE_TAP !in TapsFrom(m, id, seen)
    decreases m.Keys - seen
  {
    if id !in seen && id in m {
      NoCoreTouched(m, m[id], seen + {id});
    }
  }

  /** With more documents a successful lookup is unchanged, and no lookup touches fewer taps. */
  lemma LookupMono(r: Resolver, r': Resolver, id: FormulaId)
    requires Extends(r, r')
    ensures LookupTaps(r, id) <= LookupTaps(r', id)
    ensures LookupExact(r, id).Found? ==>
      LookupExact(r', id) == LookupExact(r, id) && LookupTaps(r', id) == LookupTaps(r, id)
  {
    hide WellBuilt, SameEntry, FollowFrom, TapsFrom, CoreLookup, Orbit;
    if !IsCore(id) {
      ExtendsMappings(r, r');
      FollowFromMono(r.mappings, r'.mappings, id, {});
      if LookupExact(r, id).Found? {
        FollowMeaning(r.mappings, id);
        EndStays(r, r', FollowMap(r.mappings, id).last);
      }
    }
  }

  /** Where a lookup that knows enough ends, more documents change nothing. */
  lemma EndStays(r: Resolver, r': Resolver, last: FormulaId)
    requires Extends(r, r') && last !in r.mappings
    requires IsCore(last) || last in r.formulae || last.tap in r.catalogs
    ensures last !in r'.mappings
    ensures last in r.formulae ==> last in r'.formulae && r'.formulae[last] == r.formulae[last]
    ensures !IsCore(last) ==> (last in r.formulae <==> last in r'.formulae)
  {
    hide IndexesFormulae, IndexesMappings, HasSource, HasFormula;
    NoCoreDocument(r');
    KnownEntries(r', last);
    KnownEntries(r, last);
    if last.tap in r.catalogs {
      DocumentEntries(r, r', last);
    }
  }

  /** A lookup that fails for want of anything but a document fails alike with more documents. */
  lemma LookupFailsMono(r: Resolver, r': Resolver, id: FormulaId)
    requires Extends(r, r') && LookupExact(r, id).Failed? && !LookupExact(r, id).error.MissingTap?
    ensures LookupExact(r', id) == LookupExact(r, id)
  {
    hide WellBuilt, SameEntry, FollowFrom, TapsFrom, CoreLookup, Orbit;
    if !IsCore(id) {
      ExtendsMappings(r, r');
      FollowFromMono(r.mappings, r'.mappings, id, {});
      if FollowMap(r.mappings, id).Ends? {
        FollowMeaning(r.mappings, id);
        EndStays(r, r', FollowMap(r.mappings, id).last);
        ExtendsKeys(r, r');
      }
    }
  }

  lemma ExtendsKeys(r: Resolver, r': Resolver)
    requires Extends(r, r')
    ensures r.catalogs.Keys <= r'.catalogs.Keys && r.core == r'.core
  {
    hide WellBuilt;
  }

  lemma NormalizeFailsMono(r: Resolver, r': Resolver, owner: TapId, raw: Spelling)
    requires Extends(r, r') && Normalize(r, owner, raw).Failed? && !Normalize(r, owner, raw).error.MissingTap?
    ensures Normalize(r', owner, raw) == Normalize(r, owner, raw)
  {
    hide WellBuilt, Extends, FollowMap, CoreLookup;
    ExtendsKeys(r, r');
    match raw
    case Malformed(_) =>
    case Qualified(id) => LookupFailsMono(r, r', id);
    case Bare(name) =>
      assert LookupExact(r, FormulaId(CORE_TAP, name)) == LookupExact(r', FormulaId(CORE_TAP, name));
      if LookupExact(r, FormulaId(CORE_TAP, name)) == Failed(NotFound) {
        LookupFailsMono(r, r', FormulaId(owner, name));
      }
  }

  lemma NoCoreDocument(r: Resolver)
    requires WellBuilt(r)
    ensures CORE_TAP !in r.catalogs
  {
  }

  lemma NormalizeMono(r: Resolver, r': Resolver, owner: TapId, raw: Spelling)
    requires Extends(r, r')
    ensures NormalizeTaps(r, owner, raw) <= NormalizeTaps(r', owner, raw)
    ensures Normalize(r, owner, raw).Found? ==> Normalize(r', owner, raw) == Normalize(r, owner, raw)
  {
    match raw
    case Malformed(_) =>
    case Qualified(id) => LookupMono(r, r', id);
    case Bare(name) =>
      assert LookupExact(r, FormulaId(CORE_TAP, name)) == LookupExact(r', FormulaId(CORE_TAP, name));
      LookupMono(r, r', FormulaId(owner, name));
  }

  // ----- Node expansion -----

  datatype Selection = Selected(dependencies: seq<Dependency>, kegOnly: bool) | Unavailable

  /** The dependencies and keg-only flag left after the variations of one tag, in order. */
  function Choose(variations: seq<Variation>, tag: string, dependencies: seq<Dependency>, kegOnly: bool): Selection {
    if variations == [] then Selected(dependencies, kegOnly)
    else
      var variation := variations[0];
      if variation.tag != tag then Choose(variations[1..], tag, dependencies, kegOnly)
      else if variation.unavailable then Unavailable
      else Choose(variations[1..], tag,
                  if variation.overridesDependencies then variation.dependencies else dependencies,
                  if variation.overridesKegOnly then variation.kegOnly else kegOnly)
  }

  method SelectVariation(formula: Formula, tag: string) returns (selection: Selection)
    ensures selection == Choose(formula.variations, tag, formula.dependencies, formula.kegOnly)
  {
    var dependencies, kegOnly := formula.dependencies, formula.kegOnly;
    var i := 0;
    while i < |formula.variations|
      invariant 0 <= i <= |formula.variations|
      invariant Choose(formula.variations[i..], tag, dependencies, kegOnly)
             == Choose(formula.variations, tag, formula.dependencies, formula.kegOnly)
    {
      var variation := formula.variations[i];
      assert formula.variations[i..][1..] == formula.variations[i + 1..];
      i := i + 1;
      if variation.tag != tag {
        continue;
      }
      if variation.unavailable {
        return Unavailable;
      }
      if variation.overridesDependencies {
        dependencies := variation.dependencies;
      }
      if variation.overridesKegOnly {
        kegOnly := variation.kegOnly;
      }
    }
    return Selected(dependencies, kegOnly);
  }

  /** A dependency still to be normalized, with the identity the signed document claims. */
  datatype Wanted = Wanted(raw: Spelling, signed: Option<FormulaId>)

  datatype Opened = Opened(node: Node, wanted: seq<Wanted>) | Shut

  predicate HasNativeBottle(formula: Formula, tag: string) {
    formula.bottle.Some? && (tag in formula.bottle.value.tags || "all" in formula.bottle.value.tags)
  }

  predicate Installable(r: Resolver, formula: Formula, platform: Platform, requestedRoot: bool) {
    && !formula.disabled
    && (HasNativeBottle(formula, BottleTag(platform)) || (requestedRoot && r.authorized(formula, platform)))
  }

  function CoreNode(formula: CoreFormula, id: FormulaId, kegOnly: bool): Node {
    Node(id, id.tap, formula.name, formula.fullName, formula.stableVersion, formula.revision,
         PkgVersion(formula.stableVersion, formula.revision), formula.versionScheme, formula.bottleRebuild,
         formula.license, kegOnly, [])
  }

  function TapNode(formula: Formula, id: FormulaId, tag: string, kegOnly: bool): Node {
    Node(id, id.tap, formula.name, formula.fullName, formula.stableVersion, formula.revision,
         PkgVersion(formula.stableVersion, formula.revision), formula.versionScheme,
         if HasNativeBottle(formula, tag) then formula.bottle.value.rebuild else 0,
         formula.license, kegOnly, [])
  }

  function Open(r: Resolver, source: Source, id: FormulaId, platform: Platform, requestedRoot: bool): Opened {
    var tag := BottleTag(platform);
    match source
    case FromCore(formula) =>
      if formula.disabled || tag !in formula.tags then Shut
      else
        var deps := formula.tags[tag].dependencies;
        Opened(CoreNode(formula, id, formula.tags[tag].kegOnly),
               seq(|deps|, i requires 0 <= i < |deps| => Wanted(deps[i], None)))
    case FromTap(formula) =>
      if !Installable(r, formula, platform, requestedRoot) then Shut
      else
        match Choose(formula.variations, tag, formula.dependencies, formula.kegOnly)
        case Unavailable => Shut
        case Selected(deps, kegOnly) =>
          Opened(TapNode(formula, id, tag, kegOnly),
                 seq(|deps|, i requires 0 <= i < |deps| => Wanted(deps[i].raw, Some(deps[i].id))))
  }

  method NodeAndDependencies(r: Resolver, source: Source, id: FormulaId, platform: Platform, requestedRoot: bool)
    returns (expansion: Opened)
    ensures expansion == Open(r, source, id, platform, requestedRoot)
  {
    var tag := BottleTag(platform);
    match source
    case FromCore(formula) =>
      if formula.disabled || tag !in formula.tags {
        return Shut;
      }
      var deps := formula.tags[tag].dependencies;
      return Opened(CoreNode(formula, id, formula.tags[tag].kegOnly),
                    seq(|deps|, i requires 0 <= i < |deps| => Wanted(deps[i], None)));
    case FromTap(formula) =>
      if !Installable(r, formula, platform, requestedRoot) {
        return Shut;
      }
      var selection := SelectVariation(formula, tag);
      match selection
      case Unavailable => return Shut;
      case Selected(deps, kegOnly) =>
        return Opened(TapNode(formula, id, tag, kegOnly),
                      seq(|deps|, i requires 0 <= i < |deps| => Wanted(deps[i].raw, Some(deps[i].id))));
  }
}
