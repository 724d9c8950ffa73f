/** The two sides that read a dependency spelling agree: the extractor that signs an identity,
    internal/catalogextractor/raw.go, normalizeDependencies, and the resolver that looks the
    spelling up again, internal/catalogresolver/resolver.go, normalizeDependency. */
module SignedSpellings {
  import opened Identity
  import opened Catalog
  import opened Wrappers
  import opened Sorting
  import opened Mapping
  import opened TapCatalogs
  import opened Lookups
  import opened Resolution
  import opened DocumentTerms
  import opened Canonical
  import opened Conversion

  /** The extractor and the resolver work with the same core snapshot. */
  ghost predicate SameSetting(s: Setting, r: Resolver) { WellBuilt(r) && s.core == r.core }

  /** What the extractor signs: a qualified spelling as it is written, a bare one as a core name
      where core has it, and as a name of the tap only where core does not know it and the tap has
      a Formula of this name. */
  lemma IdentifyInTerms(s: Setting, raw: Spelling, id: FormulaId)
    ensures Identify(s, raw) == Some(id) <==>
      match raw
      case Malformed(_) => false
      case Qualified(x) => x == id
      case Bare(name) =>
        || (exists f :: CoreHolds(s.core, name, f) && id == FormulaId(CORE_TAP, f.name))
        || (CoreUnknown(s.core, name) && name in s.localNames && id == FormulaId(s.owner, name))
  {
    hide CoreLookup, CoreHolds, CoreUnknown;
    if raw.Bare? {
      CoreLookupMeaning(s.core, raw.name);
    }
  }

  /** The extractor's local names are those of the owner's document. */
  ghost predicate LocalNamesListed(s: Setting, r: Resolver) {
    && s.owner in r.catalogs
    && forall name | name in s.localNames :: HasFormula(r.catalogs[s.owner], FormulaId(s.owner, name))
  }

  /** So what is signed for a bare spelling is always canonical, and always found again. */
  lemma BareIsFound(s: Setting, r: Resolver, name: Name, id: FormulaId)
    requires SameSetting(s, r) && LocalNamesListed(s, r) && Identify(s, Bare(name)) == Some(id)
    ensures CanonicalIn(r, id) && MeansThis(r, s.owner, Bare(name), id)
  {
    hide CoreLookup, CoreHolds, CoreUnknown, WellBuilt, Identify, MeansThis;
    IdentifyInTerms(s, Bare(name), id);
    if f :| CoreHolds(s.core, name, f) && id == FormulaId(CORE_TAP, f.name) {
      HeldUnderItsName(s.core, name, f);
    } else {
      ListedIsCanonical(r, id);
    }
    SignedIsFound(s, r, Bare(name), id);
  }

  lemma HeldUnderItsName(core: Core, name: Name, f: CoreFormula)
    requires CoreHolds(core, name, f)
    ensures CoreHolds(core, f.name, f)
  {
  }

  lemma ListedIsCanonical(r: Resolver, id: FormulaId)
    requires WellBuilt(r) && id.tap in r.catalogs && HasFormula(r.catalogs[id.tap], id)
    ensures CanonicalIn(r, id)
  {
    hide IndexesFormulae, IndexesMappings;
    NoCoreDocument(r);
    assert Acceptable(r.catalogs, id.tap);
    var k :| 0 <= k < |r.catalogs[id.tap].formulae| && r.catalogs[id.tap].formulae[k].id == id;
    assert FormulaAt(r.catalogs, id.tap, k, r.catalogs[id.tap].formulae[k]);
    assert ListedIn(r.catalogs, id, r.catalogs[id.tap].formulae[k]);
    if id in r.mappings {
      KnownSource(r, id);
      SourceHasNoFormula(r.catalogs[id.tap], id);
    }
  }

  lemma SourceHasNoFormula(document: TapCatalog, id: FormulaId)
    requires ValidTapCatalog(document) && HasSource(document, id)
    ensures !HasFormula(document, id)
  {
  }

  /** The check of a signed dependency and the check of the requirement it becomes agree. */
  lemma ChecksAgree(d: Dependency, owner: TapId)
    ensures DependencyOk(d, owner) <==> ClosureCheck.RequirementOk(Plain(d.raw, d.id), owner)
  {
  }

  /** Where the extractor signs an identity, the resolver finds exactly that identity under the
      spelling if and only if the identity is canonical. */
  lemma SignedIsFound(s: Setting, r: Resolver, raw: Spelling, id: FormulaId)
    requires SameSetting(s, r) && Identify(s, raw) == Some(id)
    ensures MeansThis(r, s.owner, raw, id) <==> CanonicalIn(r, id)
    ensures Normalize(r, s.owner, raw).Found? && Normalize(r, s.owner, raw).id == id <==> CanonicalIn(r, id)
  {
    hide WellBuilt, Means, CanonicalIn, LookupExact, CoreLookup;
    SpellingFinds(r, s.owner, raw, id);
    CanonicalMeaning(r, id);
    if raw.Bare? {
      BareFinds(s, r, raw.name, id);
    }
  }

  /** A core alias spelled with its tap is signed as it is written, and never found as such. */
  lemma AliasIsNotFound(s: Setting, r: Resolver, name: Name)
    requires SameSetting(s, r) && name !in s.core.canonical
    ensures Identify(s, Qualified(FormulaId(CORE_TAP, name))) == Some(FormulaId(CORE_TAP, name))
    ensures !MeansThis(r, s.owner, Qualified(FormulaId(CORE_TAP, name)), FormulaId(CORE_TAP, name))
  {
    hide WellBuilt, MeansThis;
    SignedIsFound(s, r, Qualified(FormulaId(CORE_TAP, name)), FormulaId(CORE_TAP, name));
  }

  lemma SpellingFinds(r: Resolver, owner: TapId, raw: Spelling, id: FormulaId)
    requires WellBuilt(r)
    ensures MeansThis(r, owner, raw, id) <==> Normalize(r, owner, raw).Found? && Normalize(r, owner, raw).id == id
  {
    hide WellBuilt, Means, Normalize;
    forall source ensures Means(r, owner, raw, id, source) <==> Normalize(r, owner, raw) == Found(id, source) {
      NormalizeMeaning(r, owner, raw, id, source);
    }
    if Normalize(r, owner, raw).Found? && Normalize(r, owner, raw).id == id {
      assert Means(r, owner, raw, id, Normalize(r, owner, raw).source);
    }
  }

  lemma BareFinds(s: Setting, r: Resolver, name: Name, id: FormulaId)
    requires s.core == r.core && Identify(s, Bare(name)) == Some(id)
    ensures Normalize(r, s.owner, Bare(name)).Found? && Normalize(r, s.owner, Bare(name)).id == id <==>
      LookupExact(r, id).Found? && LookupExact(r, id).id == id
  {
    hide CoreLookup, FollowMap;
    if CoreLookup(s.core, name).CoreMatch? {
      LookupIdempotent(r, FormulaId(CORE_TAP, name));
    }
  }

  /** So a list the extractor has normalized resolves to the signed identities exactly when they
      are canonical. */
  lemma NormalizedIsFound(s: Setting, r: Resolver, raws: seq<Spelling>, list: seq<Dependency>)
    requires SameSetting(s, r) && Normalized(s, raws, list)
    ensures Leads(r, s.owner, RawsOf(list), IdsOf(list)) <==> forall d | d in list :: CanonicalIn(r, d.id)
  {
    hide Identify, SameSetting, MeansThis, CanonicalIn;
    forall d | d in list ensures MeansThis(r, s.owner, d.raw, d.id) <==> CanonicalIn(r, d.id) {
      NormalizedSigns(s, raws, list, d);
      SignedIsFound(s, r, d.raw, d.id);
    }
    if Leads(r, s.owner, RawsOf(list), IdsOf(list)) {
      forall d | d in list ensures CanonicalIn(r, d.id) {
        var k :| 0 <= k < |list| && list[k] == d;
        assert MeansThis(r, s.owner, RawsOf(list)[k], IdsOf(list)[k]);
      }
    }
    if forall d | d in list :: CanonicalIn(r, d.id) {
      forall k | 0 <= k < |list| ensures MeansThis(r, s.owner, RawsOf(list)[k], IdsOf(list)[k]) {
        assert list[k] in list;
      }
    }
  }

  lemma NormalizedSigns(s: Setting, raws: seq<Spelling>, list: seq<Dependency>, d: Dependency)
    requires Normalized(s, raws, list) && d in list
    ensures Identify(s, d.raw) == Some(d.id)
  {
    hide Identify;
    var mapped: seq<Dependency> :| IsMapped(s, raws, mapped) && Arranged(mapped, list, DependencyLe);
    SameMembers(mapped, list);
    assert d in mapped;
  }

  /** A converted Formula, resolved for a platform it was extracted for, never ends in a
      disagreement with what was signed, as long as the identity signed is canonical. */
  lemma NoMismatch(s: Setting, platforms: seq<Extracted>, e: Extracted, formula: Formula, q: Query, id: FormulaId,
                   k: nat)
    requires SameSetting(s, q.r) && id.tap == s.owner && !IsCore(id) && ListedIn(q.r.catalogs, id, formula)
    requires RoundTrips(s, platforms, q.platform, formula) && e in platforms && e.tag == BottleTag(q.platform)
    requires OpenedAt(q, id).Opened? && k < |OpenedAt(q, id).wanted| && QueryFault(q, SignedMismatch(id, k))
    ensures var signed := OpenedAt(q, id).wanted[k].signed;
      && signed.Some? && (exists raw :: raw in e.dependencies && Identify(s, raw) == signed)
      && !CanonicalIn(q.r, signed.value)
  {
    hide WellBuilt, Needed, Normalize, Choose, CanonicalIn, Identify, MeansThis, FollowMap, CoreLookup;
    var tag := BottleTag(q.platform);
    var selection := Choose(formula.variations, tag, formula.dependencies, formula.kegOnly);
    IndexIsListed(q.r, id, formula);
    OpenedIsListed(q, id, formula);
    var wanted := OpenedAt(q, id).wanted[k];
    var d := selection.dependencies[k];
    assert d in selection.dependencies;
    NormalizedSigns(s, e.dependencies, selection.dependencies, d);
    NormalizedSpells(s, e.dependencies, selection.dependencies, d);
    SignedIsFound(s, q.r, d.raw, d.id);
    SpellingFinds(q.r, s.owner, d.raw, d.id);
  }

  lemma NormalizedSpells(s: Setting, raws: seq<Spelling>, list: seq<Dependency>, d: Dependency)
    requires Normalized(s, raws, list) && d in list
    ensures d.raw in raws
  {
    hide Identify;
    var mapped: seq<Dependency> :| IsMapped(s, raws, mapped) && Arranged(mapped, list, DependencyLe);
    SameMembers(mapped, list);
    var i :| 0 <= i < |mapped| && mapped[i] == d;
    assert raws[i] == d.raw;
  }

  /** What an identity of a tap opens to is its listed Formula. */
  lemma OpenedIsListed(q: Query, id: FormulaId, formula: Formula)
    requires WellBuilt(q.r) && !IsCore(id) && id in q.r.formulae && q.r.formulae[id] == formula
    requires OpenedAt(q, id).Opened?
    ensures var selection := Choose(formula.variations, BottleTag(q.platform), formula.dependencies, formula.kegOnly);
      && selection.Selected? && |selection.dependencies| == |OpenedAt(q, id).wanted|
      && forall k | 0 <= k < |selection.dependencies| ::
           var w := OpenedAt(q, id).wanted[k];
           w.raw == selection.dependencies[k].raw && w.signed == Some(selection.dependencies[k].id)
  {
    hide WellBuilt, Choose, FollowMap;
  }
}
