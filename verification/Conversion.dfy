/** Turning what the extractor reports for each Linux architecture into one signed Formula with
    variations: internal/catalogextractor/raw.go, convertFormula and normalizeDependencies, and
    the part of internal/catalog/validate.go that then checks dependencies and variations. */
module Conversion {
  import opened Identity
  import opened Catalog
  import opened Wrappers
  import opened Sorting
  import opened TapCatalogs
  import opened Lookups
  import opened Canonical

  // ----- Dependencies -----

  /** The tap a Formula is extracted from, with the core snapshot its names are looked up in. */
  datatype Setting = Setting(core: Core, owner: TapId, localNames: set<Name>)

  /** The identity a spelling stands for in a tap, None when normalization fails. */
  function Identify(s: Setting, raw: Spelling): Option<FormulaId> {
    match raw
    case Malformed(_) => None
    case Qualified(id) => Some(id)
    case Bare(name) =>
      match CoreLookup(s.core, name)
      case CoreMatch(formula) => Some(FormulaId(CORE_TAP, formula.name))
      case CoreFailed(error) =>
        if error == NotFound && name in s.localNames then Some(FormulaId(s.owner, name)) else None
  }

  predicate DependencyLe(a: Dependency, b: Dependency) { IdLe(a.id, b.id) }

  /** `list` holds each spelling with its identity, sorted; no identity occurs twice. */
  ghost predicate Normalized(s: Setting, raws: seq<Spelling>, list: seq<Dependency>) {
    exists mapped :: IsMapped(s, raws, mapped) && Arranged(mapped, list, DependencyLe)
  }

  ghost predicate IsMapped(s: Setting, raws: seq<Spelling>, mapped: seq<Dependency>) {
    && |mapped| == |raws|
    && (forall k | 0 <= k < |raws| ::
          mapped[k].raw == raws[k] && Identify(s, raws[k]) == Some(mapped[k].id))
    && DistinctBy(mapped, IdOf)
  }

  function IdOf(d: Dependency): FormulaId { d.id }

  /** What makes normalization fail. */
  ghost predicate Unnormalizable(s: Setting, raws: seq<Spelling>) {
    || (exists k | 0 <= k < |raws| :: Identify(s, raws[k]).None?)
    || (exists i, j | 0 <= i < j < |raws| ::
          Identify(s, raws[i]) == Identify(s, raws[j]))
  }

  method NormalizeDependencies(s: Setting, raws: seq<Spelling>)
    returns (result: Option<seq<Dependency>>)
    ensures result.Some? ==> Normalized(s, raws, result.value)
    ensures result.None? ==> Unnormalizable(s, raws)
  {
    hide Identify;
    var dependencies: seq<Dependency> := [];
    var seen: set<FormulaId> := {};
    for k := 0 to |raws|
      invariant IsMapped(s, raws[..k], dependencies)
      invariant seen == set j | 0 <= j < k :: dependencies[j].id
    {
      var id := Identify(s, raws[k]);
      if id.None? {
        return None;
      }
      if id.value in seen {
        ghost var j :| 0 <= j < k && dependencies[j].id == id.value;
        assert raws[..k][j] == raws[j];
        assert Identify(s, raws[j]) == Identify(s, raws[k]);
        return None;
      }
      seen := seen + {id.value};
      dependencies := dependencies + [Dependency(raws[k], id.value)];
    }
    assert raws[..|raws|] == raws;
    DependencyLeOrder();
    SortArranges(dependencies, DependencyLe);
    return Some(Sort(dependencies, DependencyLe));
  }

  lemma DependencyLeOrder()
    ensures TotalPreorder(DependencyLe)
  {
    KeyOrder((d: Dependency) => Text(d.id), DependencyLe);
  }

  /** Normalization has one result. */
  lemma NormalizedOnce(s: Setting, raws: seq<Spelling>, a: seq<Dependency>, b: seq<Dependency>)
    requires Normalized(s, raws, a) && Normalized(s, raws, b)
    ensures a == b
  {
    hide Identify;
    var x: seq<Dependency> :| IsMapped(s, raws, x) && Arranged(x, a, DependencyLe);
    var y: seq<Dependency> :| IsMapped(s, raws, y) && Arranged(y, b, DependencyLe);
    forall k | 0 <= k < |raws| ensures x[k] == y[k] {
      assert Identify(s, raws[k]) == Some(x[k].id) && Identify(s, raws[k]) == Some(y[k].id);
    }
    assert x == y;
    DependencyLeOrder();
    forall d, e | d in x && e in x && DependencyLe(d, e) && DependencyLe(e, d) ensures d == e {
      IdLeAntisym(d.id, e.id);
      DistinctKeys(x, IdOf, d, e);
    }
    SameMembers(x, a);
    SortedUnique(a, b, DependencyLe);
  }

  // ----- One Formula -----

  /** What the extractor reports for one architecture. */
  datatype Extracted = Extracted(
    tag: string, name: Name, fullName: string, stableVersion: string, revision: int, versionScheme: int,
    disabled: bool, license: string, kegOnly: bool, dependencies: seq<Spelling>)

  /** The fields that may not differ between architectures. */
  predicate SameIdentity(a: Extracted, b: Extracted) {
    && a.name == b.name && a.fullName == b.fullName && a.stableVersion == b.stableVersion && a.revision == b.revision
    && a.versionScheme == b.versionScheme && a.disabled == b.disabled && a.license == b.license
  }

  const X86 := BottleTag(Amd64)
  const ARM := BottleTag(Arm64)

  datatype Reason =
    | UnsupportedTag(k: nat) | RepeatedTag(k: nat) | NoPlatform | IdentityVaries | WrongFullName | RestFails
    | BadDependencies(tag: string)

  datatype Converted = Converted(formula: Formula) | NotConverted(reason: Reason)

  ghost predicate ByTag(platforms: seq<Extracted>, byTag: map<string, Extracted>) {
    && (forall k | 0 <= k < |platforms| :: platforms[k].tag in byTag && byTag[platforms[k].tag] == platforms[k])
    && (forall tag | tag in byTag :: (tag == X86 || tag == ARM) && byTag[tag].tag == tag && byTag[tag] in platforms)
  }

  method IndexPlatforms(platforms: seq<Extracted>) returns (reason: Option<Reason>, byTag: map<string, Extracted>)
    ensures reason.None? ==> ByTag(platforms, byTag)
    ensures reason.Some? ==> ReasonHoldsEarly(platforms, reason.value)
  {
    hide ByTag;
    byTag := map[];
    assert platforms[..0] == [];
    NoTags();
    for k := 0 to |platforms|
      invariant ByTag(platforms[..k], byTag)
    {
      var value := platforms[k];
      ByTagNames(platforms[..k], byTag);
      if value.tag != X86 && value.tag != ARM {
        return Some(UnsupportedTag(k)), byTag;
      }
      if value.tag in byTag {
        assert byTag[value.tag] in platforms[..k];
        return Some(RepeatedTag(k)), byTag;
      }
      assert platforms[..k + 1] == platforms[..k] + [value];
      ByTagSnoc(platforms[..k], byTag, value);
      byTag := byTag[value.tag := value];
    }
    assert platforms[..|platforms|] == platforms;
    return None, byTag;
  }

  lemma NoTags()
    ensures ByTag([], map[])
  {
  }

  lemma ByTagNames(platforms: seq<Extracted>, byTag: map<string, Extracted>)
    requires ByTag(platforms, byTag)
    ensures forall tag | tag in byTag :: byTag[tag] in platforms && byTag[tag].tag == tag
  {
  }

  lemma ByTagSnoc(platforms: seq<Extracted>, byTag: map<string, Extracted>, value: Extracted)
    requires ByTag(platforms, byTag) && value.tag !in byTag && (value.tag == X86 || value.tag == ARM)
    ensures ByTag(platforms + [value], byTag[value.tag := value])
  {
  }

  ghost predicate ReasonHoldsEarly(platforms: seq<Extracted>, reason: Reason) {
    match reason
    case UnsupportedTag(k) => k < |platforms| && platforms[k].tag != X86 && platforms[k].tag != ARM
    case RepeatedTag(k) => k < |platforms| && exists e :: e in platforms[..k] && e.tag == platforms[k].tag
    case _ => false
  }

  function Base(byTag: map<string, Extracted>): Extracted
    requires X86 in byTag || ARM in byTag
  {
    if X86 in byTag then byTag[X86] else byTag[ARM]
  }

  function Shell(s: Setting, base: Extracted, bottle: Option<Bottle>): Formula {
    Formula(FormulaId(s.owner, base.name), base.name, base.fullName, base.stableVersion, base.revision,
            base.versionScheme, base.license, base.disabled, base.kegOnly, [], [], bottle)
  }

  /** The shell with the dependencies and variations of a Formula. */
  function Filled(shell: Formula, formula: Formula): Formula {
    shell.(dependencies := formula.dependencies, variations := formula.variations)
  }

  /** convertFormula. `rest` is what the bottle, archive and versioned-name merges give, None
      when one of them fails. */
  method ConvertFormula(s: Setting, platforms: seq<Extracted>, rest: Option<Option<Bottle>>) returns (result: Converted)
    ensures result.NotConverted? ==> ReasonHolds(s, platforms, rest, result.reason)
    ensures result.Converted? ==>
      forall platform :: RoundTrips(s, platforms, platform, result.formula)
    ensures result.Converted? ==> FromPlatforms(s, platforms, result.formula)
  {
    hide Normalized, RoundTrips, FromPlatforms, Unnormalizable, ByTag;
    var early, byTag := IndexPlatforms(platforms);
    if early.Some? {
      return NotConverted(early.value);
    }
    TagsOf(platforms, byTag);
    if X86 !in byTag && ARM !in byTag {
      return NotConverted(NoPlatform);
    }
    var base := Base(byTag);
    if X86 in byTag && ARM in byTag && !SameIdentity(byTag[X86], byTag[ARM]) {
      return NotConverted(IdentityVaries);
    }
    if base.fullName != Text(FormulaId(s.owner, base.name)) {
      return NotConverted(WrongFullName);
    }
    var baseDependencies := NormalizeDependencies(s, base.dependencies);
    if baseDependencies.None? {
      return NotConverted(BadDependencies(base.tag));
    }
    if rest.None? {
      return NotConverted(RestFails);
    }
    var formula := Shell(s, base, rest.value).(dependencies := baseDependencies.value);
    if X86 !in byTag {
      formula := formula.(variations := formula.variations + [Absence(X86)]);
    }
    if ARM !in byTag {
      formula := formula.(variations := formula.variations + [Absence(ARM)]);
    }
    if X86 in byTag && ARM in byTag {
      var armDependencies := NormalizeDependencies(s, byTag[ARM].dependencies);
      if armDependencies.None? {
        return NotConverted(BadDependencies(ARM));
      }
      var varying := Varying(baseDependencies.value, armDependencies.value, byTag[X86].kegOnly, byTag[ARM].kegOnly);
      formula := formula.(variations := varying);
      BothRoundTrip(s, platforms, byTag, formula, armDependencies.value);
      FromBoth(s, platforms, byTag, formula, armDependencies.value);
    } else {
      OneRoundTrips(s, platforms, byTag, formula);
      FromOne(s, platforms, byTag, formula);
    }
    return Converted(formula);
  }

  function Absence(tag: string): Variation { Variation(tag, true, [], false, false, false) }

  /** The arm64 variation, if anything varies. */
  function Varying(x86: seq<Dependency>, arm: seq<Dependency>, x86KegOnly: bool, armKegOnly: bool): seq<Variation> {
    if x86 == arm && x86KegOnly == armKegOnly then []
    else [Variation(ARM, false, if x86 != arm then arm else [], x86 != arm, armKegOnly, x86KegOnly != armKegOnly)]
  }

  ghost predicate ReasonHolds(s: Setting, platforms: seq<Extracted>, rest: Option<Option<Bottle>>, reason: Reason) {
    match reason
    case UnsupportedTag(k) => k < |platforms| && platforms[k].tag != X86 && platforms[k].tag != ARM
    case RepeatedTag(k) => k < |platforms| && exists e :: e in platforms[..k] && e.tag == platforms[k].tag
    case NoPlatform => forall e | e in platforms :: e.tag != X86 && e.tag != ARM
    case IdentityVaries => exists a, b :: a in platforms && b in platforms && !SameIdentity(a, b)
    case WrongFullName => exists e :: e in platforms && e.fullName != Text(FormulaId(s.owner, e.name))
    case RestFails => rest.None?
    case BadDependencies(tag) =>
      exists e :: e in platforms && e.tag == tag && Unnormalizable(s, e.dependencies)
  }

  /** Selecting a platform gives back exactly what was extracted for it, with its dependencies
      normalized; a platform that was not extracted is refused. */
  ghost predicate RoundTrips(s: Setting, platforms: seq<Extracted>, platform: Platform, formula: Formula) {
    var tag := BottleTag(platform);
    var selection := Choose(formula.variations, tag, formula.dependencies, formula.kegOnly);
    && (forall e | e in platforms && e.tag == tag ::
          && selection.Selected? && selection.kegOnly == e.kegOnly
          && Normalized(s, e.dependencies, selection.dependencies)
          && formula.name == e.name && formula.fullName == e.fullName && formula.stableVersion == e.stableVersion
          && formula.revision == e.revision && formula.versionScheme == e.versionScheme
          && formula.disabled == e.disabled && formula.license == e.license)
    && ((forall e | e in platforms :: e.tag != tag) ==> selection.Unavailable?)
  }

  lemma TagsOf(platforms: seq<Extracted>, byTag: map<string, Extracted>)
    requires ByTag(platforms, byTag)
    ensures forall e | e in platforms :: e.tag in byTag && byTag[e.tag] == e
    ensures forall tag | tag in byTag :: byTag[tag] in platforms && byTag[tag].tag == tag
    ensures X86 != ARM
  {
    assert X86[0] != ARM[0];
  }

  lemma ChooseOne(variation: Variation, tag: string, dependencies: seq<Dependency>, kegOnly: bool)
    ensures Choose([variation], tag, dependencies, kegOnly) ==
      if variation.tag != tag then Selected(dependencies, kegOnly)
      else if variation.unavailable then Unavailable
      else Selected(if variation.overridesDependencies then variation.dependencies else dependencies,
                    if variation.overridesKegOnly then variation.kegOnly else kegOnly)
  {
    assert [variation][1..] == [];
  }

  lemma BothRoundTrip(s: Setting, platforms: seq<Extracted>, byTag: map<string, Extracted>, formula: Formula,
                      arm: seq<Dependency>)
    requires ByTag(platforms, byTag) && X86 in byTag && ARM in byTag && SameIdentity(byTag[X86], byTag[ARM])
    requires Normalized(s, byTag[X86].dependencies, formula.dependencies) && Normalized(s, byTag[ARM].dependencies, arm)
    requires formula == Filled(Shell(s, byTag[X86], formula.bottle), formula)
    requires formula.variations == Varying(formula.dependencies, arm, byTag[X86].kegOnly, byTag[ARM].kegOnly)
    ensures forall platform :: RoundTrips(s, platforms, platform, formula)
  {
    hide Normalized;
    TagsOf(platforms, byTag);
    forall platform ensures RoundTrips(s, platforms, platform, formula) {
      var tag := BottleTag(platform);
      assert tag in byTag && byTag[tag] in platforms;
      if formula.variations != [] {
        ChooseOne(formula.variations[0], tag, formula.dependencies, formula.kegOnly);
      }
    }
  }

  lemma OneRoundTrips(s: Setting, platforms: seq<Extracted>, byTag: map<string, Extracted>, formula: Formula)
    requires ByTag(platforms, byTag) && (X86 in byTag || ARM in byTag) && !(X86 in byTag && ARM in byTag)
    requires Normalized(s, Base(byTag).dependencies, formula.dependencies)
    requires formula == Filled(Shell(s, Base(byTag), formula.bottle), formula)
    requires formula.variations == [Absence(if X86 in byTag then ARM else X86)]
    ensures forall platform :: RoundTrips(s, platforms, platform, formula)
  {
    hide Normalized;
    TagsOf(platforms, byTag);
    forall platform ensures RoundTrips(s, platforms, platform, formula) {
      ChooseOne(formula.variations[0], BottleTag(platform), formula.dependencies, formula.kegOnly);
      if BottleTag(platform) in byTag {
        assert byTag[BottleTag(platform)] in platforms;
      }
    }
  }

  // ----- Does the result pass the catalog's own check? -----

  /** validateDependencies, as far as identities go. */
  predicate DependencyOk(d: Dependency, owner: TapId) {
    match d.raw
    case Bare(name) => name == d.id.name && (d.id.tap == CORE_TAP || d.id.tap == owner)
    case Qualified(id) => id == d.id
    case Malformed(_) => false
  }

  ghost predicate DependenciesOk(list: seq<Dependency>, owner: TapId) {
    (forall d | d in list :: DependencyOk(d, owner)) && DistinctBy(list, IdOf)
  }

  predicate VariationOk(v: Variation) {
    && (v.tag == X86 || v.tag == ARM)
    && !(v.unavailable && (v.dependencies != [] || v.overridesDependencies || v.kegOnly || v.overridesKegOnly))
    && (v.dependencies != [] ==> v.overridesDependencies)
    && (v.kegOnly ==> v.overridesKegOnly)
  }

  /** The dependency and variation checks of a signed Formula. */
  ghost predicate FormulaOk(formula: Formula, owner: TapId) {
    && DependenciesOk(formula.dependencies, owner)
    && (forall k | 0 <= k < |formula.variations| ::
          VariationOk(formula.variations[k]) && DependenciesOk(formula.variations[k].dependencies, owner))
    && (forall i, j | 0 <= i < j < |formula.variations| :: formula.variations[i].tag != formula.variations[j].tag)
  }

  /** A bare spelling that core knows as another name for one of its Formulae. */
  predicate OtherCoreName(core: Core, raw: Spelling) {
    raw.Bare? && CoreLookup(core, raw.name).CoreMatch? && CoreLookup(core, raw.name).formula.name != raw.name
  }

  /** The two families a caller can recognize beforehand: an architecture that spells a core
      dependency by another name, and a Formula that is keg-only on both architectures while
      its normalized dependencies differ. */
  ghost predicate WillBeRefused(s: Setting, platforms: seq<Extracted>) {
    || (exists e, k :: e in platforms && 0 <= k < |e.dependencies| && OtherCoreName(s.core, e.dependencies[k]))
    || (exists a, b :: a in platforms && b in platforms && a.kegOnly && b.kegOnly && DependenciesDiffer(s, a, b))
  }

  ghost predicate DependenciesDiffer(s: Setting, a: Extracted, b: Extracted) {
    exists x, y :: Normalized(s, a.dependencies, x) && Normalized(s, b.dependencies, y) && x != y
  }

  /** The converted Formula passes the catalog's check exactly outside these families. */
  ghost predicate FromPlatforms(s: Setting, platforms: seq<Extracted>, formula: Formula) {
    FormulaOk(formula, s.owner) <==> !WillBeRefused(s, platforms)
  }

  lemma NormalizedOk(s: Setting, raws: seq<Spelling>, list: seq<Dependency>)
    requires Normalized(s, raws, list)
    ensures DistinctBy(list, IdOf)
    ensures DependenciesOk(list, s.owner) <==> forall k | 0 <= k < |raws| :: !OtherCoreName(s.core, raws[k])
  {
    hide Identify, CoreLookup;
    var mapped: seq<Dependency> :| IsMapped(s, raws, mapped) && Arranged(mapped, list, DependencyLe);
    SameMembers(mapped, list);
    DistinctPermutes(mapped, list, IdOf);
    forall k | 0 <= k < |raws| ensures DependencyOk(mapped[k], s.owner) <==> !OtherCoreName(s.core, raws[k]) {
      IdentifyMeaning(s, raws[k], mapped[k]);
    }
    forall d | d in list ensures exists k | 0 <= k < |mapped| :: mapped[k] == d {
      assert d in mapped;
    }
    forall k | 0 <= k < |mapped| ensures mapped[k] in list {
      assert mapped[k] in mapped;
    }
  }

  lemma IdentifyMeaning(s: Setting, raw: Spelling, d: Dependency)
    requires d.raw == raw && Identify(s, raw) == Some(d.id)
    ensures DependencyOk(d, s.owner) <==> !OtherCoreName(s.core, raw)
  {
    hide CoreLookup;
  }

  lemma NormalizedUnique(s: Setting, raws: seq<Spelling>, a: seq<Dependency>)
    requires Normalized(s, raws, a)
    ensures forall b | Normalized(s, raws, b) :: a == b
  {
    hide Normalized;
    forall b | Normalized(s, raws, b) ensures a == b {
      NormalizedOnce(s, raws, a, b);
    }
  }

  lemma FromBoth(s: Setting, platforms: seq<Extracted>, byTag: map<string, Extracted>, formula: Formula,
                 arm: seq<Dependency>)
    requires ByTag(platforms, byTag) && X86 in byTag && ARM in byTag
    requires Normalized(s, byTag[X86].dependencies, formula.dependencies) && Normalized(s, byTag[ARM].dependencies, arm)
    requires formula.variations == Varying(formula.dependencies, arm, byTag[X86].kegOnly, byTag[ARM].kegOnly)
    ensures FromPlatforms(s, platforms, formula)
  {
    hide Normalized, ByTag, DependenciesOk, OtherCoreName;
    TagsOf(platforms, byTag);
    var x, a := byTag[X86], byTag[ARM];
    OnlyTwo(platforms, byTag);
    NormalizedOk(s, x.dependencies, formula.dependencies);
    NormalizedOk(s, a.dependencies, arm);
    NormalizedUnique(s, x.dependencies, formula.dependencies);
    NormalizedUnique(s, a.dependencies, arm);
    NoneOk(s.owner);
    assert DependenciesDiffer(s, x, a) <==> formula.dependencies != arm;
    assert DependenciesDiffer(s, a, x) <==> formula.dependencies != arm;
    assert !DependenciesDiffer(s, x, x) && !DependenciesDiffer(s, a, a);
    if formula.variations != [] {
      var v := formula.variations[0];
      assert FormulaOk(formula, s.owner) <==>
        DependenciesOk(formula.dependencies, s.owner) && VariationOk(v) && DependenciesOk(v.dependencies, s.owner);
    }
    var bad := x.kegOnly && a.kegOnly && formula.dependencies != arm;
    assert FormulaOk(formula, s.owner) <==>
      DependenciesOk(formula.dependencies, s.owner) && DependenciesOk(arm, s.owner) && !bad;
  }

  lemma OnlyTwo(platforms: seq<Extracted>, byTag: map<string, Extracted>)
    requires ByTag(platforms, byTag) && X86 in byTag && ARM in byTag
    ensures forall e :: e in platforms <==> e == byTag[X86] || e == byTag[ARM]
  {
  }

  lemma OnlyOne(platforms: seq<Extracted>, byTag: map<string, Extracted>)
    requires ByTag(platforms, byTag) && (X86 in byTag || ARM in byTag) && !(X86 in byTag && ARM in byTag)
    ensures forall e :: e in platforms <==> e == Base(byTag)
  {
  }

  lemma NoneOk(owner: TapId)
    ensures DependenciesOk([], owner)
  {
  }

  lemma FromOne(s: Setting, platforms: seq<Extracted>, byTag: map<string, Extracted>, formula: Formula)
    requires ByTag(platforms, byTag) && (X86 in byTag || ARM in byTag) && !(X86 in byTag && ARM in byTag)
    requires Normalized(s, Base(byTag).dependencies, formula.dependencies)
    requires formula.variations == [Absence(if X86 in byTag then ARM else X86)]
    ensures FromPlatforms(s, platforms, formula)
  {
    hide Normalized, ByTag, DependenciesOk, OtherCoreName;
    OnlyOne(platforms, byTag);
    var base := Base(byTag);
    NormalizedOk(s, base.dependencies, formula.dependencies);
    NormalizedUnique(s, base.dependencies, formula.dependencies);
    NoneOk(s.owner);
    assert !DependenciesDiffer(s, base, base);
  }

  /** Conversion can succeed on a Formula that the catalog's check then refuses: keg-only on both
      architectures, with one dependency on arm64 only. */
  lemma KegOnlyOnBothRefused(s: Setting, name: Name, dependency: FormulaId, bottle: Option<Bottle>)
    ensures
      var x86 := Extracted(X86, name, Text(FormulaId(s.owner, name)), "1", 0, 0, false, "", true, []);
      var arm := x86.(tag := ARM, dependencies := [Qualified(dependency)]);
      && WillBeRefused(s, [x86, arm])
      && forall reason :: !ReasonHolds(s, [x86, arm], Some(bottle), reason)
  {
    hide DistinctBy;
    var x86 := Extracted(X86, name, Text(FormulaId(s.owner, name)), "1", 0, 0, false, "", true, []);
    var arm := x86.(tag := ARM, dependencies := [Qualified(dependency)]);
    assert X86[0] != ARM[0];
    var none: seq<Dependency> := [];
    var one := [Dependency(Qualified(dependency), dependency)];
    assert Normalized(s, [], none) by {
      ShortIsDistinct(none);
      assert IsMapped(s, [], none);
    }
    assert Normalized(s, arm.dependencies, one) by {
      ShortIsDistinct(one);
      assert IsMapped(s, arm.dependencies, one);
    }
    assert DependenciesDiffer(s, x86, arm);
    assert x86 in [x86, arm] && arm in [x86, arm];
    assert [x86, arm][..1] == [x86] && [x86, arm][..0] == [];
  }

  lemma ShortIsDistinct(list: seq<Dependency>)
    requires |list| <= 1
    ensures DistinctBy(list, IdOf)
  {
  }
}
