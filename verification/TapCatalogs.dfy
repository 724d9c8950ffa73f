/** The core snapshot, the tap catalog documents, and the lookups the resolver makes in
    them: internal/catalogresolver/resolver.go, New to nodeAndDependencies, and
    internal/homebrew/metadata/catalog.go, Lookup. */
module TapCatalogs {
  import opened Identity
  import opened Catalog
  import opened Wrappers
  import opened Mapping

  // ----- Core -----

  datatype CoreTag = CoreTag(dependencies: seq<Spelling>, kegOnly: bool)

  /** `tags` holds the bottle tags the Formula can be installed for. */
  datatype CoreFormula = CoreFormula(
    name: Name, fullName: string, stableVersion: string, revision: int, versionScheme: int,
    license: string, bottleRebuild: int, disabled: bool, hasBottle: bool, tags: map<string, CoreTag>)

  /** Where an alias, an old name or a migration leads. */
  datatype CoreTarget = InCore(canonical: Name) | OutOfCore

  datatype CoreData = CoreData(
    canonical: map<Name, CoreFormula>,
    aliases: map<Name, Name>, oldNames: map<Name, Name>, migrations: map<Name, CoreTarget>)

  type Core = c: CoreData | forall n | n in c.canonical :: c.canonical[n].name == n
    witness CoreData(map[], map[], map[], map[])

  datatype LookupError =
    | NotFound | CoreRefused | BadSpelling | MappingLoops | NotCanonical | MissingTap(tap: TapId) | Absent

  datatype CoreAnswer = CoreMatch(formula: CoreFormula) | CoreFailed(error: LookupError)

  function CoreMatchOf(core: Core, canonical: Name): CoreAnswer {
    if canonical !in core.canonical then CoreFailed(NotFound)
    else if core.canonical[canonical].disabled || !core.canonical[canonical].hasBottle then CoreFailed(CoreRefused)
    else CoreMatch(core.canonical[canonical])
  }

  function CoreLookup(core: Core, name: Name): CoreAnswer {
    if name in core.canonical then CoreMatchOf(core, core.canonical[name].name)
    else if '@' in name then CoreFailed(CoreRefused)
    else if name in core.aliases then CoreMatchOf(core, core.aliases[name])
    else if name in core.oldNames then CoreMatchOf(core, core.oldNames[name])
    else if name in core.migrations then
      match core.migrations[name]
      case OutOfCore => CoreFailed(CoreRefused)
      case InCore(canonical) => CoreMatchOf(core, canonical)
    else CoreFailed(NotFound)
  }

  // ----- Tap documents -----

  datatype Dependency = Dependency(raw: Spelling, id: FormulaId)

  datatype Variation = Variation(
    tag: string, unavailable: bool,
    dependencies: seq<Dependency>, overridesDependencies: bool,
    kegOnly: bool, overridesKegOnly: bool)

  datatype Bottle = Bottle(rebuild: int, tags: set<string>)

  datatype Formula = Formula(
    id: FormulaId, name: Name, fullName: string, stableVersion: string, revision: int, versionScheme: int,
    license: string, disabled: bool, kegOnly: bool,
    dependencies: seq<Dependency>, variations: seq<Variation>, bottle: Option<Bottle>)

  datatype ScopedMapping = ScopedMapping(from: FormulaId, to: FormulaId)

  datatype TapCatalog = TapCatalog(
    tap: TapId, formulae: seq<Formula>,
    aliases: seq<ScopedMapping>, renames: seq<ScopedMapping>, migrations: seq<ScopedMapping>)

  function AllMappings(document: TapCatalog): seq<ScopedMapping> {
    document.aliases + document.renames + document.migrations
  }

  predicate HasFormula(document: TapCatalog, id: FormulaId) {
    exists k | 0 <= k < |document.formulae| :: document.formulae[k].id == id
  }

  /** ValidateTapCatalog, as far as identities and mappings go. */
  predicate ValidTapCatalog(document: TapCatalog) {
    var mappings := AllMappings(document);
    && document.tap != CORE_TAP
    && (forall k | 0 <= k < |document.formulae| :: document.formulae[k].id.tap == document.tap)
    && (forall i, j | 0 <= i < j < |document.formulae| :: document.formulae[i].id != document.formulae[j].id)
    && (forall k | 0 <= k < |mappings| ::
          && mappings[k].from.tap == document.tap
          && mappings[k].from != mappings[k].to
          && !HasFormula(document, mappings[k].from)
          && (mappings[k].to.tap == document.tap ==> HasFormula(document, mappings[k].to)))
    && (forall k | 0 <= k < |document.aliases| :: document.aliases[k].to.tap == document.tap)
    && (forall k | 0 <= k < |document.renames| :: document.renames[k].to.tap == document.tap)
    && (forall i, j | 0 <= i < j < |mappings| :: mappings[i].from != mappings[j].from)
  }

  // ----- The resolver -----

  /** `authorized` is the release-bound prebuilt-archive policy. */
  datatype Resolver = Resolver(
    core: Core, catalogs: map<TapId, TapCatalog>,
    formulae: map<FormulaId, Formula>, mappings: Mappings,
    authorized: (Formula, Platform) -> bool)

  datatype NewError =
    | TooManyCatalogs | CoreReplaced | InvalidCatalog(tap: TapId) | WrongTap(tap: TapId)
    | DuplicateFormula(id: FormulaId) | DuplicateSource(id: FormulaId)

  datatype NewResult = Built(resolver: Resolver) | Refused(error: NewError)

  ghost predicate Acceptable(catalogs: map<TapId, TapCatalog>, tap: TapId)
    requires tap in catalogs
  {
    tap != CORE_TAP && ValidTapCatalog(catalogs[tap]) && catalogs[tap].tap == tap
  }

  ghost predicate FormulaAt(catalogs: map<TapId, TapCatalog>, tap: TapId, k: int, f: Formula) {
    tap in catalogs && 0 <= k < |catalogs[tap].formulae| && catalogs[tap].formulae[k] == f
  }

  ghost predicate MappingAt(catalogs: map<TapId, TapCatalog>, tap: TapId, k: int, m: ScopedMapping) {
    tap in catalogs && 0 <= k < |AllMappings(catalogs[tap])| && AllMappings(catalogs[tap])[k] == m
  }

  /** The Formula index holds exactly the Formulae of the documents of `taps`. */
  ghost predicate IndexesFormulae(catalogs: map<TapId, TapCatalog>, taps: set<TapId>,
                                  formulae: map<FormulaId, Formula>) {
    && (forall tap, k, f | tap in taps && FormulaAt(catalogs, tap, k, f) :: f.id in formulae && formulae[f.id] == f)
    && (forall id | id in formulae ::
          formulae[id].id == id && exists tap, k | tap in taps :: FormulaAt(catalogs, tap, k, formulae[id]))
  }

  /** The mapping index holds exactly the mappings of the documents of `taps`. */
  ghost predicate IndexesMappings(catalogs: map<TapId, TapCatalog>, taps: set<TapId>, mappings: Mappings) {
    && (forall tap, k, m | tap in taps && MappingAt(catalogs, tap, k, m) ::
          m.from in mappings && mappings[m.from] == m.to)
    && (forall id | id in mappings ::
          exists tap, k | tap in taps :: MappingAt(catalogs, tap, k, ScopedMapping(id, mappings[id])))
  }

  ghost predicate WellBuilt(r: Resolver) {
    && |r.catalogs| <= MAX_TAPS
    && (forall tap | tap in r.catalogs :: Acceptable(r.catalogs, tap))
    && IndexesFormulae(r.catalogs, r.catalogs.Keys, r.formulae)
    && IndexesMappings(r.catalogs, r.catalogs.Keys, r.mappings)
  }

  /** What each refusal of New says about the documents. */
  ghost predicate Reason(catalogs: map<TapId, TapCatalog>, error: NewError) {
    match error
    case TooManyCatalogs => |catalogs| > MAX_TAPS
    case CoreReplaced => CORE_TAP in catalogs
    case InvalidCatalog(tap) => tap in catalogs && !ValidTapCatalog(catalogs[tap])
    case WrongTap(tap) => tap in catalogs && catalogs[tap].tap != tap
    case DuplicateFormula(id) =>
      exists t, k, f, t', k', f' | (t, k) != (t', k') ::
        FormulaAt(catalogs, t, k, f) && FormulaAt(catalogs, t', k', f') && f.id == f'.id == id
    case DuplicateSource(id) =>
      exists t, k, m, t', k', m' | (t, k) != (t', k') ::
        MappingAt(catalogs, t, k, m) && MappingAt(catalogs, t', k', m') && m.from == m'.from == id
  }

  method AddFormulae(list: seq<Formula>, formulae: map<FormulaId, Formula>)
    returns (duplicate: Option<nat>, formulae': map<FormulaId, Formula>)
    ensures duplicate.Some? ==> duplicate.value < |list|
    ensures duplicate.Some? ==>
      || list[duplicate.value].id in formulae
      || exists k | 0 <= k < duplicate.value :: list[k].id == list[duplicate.value].id
    ensures duplicate.None? ==> formulae'.Keys == formulae.Keys + set k | 0 <= k < |list| :: list[k].id
    ensures duplicate.None? ==> forall id | id in formulae :: formulae'[id] == formulae[id]
    ensures duplicate.None? ==>
      forall k | 0 <= k < |list| :: list[k].id !in formulae && formulae'[list[k].id] == list[k]
  {
    formulae' := formulae;
    var i := 0;
    while i < |list|
      invariant 0 <= i <= |list|
      invariant formulae'.Keys == formulae.Keys + set k | 0 <= k < i :: list[k].id
      invariant forall id | id in formulae :: formulae'[id] == formulae[id]
      invariant forall k | 0 <= k < i :: list[k].id !in formulae && formulae'[list[k].id] == list[k]
    {
      if list[i].id in formulae' {
        return Some(i), formulae';
      }
      formulae' := formulae'[list[i].id := list[i]];
      i := i + 1;
    }
    return None, formulae';
  }

  method AddMappings(list: seq<ScopedMapping>, mappings: Mappings)
    returns (duplicate: Option<nat>, mappings': Mappings)
    ensures duplicate.Some? ==> duplicate.value < |list|
    ensures duplicate.Some? ==>
      || list[duplicate.value].from in mappings
      || exists k | 0 <= k < duplicate.value :: list[k].from == list[duplicate.value].from
    ensures duplicate.None? ==> mappings'.Keys == mappings.Keys + set k | 0 <= k < |list| :: list[k].from
    ensures duplicate.None? ==> forall id | id in mappings :: mappings'[id] == mappings[id]
    ensures duplicate.None? ==>
      forall k | 0 <= k < |list| :: list[k].from !in mappings && mappings'[list[k].from] == list[k].to
  {
    mappings' := mappings;
    var i := 0;
    while i < |list|
      invariant 0 <= i <= |list|
      invariant mappings'.Keys == mappings.Keys + set k | 0 <= k < i :: list[k].from
      invariant forall id | id in mappings :: mappings'[id] == mappings[id]
      invariant forall k | 0 <= k < i :: list[k].from !in mappings && mappings'[list[k].from] == list[k].to
    {
      if list[i].from in mappings' {
        return Some(i), mappings';
      }
      mappings' := mappings'[list[i].from := list[i].to];
      i := i + 1;
    }
    return None, mappings';
  }

  lemma IndexMoreFormulae(catalogs: map<TapId, TapCatalog>, taps: set<TapId>, tap: TapId,
                          formulae: map<FormulaId, Formula>, formulae': map<FormulaId, Formula>)
    requires IndexesFormulae(catalogs, taps, formulae) && tap in catalogs
    requires var list := catalogs[tap].formulae;
      && formulae'.Keys == formulae.Keys + (set k | 0 <= k < |list| :: list[k].id)
      && (forall id | id in formulae :: formulae'[id] == formulae[id])
      && (forall k | 0 <= k < |list| :: list[k].id !in formulae && formulae'[list[k].id] == list[k])
    ensures IndexesFormulae(catalogs, taps + {tap}, formulae')
  {
    var list := catalogs[tap].formulae;
    forall id | id in formulae'
      ensures formulae'[id].id == id && exists t, k | t in taps + {tap} :: FormulaAt(catalogs, t, k, formulae'[id])
    {
      if id in formulae {
        var t, k :| t in taps && FormulaAt(catalogs, t, k, formulae[id]);
        assert FormulaAt(catalogs, t, k, formulae'[id]);
      } else {
        var k :| 0 <= k < |list| && list[k].id == id;
        assert FormulaAt(catalogs, tap, k, formulae'[id]);
      }
    }
  }

  lemma IndexMoreMappings(catalogs: map<TapId, TapCatalog>, taps: set<TapId>, tap: TapId,
                          mappings: Mappings, mappings': Mappings)
    requires IndexesMappings(catalogs, taps, mappings) && tap in catalogs
    requires var list := AllMappings(catalogs[tap]);
      && mappings'.Keys == mappings.Keys + (set k | 0 <= k < |list| :: list[k].from)
      && (forall id | id in mappings :: mappings'[id] == mappings[id])
      && (forall k | 0 <= k < |list| :: list[k].from !in mappings && mappings'[list[k].from] == list[k].to)
    ensures IndexesMappings(catalogs, taps + {tap}, mappings')
  {
    var list := AllMappings(catalogs[tap]);
    forall id | id in mappings'
      ensures exists t, k | t in taps + {tap} :: MappingAt(catalogs, t, k, ScopedMapping(id, mappings'[id]))
    {
      if id in mappings {
        var t, k :| t in taps && MappingAt(catalogs, t, k, ScopedMapping(id, mappings[id]));
        assert MappingAt(catalogs, t, k, ScopedMapping(id, mappings'[id]));
      } else {
        var k :| 0 <= k < |list| && list[k].from == id;
        assert list[k] == ScopedMapping(id, mappings'[id]);
        assert MappingAt(catalogs, tap, k, ScopedMapping(id, mappings'[id]));
      }
    }
  }

  lemma FormulaTwice(catalogs: map<TapId, TapCatalog>, taps: set<TapId>, tap: TapId,
                     formulae: map<FormulaId, Formula>, i: nat)
    requires IndexesFormulae(catalogs, taps, formulae) && tap in catalogs && tap !in taps
    requires i < |catalogs[tap].formulae|
    requires var list := catalogs[tap].formulae;
      list[i].id in formulae || exists k | 0 <= k < i :: list[k].id == list[i].id
    ensures Reason(catalogs, DuplicateFormula(catalogs[tap].formulae[i].id))
  {
    var list := catalogs[tap].formulae;
    assert FormulaAt(catalogs, tap, i, list[i]);
    if list[i].id in formulae {
      var t, k :| t in taps && FormulaAt(catalogs, t, k, formulae[list[i].id]);
      assert (t, k) != (tap, i);
    } else {
      var k :| 0 <= k < i && list[k].id == list[i].id;
      assert FormulaAt(catalogs, tap, k, list[k]);
      assert (tap, k) != (tap, i);
    }
  }

  lemma SourceTwice(catalogs: map<TapId, TapCatalog>, taps: set<TapId>, tap: TapId, mappings: Mappings, i: nat)
    requires IndexesMappings(catalogs, taps, mappings) && tap in catalogs && tap !in taps
    requires i < |AllMappings(catalogs[tap])|
    requires var list := AllMappings(catalogs[tap]);
      list[i].from in mappings || exists k | 0 <= k < i :: list[k].from == list[i].from
    ensures Reason(catalogs, DuplicateSource(AllMappings(catalogs[tap])[i].from))
  {
    var list := AllMappings(catalogs[tap]);
    assert MappingAt(catalogs, tap, i, list[i]);
    if list[i].from in mappings {
      var t, k :| t in taps && MappingAt(catalogs, t, k, ScopedMapping(list[i].from, mappings[list[i].from]));
      assert (t, k) != (tap, i);
    } else {
      var k :| 0 <= k < i && list[k].from == list[i].from;
      assert MappingAt(catalogs, tap, k, list[k]);
      assert (tap, k) != (tap, i);
    }
  }

  /** Builds the indexes, or refuses for a reason that holds of the documents. */
  method New(core: Core, catalogs: map<TapId, TapCatalog>, authorized: (Formula, Platform) -> bool)
    returns (result: NewResult)
    ensures result.Built? ==>
      && WellBuilt(result.resolver) && result.resolver.core == core
      && result.resolver.catalogs == catalogs && result.resolver.authorized == authorized
    ensures result.Refused? ==> Reason(catalogs, result.error)
  {
    hide IndexesFormulae, IndexesMappings, ValidTapCatalog, Reason;
    if |catalogs| > MAX_TAPS {
      ReasonOfSize(catalogs);
      return Refused(TooManyCatalogs);
    }
    var formulae: map<FormulaId, Formula>, mappings: Mappings := map[], map[];
    NothingIndexed(catalogs);
    var left := catalogs.Keys;
    while left != {}
      invariant left <= catalogs.Keys
      invariant forall tap | tap in catalogs && tap !in left :: Acceptable(catalogs, tap)
      invariant IndexesFormulae(catalogs, catalogs.Keys - left, formulae)
      invariant IndexesMappings(catalogs, catalogs.Keys - left, mappings)
      decreases left
    {
      var tap :| tap in left;
      var document := catalogs[tap];
      var fault := DocumentFault(catalogs, tap);
      if fault.Some? {
        return Refused(fault.value);
      }
      var clash, formulae' := AddFormulae(document.formulae, formulae);
      if clash.Some? {
        FormulaTwice(catalogs, catalogs.Keys - left, tap, formulae, clash.value);
        return Refused(DuplicateFormula(document.formulae[clash.value].id));
      }
      var clash', mappings' := AddMappings(AllMappings(document), mappings);
      if clash'.Some? {
        SourceTwice(catalogs, catalogs.Keys - left, tap, mappings, clash'.value);
        return Refused(DuplicateSource(AllMappings(document)[clash'.value].from));
      }
      IndexMoreFormulae(catalogs, catalogs.Keys - left, tap, formulae, formulae');
      IndexMoreMappings(catalogs, catalogs.Keys - left, tap, mappings, mappings');
      assert catalogs.Keys - (left - {tap}) == catalogs.Keys - left + {tap};
      formulae, mappings := formulae', mappings';
      left := left - {tap};
    }
    assert catalogs.Keys - left == catalogs.Keys;
    return Built(Resolver(core, catalogs, formulae, mappings, authorized));
  }

  lemma ReasonOfSize(catalogs: map<TapId, TapCatalog>)
    requires |catalogs| > MAX_TAPS
    ensures Reason(catalogs, TooManyCatalogs)
  {
  }

  lemma NothingIndexed(catalogs: map<TapId, TapCatalog>)
    ensures IndexesFormulae(catalogs, catalogs.Keys - catalogs.Keys, map[])
    ensures IndexesMappings(catalogs, catalogs.Keys - catalogs.Keys, map[])
  {
  }

  /** The checks New makes on one document before indexing it. */
  method DocumentFault(catalogs: map<TapId, TapCatalog>, tap: TapId) returns (fault: Option<NewError>)
    requires tap in catalogs
    ensures fault.None? <==> Acceptable(catalogs, tap)
    ensures fault.Some? ==> Reason(catalogs, fault.value)
  {
    if tap == CORE_TAP {
      return Some(CoreReplaced);
    }
    if !ValidTapCatalog(catalogs[tap]) {
      return Some(InvalidCatalog(tap));
    }
    if catalogs[tap].tap != tap {
      return Some(WrongTap(tap));
    }
    return None;
  }

  /** Documents that are each acceptable are never refused: the two duplicate checks across
      documents cannot fire. */
  lemma AcceptableHasNoReason(catalogs: map<TapId, TapCatalog>, error: NewError)
    requires |catalogs| <= MAX_TAPS && forall tap | tap in catalogs :: Acceptable(catalogs, tap)
    ensures !Reason(catalogs, error)
  {
    match error
    case DuplicateFormula(id) => FormulaeDiffer(catalogs);
    case DuplicateSource(id) => SourcesDiffer(catalogs);
    case _ =>
  }

  lemma FormulaeDiffer(catalogs: map<TapId, TapCatalog>)
    requires forall tap | tap in catalogs :: Acceptable(catalogs, tap)
    ensures forall t, k, f, t', k', f' |
      (t, k) != (t', k') && FormulaAt(catalogs, t, k, f) && FormulaAt(catalogs, t', k', f') :: f.id != f'.id
  {
    forall t, k, f, t', k', f' | (t, k) != (t', k') && FormulaAt(catalogs, t, k, f) && FormulaAt(catalogs, t', k', f')
      ensures f.id != f'.id
    {
      assert Acceptable(catalogs, t) && Acceptable(catalogs, t');
      assert f.id.tap == t && f'.id.tap == t';
    }
  }

  lemma SourcesDiffer(catalogs: map<TapId, TapCatalog>)
    requires forall tap | tap in catalogs :: Acceptable(catalogs, tap)
    ensures forall t, k, m, t', k', m' |
      (t, k) != (t', k') && MappingAt(catalogs, t, k, m) && MappingAt(catalogs, t', k', m') :: m.from != m'.from
  {
    forall t, k, m, t', k', m' | (t, k) != (t', k') && MappingAt(catalogs, t, k, m) && MappingAt(catalogs, t', k', m')
      ensures m.from != m'.from
    {
      assert Acceptable(catalogs, t) && Acceptable(catalogs, t');
      assert m.from.tap == t && m'.from.tap == t';
    }
  }

  // ----- More documents -----

  /** `r'` knows every document of `r`, and the same core and policy. */
  ghost predicate Extends(r: Resolver, r': Resolver) {
    && WellBuilt(r) && WellBuilt(r')
    && r.core == r'.core && r.authorized == r'.authorized
    && forall tap | tap in r.catalogs :: tap in r'.catalogs && r'.catalogs[tap] == r.catalogs[tap]
  }

  /** For an identity of a known tap, the longer indexes say the same. */
  ghost predicate SameEntry(r: Resolver, r': Resolver, id: FormulaId) {
    && (id in r.mappings <==> id in r'.mappings)
    && (id in r.mappings ==> r'.mappings[id] == r.mappings[id])
    && (id in r.formulae <==> id in r'.formulae)
    && (id in r.formulae ==> r'.formulae[id] == r.formulae[id])
  }

  lemma SourceInItsTap(catalogs: map<TapId, TapCatalog>, tap: TapId, k: int, m: ScopedMapping)
    requires tap in catalogs && Acceptable(catalogs, tap) && MappingAt(catalogs, tap, k, m)
    ensures m.from.tap == tap && HasSource(catalogs[tap], m.from)
  {
    assert AllMappings(catalogs[tap])[k].from == m.from;
  }

  lemma FormulaInItsTap(catalogs: map<TapId, TapCatalog>, tap: TapId, k: int, f: Formula)
    requires tap in catalogs && Acceptable(catalogs, tap) && FormulaAt(catalogs, tap, k, f)
    ensures f.id.tap == tap && HasFormula(catalogs[tap], f.id)
  {
    assert catalogs[tap].formulae[k].id == f.id;
  }

  lemma KnownSource(r: Resolver, id: FormulaId)
    requires WellBuilt(r) && id in r.mappings
    ensures id.tap in r.catalogs && HasSource(r.catalogs[id.tap], id)
  {
    hide Acceptable, HasSource;
    var tap, k :| tap in r.catalogs && MappingAt(r.catalogs, tap, k, ScopedMapping(id, r.mappings[id]));
    SourceInItsTap(r.catalogs, tap, k, ScopedMapping(id, r.mappings[id]));
  }

  lemma KnownFormula(r: Resolver, id: FormulaId)
    requires WellBuilt(r) && id in r.formulae
    ensures id.tap in r.catalogs && HasFormula(r.catalogs[id.tap], id) && r.formulae[id].id == id
  {
    hide Acceptable, HasFormula;
    var tap, k :| tap in r.catalogs && FormulaAt(r.catalogs, tap, k, r.formulae[id]);
    FormulaInItsTap(r.catalogs, tap, k, r.formulae[id]);
  }

  lemma KnownEntries(r: Resolver, id: FormulaId)
    requires WellBuilt(r)
    ensures id in r.mappings ==> id.tap in r.catalogs && HasSource(r.catalogs[id.tap], id)
    ensures id in r.formulae ==> id.tap in r.catalogs && HasFormula(r.catalogs[id.tap], id) && r.formulae[id].id == id
  {
    hide WellBuilt, HasSource, HasFormula;
    if id in r.mappings {
      KnownSource(r, id);
    }
    if id in r.formulae {
      KnownFormula(r, id);
    }
  }

  lemma DocumentEntries(r: Resolver, r': Resolver, id: FormulaId)
    requires Extends(r, r') && id.tap in r.catalogs
    ensures SameEntry(r, r', id)
  {
    var document := r.catalogs[id.tap];
    KnownEntries(r, id);
    KnownEntries(r', id);
    if HasSource(document, id) {
      var k :| 0 <= k < |AllMappings(document)| && AllMappings(document)[k].from == id;
      assert MappingAt(r.catalogs, id.tap, k, AllMappings(document)[k]);
      assert MappingAt(r'.catalogs, id.tap, k, AllMappings(document)[k]);
    }
    if HasFormula(document, id) {
      var k :| 0 <= k < |document.formulae| && document.formulae[k].id == id;
      assert FormulaAt(r.catalogs, id.tap, k, document.formulae[k]);
      assert FormulaAt(r'.catalogs, id.tap, k, document.formulae[k]);
    }
  }

  predicate HasSource(document: TapCatalog, id: FormulaId) {
    exists k | 0 <= k < |AllMappings(document)| :: AllMappings(document)[k].from == id
  }

  lemma ExtendsMappings(r: Resolver, r': Resolver)
    requires Extends(r, r')
    ensures SubMap(r.mappings, r'.mappings)
  {
    forall id | id in r.mappings ensures id in r'.mappings && r'.mappings[id] == r.mappings[id] {
      KnownEntries(r, id);
      DocumentEntries(r, r', id);
    }
  }
}
