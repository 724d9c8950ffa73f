/** The fixed-point tap ingestion loop: internal/cataloggenerator/generator.go, Generate, and
    the reached-tap checks of internal/catalog/validate.go, ValidateCatalogSetPayload. */
module Ingestion {
  import opened Identity
  import opened Catalog
  import opened Wrappers
  import opened Digraph
  import opened Listing
  import opened TapCatalogs
  import opened Lookups
  import opened Resolution
  import opened MoreDocuments
  import DocumentTerms

  datatype Target = Target(platform: Platform, coreRoots: seq<FormulaId>, externalRoots: seq<FormulaId>)

  function RootsOf(target: Target): seq<FormulaId> { target.coreRoots + target.externalRoots }

  /** What one run is given: the core snapshot, the release policy, and for each tap the
      document that extraction and conversion yield, or nothing when they fail. */
  datatype Inputs = Inputs(
    core: Core, authorized: (Formula, Platform) -> bool, extract: TapId -> Option<TapCatalog>)

  /** ValidateRequest, as far as the roots go. */
  predicate ValidTargets(targets: seq<Target>) {
    forall i | 0 <= i < |targets| ::
      && (forall k | 0 <= k < |targets[i].externalRoots| :: !IsCore(targets[i].externalRoots[k]))
      && (forall k | 0 <= k < |targets[i].coreRoots| :: IsCore(targets[i].coreRoots[k]))
  }

  function RootTapsOf(targets: seq<Target>): set<TapId> {
    set i, k | 0 <= i < |targets| && 0 <= k < |targets[i].externalRoots| :: targets[i].externalRoots[k].tap
  }

  // ----- Demand -----

  /** Resolving these roots touches the tap. */
  ghost predicate Demands(r: Resolver, raws: seq<FormulaId>, platform: Platform, tap: TapId) {
    || tap in RootTaps(r, raws)
    || (AllFound(r, raws) && exists id :: DemandsAt(QueryOf(r, raws, platform), id, tap))
  }

  ghost predicate DemandsAt(q: Query, id: FormulaId, tap: TapId) { Needed(q, id) && tap in WantedTaps(q, id) }

  function MissingTapOf(error: ResolveError): Option<TapId> {
    match error
    case RootFailed(_, MissingTap(tap)) => Some(tap)
    case DependencyFailed(_, _, MissingTap(tap)) => Some(tap)
    case NodeLookupFailed(_, MissingTap(tap)) => Some(tap)
    case _ => None
  }

  lemma WantedTouched(q: Query, id: FormulaId, k: int, tap: TapId)
    requires OpenedAt(q, id).Opened? && 0 <= k < |OpenedAt(q, id).wanted|
    requires TargetLookup(q, id, k) == Failed(MissingTap(tap))
    ensures tap != CORE_TAP && tap !in q.r.catalogs && tap in WantedTaps(q, id)
  {
    hide LookupExact, OpenedAt;
    var raw := OpenedAt(q, id).wanted[k].raw;
    match raw {
      case Qualified(x) => LookupTouches(q.r, x);
      case Bare(name) =>
        LookupTouches(q.r, FormulaId(CORE_TAP, name));
        LookupTouches(q.r, FormulaId(id.tap, name));
    }
    assert tap in NormalizeTaps(q.r, id.tap, raw);
  }

  /** A tap reported missing is demanded, is not core, and has no document yet. */
  lemma MissingIsDemanded(r: Resolver, raws: seq<FormulaId>, platform: Platform, error: ResolveError, tap: TapId)
    requires Fault(r, raws, platform, error) && MissingTapOf(error) == Some(tap)
    ensures tap != CORE_TAP && tap !in r.catalogs && Demands(r, raws, platform, tap)
  {
    hide LookupExact, LookupTaps, OpenedAt, Needed;
    CanonicalErrorsCannotOccur(r, raws, platform, error);
    match error
    case RootFailed(k, _) =>
      LookupTouches(r, raws[k]);
    case DependencyFailed(id, k, _) =>
      WantedTouched(QueryOf(r, raws, platform), id, k, tap);
      assert DemandsAt(QueryOf(r, raws, platform), id, tap);
    case _ =>
  }

  // ----- More documents keep every demand -----

  lemma DemandsMono(r: Resolver, r': Resolver, raws: seq<FormulaId>, platform: Platform, tap: TapId)
    requires Extends(r, r') && Demands(r, raws, platform, tap)
    ensures Demands(r', raws, platform, tap)
  {
    hide WellBuilt, Needed, WantedTaps, LookupExact;
    RootsMono(r, r', raws);
    if tap !in RootTaps(r, raws) {
      var q, q' := QueryOf(r, raws, platform), QueryOf(r', raws, platform);
      var id :| DemandsAt(q, id, tap);
      NeededMono(q, q', id);
      TargetsMono(q, q', id);
      assert DemandsAt(q', id, tap);
    }
  }

  /** What is demanded is recorded among the taps of the closure. */
  lemma DemandedIsRecorded(r: Resolver, raws: seq<FormulaId>, platform: Platform, closure: ClosureResult, tap: TapId)
    requires AllFound(r, raws) && Assembled(QueryOf(r, raws, platform), raws, closure)
    requires Demands(r, raws, platform, tap)
    ensures tap in closure.taps.value
  {
    hide Needed, NodeOf, NodeResolves, OrderAssembled, RootTaps, WantedTaps, LookupExact, LookupTaps;
    var q := QueryOf(r, raws, platform);
    if tap !in RootTaps(r, raws) {
      var id :| DemandsAt(q, id, tap);
      assert id in ClosureCheck.Ids(closure.nodes);
      assert tap in TapsAt(q, id);
    }
    assert tap in Elems(closure.taps.value);
  }

  /** A closure records only taps with a document. */
  lemma RecordedIsKnown(q: Query, raws: seq<FormulaId>, closure: ClosureResult)
    requires WellBuilt(q.r) && Assembled(q, raws, closure)
    ensures Elems(closure.taps.value) <= q.r.catalogs.Keys
  {
    hide Needed, NodeOf, OrderAssembled, WellBuilt, LookupExact, LookupTaps, WantedTaps;
    forall k | 0 <= k < |raws| ensures LookupTaps(q.r, raws[k]) <= q.r.catalogs.Keys {
      FoundTouchesKnown(q.r, raws[k]);
    }
    forall id | id in ClosureCheck.Ids(closure.nodes) ensures TapsAt(q, id) <= q.r.catalogs.Keys {
      NodeTouchesKnown(q, id);
    }
  }

  lemma NodeTouchesKnown(q: Query, id: FormulaId)
    requires WellBuilt(q.r) && NodeResolves(q, id)
    ensures TapsAt(q, id) <= q.r.catalogs.Keys
  {
    hide WellBuilt, LookupTaps, Open;
    FoundTouchesKnown(q.r, id);
    var wanted := OpenedAt(q, id).wanted;
    forall k | 0 <= k < |wanted| ensures NormalizeTaps(q.r, id.tap, wanted[k].raw) <= q.r.catalogs.Keys {
      WantedTouchesKnown(q.r, id.tap, wanted[k].raw);
    }
  }

  lemma WantedTouchesKnown(r: Resolver, owner: TapId, raw: Spelling)
    requires WellBuilt(r) && Normalize(r, owner, raw).Found?
    ensures NormalizeTaps(r, owner, raw) <= r.catalogs.Keys
  {
    hide WellBuilt, LookupTaps, LookupExact;
    match raw
    case Qualified(id) => FoundTouchesKnown(r, id);
    case Bare(name) =>
      if LookupExact(r, FormulaId(CORE_TAP, name)) == Failed(NotFound) {
        FoundTouchesKnown(r, FormulaId(owner, name));
      }
  }

  // ----- The loop -----

  datatype GenerateError =
    | InvalidRequest | TapLimit | TimedOut | ExtractionFailed(tap: TapId)
    | ResolverRefused(refusal: NewError) | ClosureInvalid(target: nat, cause: ResolveError)

  datatype Generated = Generated(catalogs: map<TapId, TapCatalog>, closures: seq<ClosureResult>)
                     | NotGenerated(error: GenerateError)

  ghost predicate BuiltFrom(inputs: Inputs, catalogs: map<TapId, TapCatalog>, r: Resolver) {
    && WellBuilt(r) && r.core == inputs.core && r.authorized == inputs.authorized
    && forall tap | tap in r.catalogs :: tap in catalogs && catalogs[tap] == r.catalogs[tap]
  }

  ghost predicate DemandedWith(inputs: Inputs, targets: seq<Target>, catalogs: map<TapId, TapCatalog>, tap: TapId,
                               r: Resolver, i: int) {
    && BuiltFrom(inputs, catalogs, r) && 0 <= i < |targets|
    && Demands(r, RootsOf(targets[i]), targets[i].platform, tap)
  }

  /** The tap holds an external root, or some target demanded it with documents now in hand. */
  ghost predicate Discovered(inputs: Inputs, targets: seq<Target>, catalogs: map<TapId, TapCatalog>, tap: TapId) {
    tap in RootTapsOf(targets) || exists r, i :: DemandedWith(inputs, targets, catalogs, tap, r, i)
  }

  ghost predicate AllDiscovered(inputs: Inputs, targets: seq<Target>, catalogs: map<TapId, TapCatalog>,
                                taps: set<TapId>) {
    forall tap | tap in taps :: Discovered(inputs, targets, catalogs, tap)
  }

  lemma DiscoveredStays(inputs: Inputs, targets: seq<Target>, catalogs: map<TapId, TapCatalog>,
                        catalogs': map<TapId, TapCatalog>, taps: set<TapId>)
    requires AllDiscovered(inputs, targets, catalogs, taps)
    requires forall tap | tap in catalogs :: tap in catalogs' && catalogs'[tap] == catalogs[tap]
    ensures AllDiscovered(inputs, targets, catalogs', taps)
  {
    hide WellBuilt, Demands;
    forall tap | tap in taps ensures Discovered(inputs, targets, catalogs', tap) {
      assert Discovered(inputs, targets, catalogs, tap);
      if tap !in RootTapsOf(targets) {
        var r, i :| DemandedWith(inputs, targets, catalogs, tap, r, i);
        assert DemandedWith(inputs, targets, catalogs', tap, r, i);
      }
    }
  }

  // ----- Why a tap is fetched -----

  /** The documents are what extraction gives. */
  ghost predicate Extracted(inputs: Inputs, catalogs: map<TapId, TapCatalog>) {
    forall tap | tap in catalogs :: inputs.extract(tap) == Some(catalogs[tap])
  }

  /** The tap holds an external root, or some target demands it given documents of `known` taps. */
  ghost predicate DemandedBy(inputs: Inputs, targets: seq<Target>, known: set<TapId>, tap: TapId) {
    exists catalogs :: DiscoveredWith(inputs, targets, known, tap, catalogs)
  }

  ghost predicate DiscoveredWith(inputs: Inputs, targets: seq<Target>, known: set<TapId>, tap: TapId,
                                 catalogs: map<TapId, TapCatalog>) {
    Extracted(inputs, catalogs) && catalogs.Keys <= known && Discovered(inputs, targets, catalogs, tap)
  }

  /** Every tap fetched was demanded given the documents of the taps fetched before it. */
  ghost predicate FetchedInOrder(inputs: Inputs, targets: seq<Target>, fetched: seq<TapId>) {
    forall i | 0 <= i < |fetched| :: DemandedBy(inputs, targets, Elems(fetched[..i]), fetched[i])
  }

  lemma DemandedMore(inputs: Inputs, targets: seq<Target>, known: set<TapId>, more: set<TapId>, tap: TapId)
    requires DemandedBy(inputs, targets, known, tap) && known <= more
    ensures DemandedBy(inputs, targets, more, tap)
  {
    hide Discovered, Extracted;
    var catalogs :| DiscoveredWith(inputs, targets, known, tap, catalogs);
    assert DiscoveredWith(inputs, targets, more, tap, catalogs);
  }

  lemma FetchedOneMore(inputs: Inputs, targets: seq<Target>, fetched: seq<TapId>, tap: TapId)
    requires FetchedInOrder(inputs, targets, fetched) && DemandedBy(inputs, targets, Elems(fetched), tap)
    ensures FetchedInOrder(inputs, targets, fetched + [tap])
  {
    hide DemandedBy;
    var longer := fetched + [tap];
    forall i | 0 <= i < |longer| ensures DemandedBy(inputs, targets, Elems(longer[..i]), longer[i]) {
      if i < |fetched| {
        assert longer[..i] == fetched[..i];
      } else {
        assert longer[..i] == fetched;
      }
    }
  }

  lemma AllDemanded(inputs: Inputs, targets: seq<Target>, fetched: seq<TapId>)
    requires FetchedInOrder(inputs, targets, fetched)
    ensures forall tap | tap in fetched :: DemandedBy(inputs, targets, Elems(fetched), tap)
  {
    hide DemandedBy;
    forall tap | tap in fetched ensures DemandedBy(inputs, targets, Elems(fetched), tap) {
      var i :| 0 <= i < |fetched| && fetched[i] == tap;
      assert Elems(fetched[..i]) <= Elems(fetched);
      DemandedMore(inputs, targets, Elems(fetched[..i]), Elems(fetched), tap);
    }
  }

  /** More taps are demanded than the limit allows. */
  ghost predicate TooManyDemanded(inputs: Inputs, targets: seq<Target>, known: set<TapId>) {
    exists taps: set<TapId> :: |taps| > MAX_TAPS && AllDemandedBy(inputs, targets, known, taps)
  }

  ghost predicate AllDemandedBy(inputs: Inputs, targets: seq<Target>, known: set<TapId>, taps: set<TapId>) {
    forall tap | tap in taps :: DemandedBy(inputs, targets, known, tap)
  }

  /** A full set of fetched taps and one more. */
  lemma OneTooMany(inputs: Inputs, targets: seq<Target>, fetched: seq<TapId>, tap: TapId)
    requires FetchedInOrder(inputs, targets, fetched) && NoRepeats(fetched) && |fetched| >= MAX_TAPS
    requires DemandedBy(inputs, targets, Elems(fetched), tap) && tap !in fetched
    ensures TooManyDemanded(inputs, targets, Elems(fetched))
  {
    hide DemandedBy, FetchedInOrder;
    AllDemanded(inputs, targets, fetched);
    NoRepeatsSize(fetched);
    var taps := Elems(fetched) + {tap};
    assert |taps| == |Elems(fetched)| + 1;
    assert AllDemandedBy(inputs, targets, Elems(fetched), taps);
  }

  /** What every error says, given the taps fetched. */
  ghost predicate ErrorTrue(inputs: Inputs, targets: seq<Target>, expired: nat -> bool, fetched: seq<TapId>,
                            error: GenerateError) {
    match error
    case InvalidRequest => !ValidTargets(targets)
    case TapLimit => TooManyDemanded(inputs, targets, Elems(fetched))
    case TimedOut => exists turn: nat :: expired(turn)
    case ExtractionFailed(tap) => tap in fetched && inputs.extract(tap).None?
    case ResolverRefused(refusal) =>
      exists catalogs :: Extracted(inputs, catalogs) && catalogs.Keys <= Elems(fetched) && Reason(catalogs, refusal)
    case ClosureInvalid(i, cause) =>
      exists r :: InvalidWith(inputs, targets, fetched, i, cause, r)
  }

  ghost predicate InvalidWith(inputs: Inputs, targets: seq<Target>, fetched: seq<TapId>, i: nat, cause: ResolveError,
                              r: Resolver) {
    && WellBuilt(r) && r.core == inputs.core && r.authorized == inputs.authorized
    && Extracted(inputs, r.catalogs) && r.catalogs.Keys <= Elems(fetched)
    && i < |targets| && RootsOf(targets[i]) != [] && NotMissing(cause)
    && Fault(r, RootsOf(targets[i]), targets[i].platform, cause)
  }

  const EMPTY_CLOSURE := ClosureResult([], Some([]), Some([]), [], [])

  /** What a finished target holds: nothing without roots, else its resolved closure. */
  ghost predicate TargetDone(r: Resolver, target: Target, closure: ClosureResult) {
    var raws := RootsOf(target);
    if raws == [] then closure == EMPTY_CLOSURE
    else
      && AllFound(r, raws) && Assembled(QueryOf(r, raws, target.platform), raws, closure)
      && ClosureCheck.ClosureOk(closure)
  }

  ghost function UnionOfTaps(closures: seq<ClosureResult>): set<TapId> {
    set i, tap | 0 <= i < |closures| && tap in ClosureCheck.EffectiveTaps(closures[i]) :: tap
  }

  ghost predicate FetchLog(catalogs: map<TapId, TapCatalog>, fetched: seq<TapId>) {
    NoRepeats(fetched) && |fetched| <= MAX_TAPS && Elems(fetched) == catalogs.Keys
  }

  /** The extraction of one pending tap. */
  method ExtractOne(inputs: Inputs, ghost targets: seq<Target>, tap: TapId, catalogs: map<TapId, TapCatalog>,
                    fetched: seq<TapId>)
    returns (error: Option<GenerateError>, catalogs': map<TapId, TapCatalog>, fetched': seq<TapId>)
    requires tap !in catalogs && FetchLog(catalogs, fetched) && Extracted(inputs, catalogs)
    requires FetchedInOrder(inputs, targets, fetched) && DemandedBy(inputs, targets, Elems(fetched), tap)
    ensures NoRepeats(fetched') && |fetched'| <= MAX_TAPS && FetchedInOrder(inputs, targets, fetched')
    ensures fetched' == fetched || fetched' == fetched + [tap]
    ensures error.None? ==>
      && FetchLog(catalogs', fetched') && catalogs'.Keys == catalogs.Keys + {tap} && Extracted(inputs, catalogs')
      && (forall t | t in catalogs :: catalogs'[t] == catalogs[t])
    ensures error.Some? ==> forall expired :: ErrorTrue(inputs, targets, expired, fetched', error.value)
  {
    hide FetchedInOrder, DemandedBy, TooManyDemanded, Extracted, NoRepeats;
    NoRepeatsSize(fetched);
    if |catalogs| >= MAX_TAPS {
      OneTooMany(inputs, targets, fetched, tap);
      return Some(TapLimit), catalogs, fetched;
    }
    SnocElems(fetched, tap);
    FetchedOneMore(inputs, targets, fetched, tap);
    var document := inputs.extract(tap);
    if document.None? {
      return Some(ExtractionFailed(tap)), catalogs, fetched + [tap];
    }
    ExtractedOneMore(inputs, catalogs, tap, document.value);
    return None, catalogs[tap := document.value], fetched + [tap];
  }

  lemma ExtractedOneMore(inputs: Inputs, catalogs: map<TapId, TapCatalog>, tap: TapId, document: TapCatalog)
    requires Extracted(inputs, catalogs) && inputs.extract(tap) == Some(document)
    ensures Extracted(inputs, catalogs[tap := document])
  {
  }

  /** The extraction of the pending taps, in order. */
  method ExtractAll(inputs: Inputs, ghost targets: seq<Target>, taps: seq<TapId>, catalogs: map<TapId, TapCatalog>,
                    fetched: seq<TapId>)
    returns (error: Option<GenerateError>, catalogs': map<TapId, TapCatalog>, fetched': seq<TapId>)
    requires NoRepeats(taps) && Elems(taps) !! catalogs.Keys && FetchLog(catalogs, fetched)
    requires Extracted(inputs, catalogs)
    requires FetchedInOrder(inputs, targets, fetched)
    requires forall k | 0 <= k < |taps| :: DemandedBy(inputs, targets, Elems(fetched), taps[k])
    ensures NoRepeats(fetched') && |fetched'| <= MAX_TAPS && FetchedInOrder(inputs, targets, fetched')
    ensures error.None? ==>
      && FetchLog(catalogs', fetched') && catalogs'.Keys == catalogs.Keys + Elems(taps) && Extracted(inputs, catalogs')
      && (forall tap | tap in catalogs :: catalogs'[tap] == catalogs[tap])
    ensures error.Some? ==> forall expired :: ErrorTrue(inputs, targets, expired, fetched', error.value)
  {
    hide FetchedInOrder, DemandedBy, ErrorTrue, Extracted;
    catalogs', fetched' := catalogs, fetched;
    assert forall k | 0 <= k < |taps| :: taps[k] in Elems(taps);
    var i := 0;
    while i < |taps|
      invariant 0 <= i <= |taps|
      invariant FetchLog(catalogs', fetched') && Extracted(inputs, catalogs')
      invariant FetchedInOrder(inputs, targets, fetched')
      invariant forall k | 0 <= k < i :: taps[k] in catalogs'
      invariant forall k | i <= k < |taps| :: taps[k] !in catalogs'
      invariant catalogs.Keys <= catalogs'.Keys <= catalogs.Keys + Elems(taps)
      invariant forall tap | tap in catalogs :: catalogs'[tap] == catalogs[tap]
    {
      DemandedMore(inputs, targets, Elems(fetched), Elems(fetched'), taps[i]);
      error, catalogs', fetched' := ExtractOne(inputs, targets, taps[i], catalogs', fetched');
      if error.Some? {
        return;
      }
      i := i + 1;
    }
    return None, catalogs', fetched';
  }

  /** Resolves the targets in order, up to the first tap reported missing. */
  method ResolveTargets(r: Resolver, targets: seq<Target>)
    returns (error: Option<GenerateError>, missing: Option<TapId>, closures: seq<ClosureResult>)
    ensures error.None? && missing.None? ==>
      |closures| == |targets| && forall i | 0 <= i < |targets| :: TargetDone(r, targets[i], closures[i])
    ensures error.None? && missing.Some? ==>
      && missing.value != CORE_TAP && missing.value !in r.catalogs
      && exists i | 0 <= i < |targets| :: Demands(r, RootsOf(targets[i]), targets[i].platform, missing.value)
    ensures error.Some? ==>
      && error.value.ClosureInvalid? && error.value.target < |targets|
      && var i := error.value.target;
      && RootsOf(targets[i]) != [] && NotMissing(error.value.cause)
      && Fault(r, RootsOf(targets[i]), targets[i].platform, error.value.cause)
  {
    hide Fault, Assembled, ClosureCheck.ClosureOk, Demands;
    closures := [];
    var i := 0;
    while i < |targets|
      invariant 0 <= i <= |targets| && |closures| == i
      invariant forall j | 0 <= j < i :: TargetDone(r, targets[j], closures[j])
    {
      var roots := RootsOf(targets[i]);
      if |roots| == 0 {
        closures := closures + [EMPTY_CLOSURE];
      } else {
        var result := Resolve(r, roots, targets[i].platform);
        if result.Unresolved? {
          var tap := MissingTapOf(result.error);
          if tap.Some? {
            MissingIsDemanded(r, roots, targets[i].platform, result.error, tap.value);
            return None, tap, closures;
          }
          return Some(ClosureInvalid(i, result.error)), None, closures;
        }
        closures := closures + [result.closure];
      }
      i := i + 1;
    }
    return None, None, closures;
  }

  /** When every target is done, the documents in hand are exactly the taps the closures record. */
  lemma IngestedIsReached(inputs: Inputs, targets: seq<Target>, r: Resolver, closures: seq<ClosureResult>)
    requires WellBuilt(r) && r.core == inputs.core && r.authorized == inputs.authorized
    requires AllDiscovered(inputs, targets, r.catalogs, r.catalogs.Keys)
    requires ValidTargets(targets)
    requires |closures| == |targets| && forall i | 0 <= i < |targets| :: TargetDone(r, targets[i], closures[i])
    ensures UnionOfTaps(closures) == r.catalogs.Keys
  {
    hide WellBuilt, Assembled, ClosureCheck.ClosureOk, ClosureCheck.EffectiveTaps;
    forall tap | tap in r.catalogs ensures tap in UnionOfTaps(closures) {
      var i := DiscoveredTarget(inputs, targets, r, tap);
      DoneRecords(r, targets[i], closures[i], tap);
    }
    forall tap | tap in UnionOfTaps(closures) ensures tap in r.catalogs {
      var i :| 0 <= i < |closures| && tap in ClosureCheck.EffectiveTaps(closures[i]);
      DoneKnown(r, targets[i], closures[i]);
    }
  }

  lemma DiscoveredTarget(inputs: Inputs, targets: seq<Target>, r: Resolver, tap: TapId) returns (i: nat)
    requires WellBuilt(r) && r.core == inputs.core && r.authorized == inputs.authorized
    requires Discovered(inputs, targets, r.catalogs, tap) && ValidTargets(targets)
    ensures i < |targets| && Demands(r, RootsOf(targets[i]), targets[i].platform, tap)
  {
    hide WellBuilt, LookupTaps;
    if tap in RootTapsOf(targets) {
      var j, k :| 0 <= j < |targets| && 0 <= k < |targets[j].externalRoots| && targets[j].externalRoots[k].tap == tap;
      var raws := RootsOf(targets[j]);
      assert raws[|targets[j].coreRoots| + k] == targets[j].externalRoots[k];
      LookupTouches(r, targets[j].externalRoots[k]);
      i := j;
    } else {
      var s, j :| DemandedWith(inputs, targets, r.catalogs, tap, s, j);
      assert Extends(s, r);
      DemandsMono(s, r, RootsOf(targets[j]), targets[j].platform, tap);
      i := j;
    }
  }

  lemma DoneRecords(r: Resolver, target: Target, closure: ClosureResult, tap: TapId)
    requires TargetDone(r, target, closure) && Demands(r, RootsOf(target), target.platform, tap)
    ensures tap in ClosureCheck.EffectiveTaps(closure)
  {
    hide Needed, LookupExact, LookupTaps, NodeOf, NodeResolves, WantedTaps, OrderAssembled, Demands,
      ClosureCheck.ClosureOk;
    if RootsOf(target) == [] {
      NothingDemanded(r, RootsOf(target), target.platform, tap);
    } else {
      DemandedIsRecorded(r, RootsOf(target), target.platform, closure, tap);
    }
  }

  lemma NothingDemanded(r: Resolver, raws: seq<FormulaId>, platform: Platform, tap: TapId)
    requires raws == []
    ensures !Demands(r, raws, platform, tap)
  {
    hide Targets, WantedTaps;
    assert QueryOf(r, raws, platform).roots == {};
  }

  lemma DoneKnown(r: Resolver, target: Target, closure: ClosureResult)
    requires WellBuilt(r) && TargetDone(r, target, closure)
    ensures ClosureCheck.EffectiveTaps(closure) <= r.catalogs.Keys
  {
    hide WellBuilt, Needed, NodeOf, NodeResolves, OrderAssembled;
    if RootsOf(target) != [] {
      RecordedIsKnown(QueryOf(r, RootsOf(target), target.platform), RootsOf(target), closure);
    }
  }

  datatype Round = Stopped(error: GenerateError) | Finished(closures: seq<ClosureResult>) | Missing(tap: TapId)

  /** One turn of the loop: fetch what is pending, rebuild the resolver, resolve the targets. */
  method Turn(inputs: Inputs, targets: seq<Target>, catalogs: map<TapId, TapCatalog>, pending: set<TapId>,
              fetched: seq<TapId>)
    returns (round: Round, catalogs': map<TapId, TapCatalog>, fetched': seq<TapId>)
    requires ValidTargets(targets) && pending !! catalogs.Keys && FetchLog(catalogs, fetched)
    requires Extracted(inputs, catalogs) && FetchedInOrder(inputs, targets, fetched)
    requires AllDiscovered(inputs, targets, catalogs, catalogs.Keys + pending)
    ensures NoRepeats(fetched') && |fetched'| <= MAX_TAPS && FetchedInOrder(inputs, targets, fetched')
    ensures !round.Stopped? ==>
      FetchLog(catalogs', fetched') && Extracted(inputs, catalogs') && catalogs'.Keys == catalogs.Keys + pending
    ensures round.Finished? ==> Complete(inputs, targets, catalogs', round.closures)
    ensures round.Missing? ==>
      && round.tap != CORE_TAP && round.tap !in catalogs'
      && AllDiscovered(inputs, targets, catalogs', catalogs'.Keys + {round.tap})
    ensures round.Stopped? ==> forall expired :: ErrorTrue(inputs, targets, expired, fetched', round.error)
  {
    hide WellBuilt, TargetDone, Demands, UnionOfTaps, AllDiscovered, ValidTargets, NoRepeats, FetchedInOrder,
      DemandedBy, Fault, Reason, TooManyDemanded, Extracted, Complete;
    var pendingTaps := ListStrings(pending);
    PendingDemanded(inputs, targets, catalogs, pendingTaps, fetched);
    var fault;
    fault, catalogs', fetched' := ExtractAll(inputs, targets, pendingTaps, catalogs, fetched);
    if fault.Some? {
      return Stopped(fault.value), catalogs', fetched';
    }
    DiscoveredStays(inputs, targets, catalogs, catalogs', catalogs.Keys + pending);
    var made := New(inputs.core, catalogs', inputs.authorized);
    if made.Refused? {
      return Stopped(ResolverRefused(made.error)), catalogs', fetched';
    }
    var error, missing, closures := ResolveTargets(made.resolver, targets);
    if error.Some? {
      assert InvalidWith(inputs, targets, fetched', error.value.target, error.value.cause, made.resolver);
      return Stopped(error.value), catalogs', fetched';
    }
    if missing.None? {
      IngestedIsReached(inputs, targets, made.resolver, closures);
      AllComplete(inputs, targets, catalogs', made.resolver, closures);
      return Finished(closures), catalogs', fetched';
    }
    MoreDiscovered(inputs, targets, catalogs', made.resolver, missing.value);
    return Missing(missing.value), catalogs', fetched';
  }

  lemma PendingDemanded(inputs: Inputs, targets: seq<Target>, catalogs: map<TapId, TapCatalog>, taps: seq<TapId>,
                        fetched: seq<TapId>)
    requires Extracted(inputs, catalogs) && Elems(fetched) == catalogs.Keys
    requires AllDiscovered(inputs, targets, catalogs, catalogs.Keys + Elems(taps))
    ensures forall k | 0 <= k < |taps| :: DemandedBy(inputs, targets, Elems(fetched), taps[k])
  {
    hide Discovered, Extracted;
    forall k | 0 <= k < |taps| ensures DemandedBy(inputs, targets, Elems(fetched), taps[k]) {
      assert taps[k] in Elems(taps);
      assert DiscoveredWith(inputs, targets, Elems(fetched), taps[k], catalogs);
    }
  }

  lemma AllComplete(inputs: Inputs, targets: seq<Target>, catalogs: map<TapId, TapCatalog>, r: Resolver,
                    closures: seq<ClosureResult>)
    requires WellBuilt(r) && r.core == inputs.core && r.authorized == inputs.authorized && r.catalogs == catalogs
    requires |closures| == |targets| && UnionOfTaps(closures) == catalogs.Keys
    requires forall i | 0 <= i < |targets| :: TargetDone(r, targets[i], closures[i])
    ensures Complete(inputs, targets, catalogs, closures)
  {
    hide WellBuilt, TargetDone, UnionOfTaps;
    assert CompletedBy(inputs, targets, catalogs, r, closures);
  }

  /** Every target is resolved with these documents, and they are exactly the taps recorded. */
  ghost predicate Complete(inputs: Inputs, targets: seq<Target>, catalogs: map<TapId, TapCatalog>,
                           closures: seq<ClosureResult>) {
    && UnionOfTaps(closures) == catalogs.Keys
    && exists r :: CompletedBy(inputs, targets, catalogs, r, closures)
  }

  ghost predicate CompletedBy(inputs: Inputs, targets: seq<Target>, catalogs: map<TapId, TapCatalog>, r: Resolver,
                              closures: seq<ClosureResult>) {
    && BuiltFrom(inputs, catalogs, r) && r.catalogs == catalogs && |closures| == |targets|
    && forall i | 0 <= i < |targets| :: TargetDone(r, targets[i], closures[i])
  }

  /** The closure belongs to the target: one requested mapping for each root, first the core roots
      and then the external ones, each with the root it resolves to; and it is empty exactly when
      the target has no roots. */
  ghost predicate Answers(target: Target, closure: ClosureResult) {
    var n, m := |target.coreRoots|, |target.externalRoots|;
    && closure.mappings.Some? && |closure.mappings.value| == n + m && |closure.requested| == n + m
    && (forall k | 0 <= k < n :: closure.mappings.value[k].requested == target.coreRoots[k])
    && (forall k | 0 <= k < m :: closure.mappings.value[n + k].requested == target.externalRoots[k])
    && (forall k | 0 <= k < n + m :: closure.mappings.value[k].resolved == closure.requested[k])
    && (closure.nodes == [] <==> target.coreRoots == [] && target.externalRoots == [])
  }

  ghost predicate AllAnswered(targets: seq<Target>, closures: seq<ClosureResult>) {
    |closures| == |targets| && forall i | 0 <= i < |targets| :: Answers(targets[i], closures[i])
  }

  lemma DoneAnswers(r: Resolver, target: Target, closure: ClosureResult)
    requires TargetDone(r, target, closure)
    ensures Answers(target, closure)
  {
    hide Needed, LookupExact, NodesAssembled, OrderAssembled, RootTaps, NodeTaps, ClosureCheck.ClosureOk;
    var raws := RootsOf(target);
    if raws != [] {
      var q := QueryOf(r, raws, target.platform);
      assert closure.requested[0] in q.roots;
      RootsAreNeeded(q);
      NeededIsListed(q, closure.nodes, closure.requested[0]);
    }
  }

  lemma NeededIsListed(q: Query, nodes: seq<Node>, id: FormulaId)
    requires NodesAssembled(q, nodes) && Needed(q, id)
    ensures nodes != []
  {
    hide Needed, NodeOf, NodeResolves;
    assert id in ClosureCheck.Ids(nodes);
  }

  lemma CompleteAnswers(inputs: Inputs, targets: seq<Target>, catalogs: map<TapId, TapCatalog>,
                        closures: seq<ClosureResult>)
    requires Complete(inputs, targets, catalogs, closures)
    ensures AllAnswered(targets, closures)
  {
    hide TargetDone, BuiltFrom, UnionOfTaps, Answers;
    var r :| CompletedBy(inputs, targets, catalogs, r, closures);
    forall i | 0 <= i < |targets| ensures Answers(targets[i], closures[i]) {
      DoneAnswers(r, targets[i], closures[i]);
    }
  }

  /** Every node of every closure says what the snapshot or a document says on the platform of
      its target, and every root resolves to what the mappings make of it. */
  lemma CompletedInTerms(inputs: Inputs, targets: seq<Target>, catalogs: map<TapId, TapCatalog>, r: Resolver,
                         closures: seq<ClosureResult>, i: nat)
    requires CompletedBy(inputs, targets, catalogs, r, closures) && i < |targets|
    ensures forall k | 0 <= k < |closures[i].nodes| ::
      var node := closures[i].nodes[k];
      DocumentTerms.NodeSays(r, targets[i].platform, node.id in closures[i].requested, node)
    ensures Answers(targets[i], closures[i])
    ensures forall k | 0 <= k < |closures[i].requested| ::
      DocumentTerms.ComesTo(r, closures[i].mappings.value[k].requested, closures[i].requested[k])
  {
    hide WellBuilt, Assembled, ClosureCheck.ClosureOk, DocumentTerms.NodeSays, DocumentTerms.ComesTo;
    DoneAnswers(r, targets[i], closures[i]);
    var raws := RootsOf(targets[i]);
    if raws != [] {
      DocumentTerms.ClosureInTerms(r, raws, targets[i].platform, closures[i]);
      AssembledSources(QueryOf(r, raws, targets[i].platform), raws, closures[i]);
    }
  }

  lemma AssembledSources(q: Query, raws: seq<FormulaId>, closure: ClosureResult)
    requires Assembled(q, raws, closure)
    ensures closure.mappings.Some? && |closure.mappings.value| == |raws|
    ensures forall k | 0 <= k < |raws| :: closure.mappings.value[k].requested == raws[k]
  {
    hide NodesAssembled, OrderAssembled, RootTaps, NodeTaps, LookupExact;
  }

  /** Some extracted documents complete every target. */
  ghost predicate Completes(inputs: Inputs, targets: seq<Target>, catalogs: map<TapId, TapCatalog>) {
    && ValidTargets(targets) && Extracted(inputs, catalogs)
    && exists r, closures :: CompletedBy(inputs, targets, catalogs, r, closures)
  }

  // ----- When documents that complete the request exist -----

  /** A tap demanded with documents of such a set is in the set. */
  lemma DemandedIsIn(inputs: Inputs, targets: seq<Target>, all: map<TapId, TapCatalog>, known: set<TapId>, tap: TapId)
    requires Completes(inputs, targets, all) && known <= all.Keys && DemandedBy(inputs, targets, known, tap)
    ensures tap in all
  {
    hide WellBuilt, TargetDone, Discovered, ValidTargets, Demands, ClosureCheck.EffectiveTaps;
    var r, closures :| CompletedBy(inputs, targets, all, r, closures);
    var catalogs :| DiscoveredWith(inputs, targets, known, tap, catalogs);
    assert forall t | t in catalogs :: t in all && Some(all[t]) == Some(catalogs[t]);
    DiscoveredStays(inputs, targets, catalogs, all, {tap});
    assert Discovered(inputs, targets, all, tap);
    var i := DiscoveredTarget(inputs, targets, r, tap);
    DoneRecords(r, targets[i], closures[i], tap);
    DoneKnown(r, targets[i], closures[i]);
  }

  /** Nothing outside such a set is ever fetched. */
  lemma {:induction false} FetchedIsIn(inputs: Inputs, targets: seq<Target>, all: map<TapId, TapCatalog>,
                                       fetched: seq<TapId>, n: nat)
    requires Completes(inputs, targets, all) && FetchedInOrder(inputs, targets, fetched) && n <= |fetched|
    ensures Elems(fetched[..n]) <= all.Keys
    decreases n
  {
    hide Completes, DemandedBy;
    if n > 0 {
      FetchedIsIn(inputs, targets, all, fetched, n - 1);
      DemandedIsIn(inputs, targets, all, Elems(fetched[..n - 1]), fetched[n - 1]);
      assert fetched[..n] == fetched[..n - 1] + [fetched[n - 1]];
      SnocElems(fetched[..n - 1], fetched[n - 1]);
    }
  }

  /** If some extracted documents complete the request, no error but the deadline is true: the
      loop without a deadline succeeds, and fetches only taps of that set. */
  lemma CompletableHasNoError(inputs: Inputs, targets: seq<Target>, all: map<TapId, TapCatalog>, expired: nat -> bool,
                              fetched: seq<TapId>, error: GenerateError)
    requires Completes(inputs, targets, all) && FetchedInOrder(inputs, targets, fetched)
    requires ErrorTrue(inputs, targets, expired, fetched, error)
    ensures error.TimedOut? && Elems(fetched) <= all.Keys
  {
    hide Completes, FetchedInOrder, TooManyDemanded, InvalidWith, Reason, Extracted;
    FetchedIsIn(inputs, targets, all, fetched, |fetched|);
    assert fetched[..|fetched|] == fetched;
    CompletesMeans(inputs, targets, all);
    match error
    case TapLimit => FewDemanded(inputs, targets, all, Elems(fetched));
    case ResolverRefused(refusal) =>
      var catalogs :| Extracted(inputs, catalogs) && catalogs.Keys <= Elems(fetched) && Reason(catalogs, refusal);
      PartHasNoReason(inputs, targets, all, catalogs, refusal);
    case ClosureInvalid(i, cause) =>
      var r :| InvalidWith(inputs, targets, fetched, i, cause, r);
      PartHasNoFault(inputs, targets, all, fetched, i, cause, r);
    case ExtractionFailed(tap) => ExtractedInAll(inputs, targets, all, tap);
    case _ =>
  }

  lemma CompletesMeans(inputs: Inputs, targets: seq<Target>, all: map<TapId, TapCatalog>)
    requires Completes(inputs, targets, all)
    ensures ValidTargets(targets)
  {
    hide ValidTargets, Extracted, CompletedBy;
  }

  lemma ExtractedInAll(inputs: Inputs, targets: seq<Target>, all: map<TapId, TapCatalog>, tap: TapId)
    requires Completes(inputs, targets, all)
    ensures tap in all ==> inputs.extract(tap).Some?
  {
    hide ValidTargets, CompletedBy;
  }

  lemma FewDemanded(inputs: Inputs, targets: seq<Target>, all: map<TapId, TapCatalog>, known: set<TapId>)
    requires Completes(inputs, targets, all) && known <= all.Keys
    ensures !TooManyDemanded(inputs, targets, known)
  {
    hide ValidTargets, Extracted, TargetDone, DemandedBy, Acceptable, IndexesFormulae, IndexesMappings;
    var r, closures :| CompletedBy(inputs, targets, all, r, closures);
    forall taps: set<TapId> | AllDemandedBy(inputs, targets, known, taps) ensures |taps| <= MAX_TAPS {
      forall tap | tap in taps ensures tap in all.Keys {
        DemandedIsIn(inputs, targets, all, known, tap);
      }
      SubsetSize(taps, all.Keys);
    }
  }

  lemma PartHasNoReason(inputs: Inputs, targets: seq<Target>, all: map<TapId, TapCatalog>,
                        part: map<TapId, TapCatalog>, refusal: NewError)
    requires Completes(inputs, targets, all) && Extracted(inputs, part) && part.Keys <= all.Keys
    ensures !Reason(part, refusal)
  {
    hide ValidTargets, TargetDone, IndexesFormulae, IndexesMappings, ValidTapCatalog, Reason;
    var r, closures :| CompletedBy(inputs, targets, all, r, closures);
    forall tap | tap in part ensures Acceptable(part, tap) {
      assert tap in all.Keys;
      assert inputs.extract(tap) == Some(all[tap]) && inputs.extract(tap) == Some(part[tap]);
      assert Acceptable(r.catalogs, tap);
    }
    SubsetSize(part.Keys, all.Keys);
    AcceptableHasNoReason(part, refusal);
  }

  lemma PartHasNoFault(inputs: Inputs, targets: seq<Target>, all: map<TapId, TapCatalog>, fetched: seq<TapId>, i: nat,
                       cause: ResolveError, part: Resolver)
    requires Completes(inputs, targets, all) && Elems(fetched) <= all.Keys
    ensures !InvalidWith(inputs, targets, fetched, i, cause, part)
  {
    hide ValidTargets, WellBuilt, Fault, Assembled, ClosureCheck.ClosureOk, AllFound;
    if InvalidWith(inputs, targets, fetched, i, cause, part) {
      var r, closures :| CompletedBy(inputs, targets, all, r, closures);
      forall tap | tap in part.catalogs ensures tap in all && all[tap] == part.catalogs[tap] {
        assert tap in all.Keys;
        assert inputs.extract(tap) == Some(all[tap]) && inputs.extract(tap) == Some(part.catalogs[tap]);
      }
      assert Extends(part, r);
      FaultMono(part, r, RootsOf(targets[i]), targets[i].platform, cause);
      assert TargetDone(r, targets[i], closures[i]);
      ResolvedHasNoFault(r, RootsOf(targets[i]), targets[i].platform, closures[i], cause);
    }
  }

  /** Every run ends, fetching at most the tap limit and no tap twice, each because the documents
      before it demand it. On success the documents are exactly the taps recorded by the closures
      of all targets; on failure the error is true. `expired` stands for the context deadline at
      each turn. */
  method Generate(inputs: Inputs, targets: seq<Target>, expired: nat -> bool)
    returns (result: Generated, fetched: seq<TapId>)
    ensures NoRepeats(fetched) && |fetched| <= MAX_TAPS && FetchedInOrder(inputs, targets, fetched)
    ensures result.Generated? ==>
      && Elems(fetched) == result.catalogs.Keys && Extracted(inputs, result.catalogs)
      && Complete(inputs, targets, result.catalogs, result.closures) && Completes(inputs, targets, result.catalogs)
      && AllAnswered(targets, result.closures)
    ensures result.NotGenerated? ==> ErrorTrue(inputs, targets, expired, fetched, result.error)
  {
    hide Complete, Completes, AllDiscovered, ValidTargets, FetchedInOrder, TooManyDemanded, DemandedBy, InvalidWith,
      Extracted, Reason, NoRepeats, AllAnswered;
    fetched := [];
    NothingFetched(inputs, targets);
    if !ValidTargets(targets) {
      return NotGenerated(InvalidRequest), fetched;
    }
    var catalogs: map<TapId, TapCatalog> := map[];
    var pending := RootTapsOf(targets);
    RootTapsDiscovered(inputs, targets, catalogs);
    if |pending| > MAX_TAPS {
      TooManyRoots(inputs, targets);
      return NotGenerated(TapLimit), fetched;
    }
    assert catalogs.Keys + pending == pending;
    var turn := 0;
    while true
      invariant pending !! catalogs.Keys
      invariant |catalogs.Keys + pending| <= MAX_TAPS
      invariant AllDiscovered(inputs, targets, catalogs, catalogs.Keys + pending)
      invariant FetchLog(catalogs, fetched) && Extracted(inputs, catalogs) && FetchedInOrder(inputs, targets, fetched)
      decreases MAX_TAPS - |catalogs.Keys + pending|
    {
      if expired(turn) {
        return NotGenerated(TimedOut), fetched;
      }
      turn := turn + 1;
      var round;
      round, catalogs, fetched := Turn(inputs, targets, catalogs, pending, fetched);
      pending := {};
      match round
      case Stopped(error) =>
        return NotGenerated(error), fetched;
      case Finished(closures) =>
        CompleteCompletes(inputs, targets, catalogs, closures);
        CompleteAnswers(inputs, targets, catalogs, closures);
        return Generated(catalogs, closures), fetched;
      case Missing(tap) =>
        if tap == CORE_TAP || |catalogs| + |pending| >= MAX_TAPS {
          FullAndMissing(inputs, targets, catalogs, fetched, tap);
          return NotGenerated(TapLimit), fetched;
        }
        assert |catalogs.Keys + {tap}| == |catalogs.Keys| + 1;
        pending := {tap};
    }
  }

  lemma CompleteCompletes(inputs: Inputs, targets: seq<Target>, catalogs: map<TapId, TapCatalog>,
                          closures: seq<ClosureResult>)
    requires ValidTargets(targets) && Extracted(inputs, catalogs) && Complete(inputs, targets, catalogs, closures)
    ensures Completes(inputs, targets, catalogs)
  {
    hide ValidTargets, Extracted, CompletedBy, UnionOfTaps;
  }

  lemma NothingFetched(inputs: Inputs, targets: seq<Target>)
    ensures FetchedInOrder(inputs, targets, []) && Extracted(inputs, map[]) && FetchLog(map[], [])
    ensures NoRepeats<TapId>([])
  {
  }

  lemma TooManyRoots(inputs: Inputs, targets: seq<Target>)
    requires |RootTapsOf(targets)| > MAX_TAPS
    ensures TooManyDemanded(inputs, targets, Elems([]))
  {
    var none: map<TapId, TapCatalog> := map[];
    forall tap | tap in RootTapsOf(targets) ensures DemandedBy(inputs, targets, Elems([]), tap) {
      assert DiscoveredWith(inputs, targets, Elems([]), tap, none);
    }
    assert AllDemandedBy(inputs, targets, Elems([]), RootTapsOf(targets));
  }

  lemma FullAndMissing(inputs: Inputs, targets: seq<Target>, catalogs: map<TapId, TapCatalog>, fetched: seq<TapId>,
                       tap: TapId)
    requires FetchLog(catalogs, fetched) && Extracted(inputs, catalogs) && FetchedInOrder(inputs, targets, fetched)
    requires AllDiscovered(inputs, targets, catalogs, catalogs.Keys + {tap}) && tap !in catalogs
    requires |catalogs| >= MAX_TAPS
    ensures TooManyDemanded(inputs, targets, Elems(fetched))
  {
    hide Discovered, FetchedInOrder, TooManyDemanded, Extracted;
    NoRepeatsSize(fetched);
    assert DiscoveredWith(inputs, targets, Elems(fetched), tap, catalogs);
    OneTooMany(inputs, targets, fetched, tap);
  }

  lemma RootTapsDiscovered(inputs: Inputs, targets: seq<Target>, catalogs: map<TapId, TapCatalog>)
    requires catalogs == map[]
    ensures AllDiscovered(inputs, targets, catalogs, catalogs.Keys + RootTapsOf(targets))
  {
  }

  lemma MoreDiscovered(inputs: Inputs, targets: seq<Target>, catalogs: map<TapId, TapCatalog>, r: Resolver, tap: TapId)
    requires AllDiscovered(inputs, targets, catalogs, catalogs.Keys)
    requires BuiltFrom(inputs, catalogs, r)
    requires exists i | 0 <= i < |targets| :: Demands(r, RootsOf(targets[i]), targets[i].platform, tap)
    ensures AllDiscovered(inputs, targets, catalogs, catalogs.Keys + {tap})
  {
    hide WellBuilt, Demands;
    var i :| 0 <= i < |targets| && Demands(r, RootsOf(targets[i]), targets[i].platform, tap);
    assert DemandedWith(inputs, targets, catalogs, tap, r, i);
  }

  // ----- The payload checks on taps -----

  /** The two reached-tap checks of ValidateCatalogSetPayload. */
  method CheckReachedTaps(references: set<TapId>, closures: seq<ClosureResult>)
    returns (unsigned: set<TapId>, unreached: set<TapId>)
    ensures unsigned == UnionOfTaps(closures) - references
    ensures unreached == references - UnionOfTaps(closures)
  {
    var reached: set<TapId> := {};
    var i := 0;
    while i < |closures|
      invariant 0 <= i <= |closures|
      invariant reached == UnionOfTaps(closures[..i])
    {
      var problems, taps := ClosureCheck.CheckTaps(closures[i]);
      UnionSnoc(closures[..i], closures[i]);
      assert closures[..i + 1] == closures[..i] + [closures[i]];
      reached := reached + taps;
      i := i + 1;
    }
    assert closures[..i] == closures;
    return reached - references, references - reached;
  }

  lemma UnionSnoc(closures: seq<ClosureResult>, closure: ClosureResult)
    ensures UnionOfTaps(closures + [closure]) == UnionOfTaps(closures) + ClosureCheck.EffectiveTaps(closure)
  {
    hide ClosureCheck.EffectiveTaps;
    var longer := closures + [closure];
    assert forall i | 0 <= i < |closures| :: longer[i] == closures[i];
    assert longer[|closures|] == closure;
    forall tap | tap in UnionOfTaps(longer) ensures tap in UnionOfTaps(closures) + ClosureCheck.EffectiveTaps(closure) {
      var i :| 0 <= i < |longer| && tap in ClosureCheck.EffectiveTaps(longer[i]);
    }
    forall tap | tap in UnionOfTaps(closures) ensures tap in UnionOfTaps(longer) {
      var i :| 0 <= i < |closures| && tap in ClosureCheck.EffectiveTaps(closures[i]);
      assert longer[i] == closures[i];
    }
    forall tap | tap in ClosureCheck.EffectiveTaps(closure) ensures tap in UnionOfTaps(longer) {
      assert longer[|closures|] == closure;
    }
  }

  /** What Generate returns passes both payload checks on taps. */
  method GenerateForPayload(inputs: Inputs, targets: seq<Target>, expired: nat -> bool)
    returns (result: Generated, unsigned: set<TapId>, unreached: set<TapId>)
    ensures result.Generated? ==>
      && unsigned == UnionOfTaps(result.closures) - result.catalogs.Keys
      && unreached == result.catalogs.Keys - UnionOfTaps(result.closures)
    ensures unsigned == {} && unreached == {}
  {
    hide UnionOfTaps, TargetDone, BuiltFrom, NoRepeats, Elems;
    var fetched;
    result, fetched := Generate(inputs, targets, expired);
    unsigned, unreached := {}, {};
    if result.Generated? {
      unsigned, unreached := CheckReachedTaps(result.catalogs.Keys, result.closures);
    }
  }
}
