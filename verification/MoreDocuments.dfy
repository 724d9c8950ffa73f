/** What more tap documents change in a resolution, internal/catalogresolver/resolver.go: whatever
    was found stays found, whatever was needed stays needed, and every fault that is not a missing
    tap stays a fault. */
module MoreDocuments {
  import opened Identity
  import opened Catalog
  import opened Sorting
  import opened Digraph
  import opened TapCatalogs
  import opened Lookups
  import opened Resolution

  // ----- What is found and needed -----

  lemma OpenedMono(q: Query, q': Query, id: FormulaId)
    requires Extends(q.r, q'.r) && q'.platform == q.platform && q'.roots == q.roots
    ensures OpenedAt(q, id).Opened? ==> OpenedAt(q', id) == OpenedAt(q, id)
  {
    hide WellBuilt, LookupTaps;
    LookupMono(q.r, q'.r, id);
  }

  lemma TargetsMono(q: Query, q': Query, id: FormulaId)
    requires Extends(q.r, q'.r) && q'.platform == q.platform && q'.roots == q.roots
    ensures Targets(q, id) <= Targets(q', id) && WantedTaps(q, id) <= WantedTaps(q', id)
  {
    hide WellBuilt, Normalize, NormalizeTaps, OpenedAt;
    OpenedMono(q, q', id);
    if OpenedAt(q, id).Opened? {
      var wanted := OpenedAt(q, id).wanted;
      forall k | 0 <= k < |wanted|
        ensures Normalize(q.r, id.tap, wanted[k].raw).Found? ==>
          Normalize(q'.r, id.tap, wanted[k].raw) == Normalize(q.r, id.tap, wanted[k].raw)
        ensures NormalizeTaps(q.r, id.tap, wanted[k].raw) <= NormalizeTaps(q'.r, id.tap, wanted[k].raw)
      {
        NormalizeMono(q.r, q'.r, id.tap, wanted[k].raw);
      }
      forall x | x in Targets(q, id) ensures x in Targets(q', id) {
        var k :| 0 <= k < |wanted| && TargetLookup(q, id, k).Found? && TargetLookup(q, id, k).id == x;
        assert TargetLookup(q', id, k).id == x;
      }
    }
  }

  lemma NeededMono(q: Query, q': Query, id: FormulaId)
    requires Extends(q.r, q'.r) && q'.platform == q.platform && q'.roots == q.roots && Needed(q, id)
    ensures Needed(q', id)
  {
    hide WellBuilt, Targets, Extends;
    forall x ensures QueryEdges(q)(x) <= QueryEdges(q')(x) {
      TargetsMono(q, q', x);
    }
    var a :| a in q.roots && Reaches(QueryEdges(q), a, id);
    ReachesMono(QueryEdges(q), QueryEdges(q'), a, id);
  }

  lemma RootsMono(r: Resolver, r': Resolver, raws: seq<FormulaId>)
    requires Extends(r, r')
    ensures RootTaps(r, raws) <= RootTaps(r', raws)
    ensures AllFound(r, raws) ==> AllFound(r', raws) && FoundIds(r', raws) == FoundIds(r, raws)
  {
    hide WellBuilt, LookupExact, LookupTaps, Extends;
    forall k | 0 <= k < |raws|
      ensures LookupTaps(r, raws[k]) <= LookupTaps(r', raws[k])
      ensures LookupExact(r, raws[k]).Found? ==> LookupExact(r', raws[k]) == LookupExact(r, raws[k])
    {
      LookupMono(r, r', raws[k]);
    }
  }

  // ----- Faults -----

  ghost predicate SameQuery(q: Query, q': Query) {
    Extends(q.r, q'.r) && q'.platform == q.platform && q'.roots == q.roots
  }

  /** The error is not that a document is missing. */
  predicate NotMissing(error: ResolveError) {
    match error
    case RootFailed(_, e) => !e.MissingTap?
    case DependencyFailed(_, _, e) => !e.MissingTap?
    case NodeLookupFailed(_, e) => !e.MissingTap?
    case _ => true
  }

  /** An identity found under itself opens, or is refused, as before. */
  lemma OpenedSame(q: Query, q': Query, id: FormulaId)
    requires SameQuery(q, q') && LookupExact(q.r, id).Found?
    ensures OpenedAt(q', id) == OpenedAt(q, id)
  {
    hide WellBuilt, LookupTaps;
    LookupMono(q.r, q'.r, id);
  }

  lemma NodeSame(q: Query, q': Query, id: FormulaId)
    requires SameQuery(q, q') && NodeResolves(q, id)
    ensures NodeResolves(q', id) && NodeOf(q', id) == NodeOf(q, id)
  {
    hide WellBuilt, Normalize, NormalizeTaps, OpenedAt, Sort, Extends;
    OpenedMono(q, q', id);
    var wanted := OpenedAt(q, id).wanted;
    forall k | 0 <= k < |wanted|
      ensures Normalize(q'.r, id.tap, wanted[k].raw) == Normalize(q.r, id.tap, wanted[k].raw)
    {
      NormalizeMono(q.r, q'.r, id.tap, wanted[k].raw);
    }
    assert RequirementsOf(q'.r, id, wanted) == RequirementsOf(q.r, id, wanted);
  }

  /** A dependency lookup that did not miss a document comes out as before. */
  lemma TargetSame(q: Query, q': Query, id: FormulaId, k: nat)
    requires SameQuery(q, q') && OpenedAt(q, id).Opened? && k < |OpenedAt(q, id).wanted|
    requires TargetLookup(q, id, k).Failed? ==> !TargetLookup(q, id, k).error.MissingTap?
    ensures OpenedAt(q', id) == OpenedAt(q, id) && TargetLookup(q', id, k) == TargetLookup(q, id, k)
  {
    hide WellBuilt, Normalize, NormalizeTaps, OpenedAt, Extends;
    OpenedMono(q, q', id);
    var raw := OpenedAt(q, id).wanted[k].raw;
    NormalizeMono(q.r, q'.r, id.tap, raw);
    if TargetLookup(q, id, k).Failed? {
      NormalizeFailsMono(q.r, q'.r, id.tap, raw);
    }
  }

  lemma CycleSame(q: Query, q': Query, cycle: seq<FormulaId>)
    requires SameQuery(q, q') && IsCycle(QueryEdges(q), cycle)
    ensures IsCycle(QueryEdges(q'), cycle)
  {
    hide WellBuilt, Targets, Extends;
    var e, f := QueryEdges(q), QueryEdges(q');
    forall i | 0 <= i < |cycle| - 1 ensures Step(f, cycle, i) {
      assert Step(e, cycle, i);
      TargetsMono(q, q', cycle[i]);
    }
  }

  lemma ManySame(q: Query, q': Query)
    requires SameQuery(q, q') && ManyNeeded(q)
    ensures ManyNeeded(q')
  {
    hide WellBuilt, Needed, Extends;
    var ids: set<FormulaId> :| |ids| > MAX_CLOSURE_NODES && AllNeeded(q, ids);
    forall id | id in ids ensures Needed(q', id) {
      NeededMono(q, q', id);
    }
  }

  lemma QueryFaultMono(q: Query, q': Query, error: ResolveError)
    requires SameQuery(q, q') && QueryFault(q, error) && NotMissing(error)
    requires !error.NodeLookupFailed? && !error.NotItself?
    requires error.NodeShut? ==> LookupExact(q.r, error.id).Found?
    ensures QueryFault(q', error)
  {
    hide WellBuilt, Needed, Extends, OpenedAt, LookupExact, NodeOf, NodeResolves, TargetLookup, ManyNeeded, IsPath;
    match error
    case TooManyNodes => ManySame(q, q');
    case NodeShut(id) =>
      NeededMono(q, q', id);
      OpenedSame(q, q', id);
    case DependencyFailed(id, k, _) =>
      NeededMono(q, q', id);
      TargetSame(q, q', id, k);
    case SignedMismatch(id, k) =>
      NeededMono(q, q', id);
      TargetSame(q, q', id, k);
    case RackCollision(a, b) =>
      NeededMono(q, q', a);
      NeededMono(q, q', b);
      NodeSame(q, q', a);
      NodeSame(q, q', b);
    case Cyclic(cycle) =>
      NeededMono(q, q', cycle[0]);
      CycleSame(q, q', cycle);
    case InvalidNode => InvalidSame(q, q');
    case _ =>
  }

  lemma InvalidSame(q: Query, q': Query)
    requires SameQuery(q, q') && QueryFault(q, InvalidNode)
    ensures QueryFault(q', InvalidNode)
  {
    hide Needed, NodeOf, NodeResolves, Extends;
    var id :| Needed(q, id) && NodeResolves(q, id) && !ClosureCheck.NodeOk(NodeOf(q, id));
    NeededMono(q, q', id);
    NodeSame(q, q', id);
  }

  /** With more documents a request keeps every fault that is not a missing tap. */
  lemma FaultMono(r: Resolver, r': Resolver, raws: seq<FormulaId>, platform: Platform, error: ResolveError)
    requires Extends(r, r') && Fault(r, raws, platform, error) && NotMissing(error)
    ensures Fault(r', raws, platform, error)
  {
    hide WellBuilt, LookupExact, QueryFault, Extends;
    CanonicalErrorsCannotOccur(r, raws, platform, error);
    if error.RootFailed? {
      LookupFailsMono(r, r', raws[error.k]);
    } else if error.DuplicateRoot? {
      LookupMono(r, r', raws[error.i]);
      LookupMono(r, r', raws[error.j]);
    } else if !error.NoRoots? {
      RootsMono(r, r', raws);
      var q, q' := QueryOf(r, raws, platform), QueryOf(r', raws, platform);
      if error.NodeShut? {
        ShutIsNeeded(q, error);
        NeededIsCanonical(q, raws, error.id);
      }
      QueryFaultMono(q, q', error);
    }
  }

  lemma ShutIsNeeded(q: Query, error: ResolveError)
    requires error.NodeShut? && QueryFault(q, error)
    ensures Needed(q, error.id)
  {
    hide Needed;
  }
}
