/** Aliases, renames and migrations: internal/catalogresolver/resolver.go, resolveMapping. */
module Mapping {
  import opened Identity

  type Mappings = map<FormulaId, FormulaId>

  /** The n-th identity met when mappings are followed from `id`; the walk rests where no
      mapping applies. */
  ghost function Orbit(m: Mappings, id: FormulaId, n: nat): FormulaId
    decreases n
  {
    if n == 0 || id !in m then id else Orbit(m, m[id], n - 1)
  }

  datatype Follow = Ends(last: FormulaId) | Loops

  /** The answer and the taps touched when mappings are followed with a memory of the
      identities already met. */
  function FollowFrom(m: Mappings, id: FormulaId, seen: set<FormulaId>): Follow
    requires seen <= m.Keys
    decreases m.Keys - seen
  {
    if id in seen then Loops
    else if id !in m then Ends(id)
    else FollowFrom(m, m[id], seen + {id})
  }

  function TapsFrom(m: Mappings, id: FormulaId, seen: set<FormulaId>): set<TapId>
    requires seen <= m.Keys
    decreases m.Keys - seen
  {
    var here := if IsCore(id) then {} else {id.tap};
    if id in seen || id !in m then here
    else here + TapsFrom(m, m[id], seen + {id})
  }

  function FollowMap(m: Mappings, id: FormulaId): Follow { FollowFrom(m, id, {}) }

  function MapTaps(m: Mappings, id: FormulaId): set<TapId> { TapsFrom(m, id, {}) }

  method ResolveMapping(m: Mappings, start: FormulaId, used: set<TapId>)
    returns (answer: Follow, used': set<TapId>)
    ensures answer == FollowMap(m, start)
    ensures used' == used + MapTaps(m, start)
  {
    var active: map<FormulaId, nat> := map[];
    var chain: seq<FormulaId> := [];
    var id := start;
    used' := used;
    assert active.Keys == {};
    while true
      invariant active.Keys <= m.Keys
      invariant FollowFrom(m, id, active.Keys) == FollowMap(m, start)
      invariant used' + TapsFrom(m, id, active.Keys) == used + MapTaps(m, start)
      decreases m.Keys - active.Keys
    {
      if !IsCore(id) {
        used' := used' + {id.tap};
      }
      if id in active {
        return Loops, used';
      }
      assert active[id := |chain|].Keys == active.Keys + {id};
      active := active[id := |chain|];
      chain := chain + [id];
      if id !in m {
        return Ends(id), used';
      }
      id := m[id];
    }
  }

  // ----- What the answer means -----

  /** A set of mapping sources that mapping never leaves traps the orbit. */
  lemma {:induction false} OrbitTrapped(m: Mappings, id: FormulaId, trap: set<FormulaId>, n: nat)
    requires trap <= m.Keys && id in trap && forall x | x in trap :: m[x] in trap
    ensures Orbit(m, id, n) in trap
    decreases n
  {
    if n > 0 {
      OrbitTrapped(m, m[id], trap, n - 1);
    }
  }

  lemma {:induction false} FollowFromEnds(m: Mappings, id: FormulaId, seen: set<FormulaId>)
    requires seen <= m.Keys
    ensures FollowFrom(m, id, seen).Ends? ==>
      FollowFrom(m, id, seen).last !in m && exists n: nat :: Orbit(m, id, n) == FollowFrom(m, id, seen).last
    decreases m.Keys - seen
  {
    if id in seen {
    } else if id !in m {
      assert Orbit(m, id, 0) == id;
    } else {
      FollowFromEnds(m, m[id], seen + {id});
      if FollowFrom(m, id, seen).Ends? {
        var n: nat :| Orbit(m, m[id], n) == FollowFrom(m, m[id], seen + {id}).last;
        assert Orbit(m, id, n + 1) == FollowFrom(m, id, seen).last;
      }
    }
  }

  /** When the walk loops, the identities it met are mapped among themselves. */
  lemma {:induction false} FollowFromLoops(m: Mappings, id: FormulaId, seen: set<FormulaId>)
    returns (trap: set<FormulaId>)
    requires seen <= m.Keys && FollowFrom(m, id, seen).Loops?
    requires forall x | x in seen :: m[x] in seen || m[x] == id
    ensures seen + {id} <= trap <= m.Keys && forall x | x in trap :: m[x] in trap
    decreases m.Keys - seen
  {
    if id in seen {
      trap := seen;
    } else {
      trap := FollowFromLoops(m, m[id], seen + {id});
    }
  }

  /** The orbit stays among the mapping sources. */
  ghost predicate NeverLeaves(m: Mappings, id: FormulaId) { forall n: nat :: Orbit(m, id, n) in m }

  /** Following mappings fails exactly when no number of steps leads to an identity without
      a mapping; otherwise the answer is that identity, which is never a mapping source. */
  lemma FollowMeaning(m: Mappings, id: FormulaId)
    ensures FollowMap(m, id).Loops? <==> NeverLeaves(m, id)
    ensures FollowMap(m, id).Ends? ==>
      FollowMap(m, id).last !in m && exists n: nat :: Orbit(m, id, n) == FollowMap(m, id).last
  {
    if FollowMap(m, id).Loops? {
      var trap := FollowFromLoops(m, id, {});
      forall n: nat ensures Orbit(m, id, n) in m {
        OrbitTrapped(m, id, trap, n);
      }
    } else {
      FollowFromEnds(m, id, {});
    }
  }

  /** A result is its own result: following twice changes nothing. */
  lemma FollowIdempotent(m: Mappings, id: FormulaId)
    requires FollowMap(m, id).Ends?
    ensures FollowMap(m, FollowMap(m, id).last) == FollowMap(m, id)
  {
    FollowMeaning(m, id);
  }

  // ----- More mappings -----

  ghost predicate SubMap(m: Mappings, m': Mappings) {
    forall x | x in m :: x in m' && m'[x] == m[x]
  }

  /** With more mappings the walk goes at least as far; an end that still has no mapping stays. */
  lemma {:induction false} FollowFromMono(m: Mappings, m': Mappings, id: FormulaId, seen: set<FormulaId>)
    requires SubMap(m, m') && seen <= m.Keys && seen <= m'.Keys
    ensures TapsFrom(m, id, seen) <= TapsFrom(m', id, seen)
    ensures FollowFrom(m, id, seen).Ends? && FollowFrom(m, id, seen).last !in m' ==>
      && FollowFrom(m', id, seen) == FollowFrom(m, id, seen)
      && TapsFrom(m', id, seen) == TapsFrom(m, id, seen)
    ensures FollowFrom(m, id, seen).Loops? ==> FollowFrom(m', id, seen).Loops?
    decreases m.Keys - seen
  {
    if id !in seen && id in m {
      FollowFromMono(m, m', m[id], seen + {id});
    }
  }

  /** The tap of a non-core start and of a non-core end are among the taps touched. */
  lemma {:induction false} EndsTouched(m: Mappings, id: FormulaId, seen: set<FormulaId>)
    requires seen <= m.Keys
    ensures !IsCore(id) ==> id.tap in TapsFrom(m, id, seen)
    ensures FollowFrom(m, id, seen).Ends? && !IsCore(FollowFrom(m, id, seen).last) ==>
      FollowFrom(m, id, seen).last.tap in TapsFrom(m, id, seen)
    decreases m.Keys - seen
  {
    if id !in seen && id in m {
      EndsTouched(m, m[id], seen + {id});
    }
  }

  /** Only taps of mapping sources and of the end are touched. */
  lemma {:induction false} TouchedTaps(m: Mappings, id: FormulaId, seen: set<FormulaId>, taps: set<TapId>)
    requires seen <= m.Keys
    requires forall x | x in m :: x.tap in taps
    requires FollowFrom(m, id, seen).Ends?
    requires (IsCore(FollowFrom(m, id, seen).last) || FollowFrom(m, id, seen).last.tap in taps)
    ensures TapsFrom(m, id, seen) <= taps
    decreases m.Keys - seen
  {
    if id !in seen && id in m {
      TouchedTaps(m, m[id], seen + {id}, taps);
    }
  }
}
