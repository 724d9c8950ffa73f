/** Checking and resolving the links of a bottle archive in place:
    internal/bottle/verify.go, validateCollisionsAndHardlinks. */
module ArchiveLinks {
  import opened Wrappers
  import opened Digraph
  import opened LinkPaths
  import opened SymbolicLinks
  import opened HardLinks

  // ----- What the pass leaves behind -----

  /** A hardlink entry holds the regular file its chain over the scanned entries ends at, and
      that file's content; every other entry is as the symlink pass left it. */
  ghost predicate EntryDone(keg: Path, allowed: (Path, string) -> bool, scanned: Entries, path: Path, entry: Entry)
    requires path in scanned
  {
    if scanned[path].kind.Hardlink? then exists n: nat, end :: HardlinkDoneBy(keg, scanned, path, entry, n, end)
    else LinkDone(keg, allowed, scanned, path, entry)
  }

  ghost predicate HardlinkDoneBy(keg: Path, scanned: Entries, path: Path, entry: Entry, n: nat, end: Path)
    requires path in scanned
  {
    && n > 0 && ChainEnd(scanned, keg, path, n, end)
    && end in scanned
    && entry == scanned[path].(resolvedTarget := Some(end), content := scanned[end].content)
  }

  ghost predicate HardlinksDone(keg: Path, allowed: (Path, string) -> bool, scanned: Entries, now: Entries,
                                done: set<Path>) {
    && now.Keys == scanned.Keys
    && (forall path | path in scanned && (path in done || !scanned[path].kind.Hardlink?) ::
          EntryDone(keg, allowed, scanned, path, now[path]))
    && (forall path | path in scanned && path !in done && scanned[path].kind.Hardlink? :: now[path] == scanned[path])
  }

  lemma HardlinksAnnotated(keg: Path, allowed: (Path, string) -> bool, scanned: Entries, now: Entries, done: set<Path>)
    requires HardlinksDone(keg, allowed, scanned, now, done) && [] !in scanned
    ensures Annotated(keg, scanned, now)
  {
    hide Resolves, LinkDone, Recorded;
    forall path | path in scanned ensures Recorded(keg, scanned, path, now[path]) {
      EntryIsRecorded(keg, allowed, scanned, path, now[path]);
    }
  }

  lemma EntryIsRecorded(keg: Path, allowed: (Path, string) -> bool, scanned: Entries, path: Path, entry: Entry)
    requires path in scanned && path != []
    requires entry == scanned[path] || EntryDone(keg, allowed, scanned, path, entry)
    ensures Recorded(keg, scanned, path, entry)
  {
    hide LinkDone, ChainEnd;
    if entry != scanned[path] {
      if scanned[path].kind.Hardlink? {
        var n: nat, end :| HardlinkDoneBy(keg, scanned, path, entry, n, end);
      } else {
        DoneIsRecorded(keg, allowed, scanned, path, entry);
      }
    }
  }

  /** The entries, updated in place, and the maps of the hardlink recursion. */
  class Archive {
    const keg: Path
    const limit: nat
    const allowed: (Path, string) -> bool
    var entries: Entries
    var hardResolved: map<Path, Path>
    var visiting: set<Path>
    ghost const scanned: Entries

    constructor (keg: Path, limit: nat, allowed: (Path, string) -> bool, entries: Entries)
      ensures this.keg == keg && this.limit == limit && this.allowed == allowed
      ensures this.entries == entries && this.scanned == entries && hardResolved == map[] && visiting == {}
    {
      this.keg, this.limit, this.allowed, this.entries, this.scanned := keg, limit, allowed, entries, entries;
      this.hardResolved, this.visiting := map[], {};
    }

    /** In any order, accepts exactly when every link passes in its place. */
    method ResolveSymlinks(paths: seq<Path>) returns (ok: bool)
      requires entries == scanned && [] !in scanned && Elems(paths) == scanned.Keys && NoRepeats(paths)
      modifies this`entries
      ensures ok <==> AllLinksPass(keg, limit, allowed, scanned, paths)
      ensures ok ==> LinksDone(keg, allowed, scanned, entries, scanned.Keys)
    {
      hide LinkDone, Annotated, LinkPasses, RecordedIn, Leaving, NoRepeats;
      for i := 0 to |paths|
        invariant LinksDone(keg, allowed, scanned, entries, Elems(paths[..i]))
        invariant forall j | 0 <= j < i && paths[j] in scanned ::
          LinkPasses(keg, limit, allowed, scanned, paths[j], Elems(paths[..j]))
      {
        var path := paths[i];
        NextPath(paths, i);
        DoneIsAnnotated(keg, allowed, scanned, entries, Elems(paths[..i]));
        RecordedIsLeaving(keg, allowed, scanned, entries, Elems(paths[..i]));
        var fixed := ResolveLink(keg, limit, allowed, scanned, Elems(paths[..i]), entries, path);
        if fixed.None? {
          return false;
        }
        entries := entries[path := fixed.value];
      }
      assert paths[..|paths|] == paths;
      return true;
    }

    ghost predicate OnTheWay(name: Path)
      reads this`visiting
    {
      forall path | path in visiting :: LeadsTo(scanned, keg, path, name)
    }

    /** Accepts exactly when the depth left leads over accepted hops to a file or to a remembered
        path, and then remembers exactly the chain from here. */
    method ResolveHardlink(name: Path, depth: nat) returns (target: Option<Path>)
      requires Annotated(keg, scanned, entries) && Remembered(scanned, keg, hardResolved) && OnTheWay(name)
      modifies this`hardResolved, this`visiting
      ensures Remembered(scanned, keg, hardResolved) && visiting == old(visiting)
      ensures target.Some? <==> StopsWithin(scanned, keg, limit, old(hardResolved).Keys, name, limit - depth)
      ensures target.Some? ==> exists n: nat :: ChainEnd(scanned, keg, name, n, target.value)
      ensures target.Some? ==>
        forall path :: path in hardResolved <==> path in old(hardResolved) || OnChain(scanned, keg, name, path)
      ensures target.None? ==> hardResolved == old(hardResolved)
      decreases limit + 1 - depth
    {
      hide Annotated, ChainEnd, LeadsTo, Stops, StopsWithin, OnChain, HoldsChains;
      if depth > limit {
        NoBudget(scanned, keg, limit, hardResolved.Keys, name, limit - depth);
        return None;
      }
      if name in hardResolved {
        StopsNow(scanned, keg, limit, hardResolved.Keys, name, limit - depth);
        HoldsChain(scanned, keg, hardResolved.Keys, name);
        return Some(hardResolved[name]);
      }
      if name in visiting {
        CircleNeverStops(scanned, keg, limit, hardResolved, name, limit - depth);
        return None;
      }
      if name !in entries {
        KeysSame(keg, scanned, entries);
        OthersNeverStop(scanned, keg, limit, hardResolved.Keys, name, limit - depth);
        return None;
      }
      visiting := visiting + {name};
      target := ResolveEntry(name, depth);
      visiting := visiting - {name};
    }

    /** The cases on the kind of the entry. */
    method ResolveEntry(name: Path, depth: nat) returns (target: Option<Path>)
      requires Annotated(keg, scanned, entries) && Remembered(scanned, keg, hardResolved)
      requires name in entries && name !in hardResolved && depth <= limit && name in visiting
      requires forall path | path in visiting && path != name :: LeadsTo(scanned, keg, path, name)
      modifies this`hardResolved, this`visiting
      ensures Remembered(scanned, keg, hardResolved) && visiting == old(visiting)
      ensures target.Some? <==> StopsWithin(scanned, keg, limit, old(hardResolved).Keys, name, limit - depth)
      ensures target.Some? ==> exists n: nat :: ChainEnd(scanned, keg, name, n, target.value)
      ensures target.Some? ==>
        forall path :: path in hardResolved <==> path in old(hardResolved) || OnChain(scanned, keg, name, path)
      ensures target.None? ==> hardResolved == old(hardResolved)
      decreases limit + 1 - depth, 0
    {
      hide Annotated, ChainEnd, LeadsTo, Stops, StopsWithin, OnChain, AcceptedHop, Hop, Remembered;
      KindSame(keg, scanned, entries, name);
      match entries[name].kind {
        case Regular =>
          StopsNow(scanned, keg, limit, hardResolved.Keys, name, limit - depth);
          RememberFile(scanned, keg, hardResolved, name);
          hardResolved := hardResolved[name := name];
          return Some(name);
        case Hardlink =>
          StopsByHop(scanned, keg, limit, hardResolved.Keys, name, limit - depth);
          var next := ResolveHop(keg, limit, scanned, entries, name);
          if next.None? {
            return None;
          }
          OnlyHop(scanned, keg, limit, name, next.value);
          AcrossHop(name, next.value);
          target := ResolveHardlink(next.value, depth + 1);
          if target.None? {
            return None;
          }
          RememberLink(scanned, keg, old(hardResolved), hardResolved, name, next.value, target.value);
          hardResolved := hardResolved[name := target.value];
        case Directory =>
          OthersNeverStop(scanned, keg, limit, hardResolved.Keys, name, limit - depth);
          return None;
        case Symlink =>
          OthersNeverStop(scanned, keg, limit, hardResolved.Keys, name, limit - depth);
          return None;
      }
    }

    lemma AcrossHop(name: Path, next: Path)
      requires Hop(scanned, keg, name, next) && name in visiting
      requires forall path | path in visiting && path != name :: LeadsTo(scanned, keg, path, name)
      ensures OnTheWay(next)
    {
      hide Hop, LeadsTo;
      forall path | path in visiting ensures LeadsTo(scanned, keg, path, next) {
        ChainGoesOn(scanned, keg, path, name, next);
      }
    }

    /** In any order, accepts exactly when every hard link passes in its place. */
    method ResolveHardlinks(paths: seq<Path>) returns (ok: bool)
      requires LinksDone(keg, allowed, scanned, entries, scanned.Keys) && [] !in scanned
      requires Elems(paths) == scanned.Keys && NoRepeats(paths)
      modifies this`entries, this`hardResolved, this`visiting
      ensures ok <==> AllHardlinksPass(keg, limit, scanned, paths)
      ensures ok ==>
        && entries.Keys == scanned.Keys
        && forall path | path in scanned :: EntryDone(keg, allowed, scanned, path, entries[path])
    {
      hide EntryDone, LinkDone, Annotated, HardlinksDone, LinksDone, NoRepeats, HardlinkPasses, Remembered, Behind;
      hardResolved, visiting := map[], {};
      AfterSymlinks(keg, allowed, scanned, entries);
      assert Elems(paths[..0]) == {};
      NothingRemembered(keg, scanned);
      for i := 0 to |paths|
        invariant HardlinksDone(keg, allowed, scanned, entries, Elems(paths[..i]))
        invariant Remembered(scanned, keg, hardResolved) && visiting == {}
        invariant hardResolved.Keys == Behind(keg, scanned, Elems(paths[..i]))
        invariant forall j | 0 <= j < i && paths[j] in scanned && scanned[paths[j]].kind.Hardlink? ::
          HardlinkPasses(keg, limit, scanned, paths[j], Elems(paths[..j]))
      {
        var path := paths[i];
        NextPath(paths, i);
        HardlinksAnnotated(keg, allowed, scanned, entries, Elems(paths[..i]));
        KeysSame(keg, scanned, entries);
        KindSame(keg, scanned, entries, path);
        if entries[path].kind.Hardlink? {
          var end := ResolveOne(path, Elems(paths[..i]));
          if end.None? {
            return false;
          }
          var file := entries[end.value];
          HardlinkIsDone(keg, allowed, scanned, entries, Elems(paths[..i]), path, end.value);
          entries := entries[path := entries[path].(resolvedTarget := Some(end.value), content := file.content)];
        } else {
          PassedOver(keg, allowed, scanned, entries, Elems(paths[..i]), path);
          BehindSame(keg, scanned, Elems(paths[..i]), path);
        }
      }
      assert paths[..|paths|] == paths;
      AllHardlinksDone(keg, allowed, scanned, entries);
      return true;
    }

    /** The file a hardlink entry names. */
    method ResolveOne(path: Path, ghost done: set<Path>) returns (end: Option<Path>)
      requires Annotated(keg, scanned, entries) && Remembered(scanned, keg, hardResolved) && visiting == {}
      requires hardResolved.Keys == Behind(keg, scanned, done)
      requires path in entries && path in scanned && scanned[path].kind.Hardlink?
      modifies this`hardResolved, this`visiting
      ensures Remembered(scanned, keg, hardResolved) && visiting == {}
      ensures end.Some? <==> HardlinkPasses(keg, limit, scanned, path, done)
      ensures end.Some? ==> hardResolved.Keys == Behind(keg, scanned, done + {path})
      ensures end.Some? ==> exists n: nat :: n > 0 && ChainEnd(scanned, keg, path, n, end.value)
      ensures end.Some? ==> end.value in entries && end.value in scanned && scanned[end.value].kind.Regular?
    {
      hide Annotated, ChainEnd, StopsWithin, OnChain, AcceptedHop, Hop, Remembered, Behind, LeadsTo;
      KeysSame(keg, scanned, entries);
      var next := ResolveHop(keg, limit, scanned, entries, path);
      if next.None? {
        return None;
      }
      OnlyHop(scanned, keg, limit, path, next.value);
      end := ResolveHardlink(next.value, 1);
      if end.None? {
        return None;
      }
      ghost var n: nat :| ChainEnd(scanned, keg, next.value, n, end.value);
      ChainCons(scanned, keg, path, next.value, n, end.value);
      ChainStaysInKeg(scanned, keg, path, n + 1, end.value);
      BehindGrows(keg, scanned, done, hardResolved, path, next.value);
    }

    /** The whole check: accepts exactly the archives laid out in directories whose symbolic and
        hard links all pass, in the order of their paths, and leaves every entry done. */
    method Validate() returns (ok: bool)
      requires entries == scanned && [] !in scanned
      modifies this`entries, this`hardResolved, this`visiting
      ensures forall paths | IsListing(scanned, paths) :: ok <==> AllPass(keg, limit, allowed, scanned, paths)
      ensures ok ==>
        && Layered(scanned) && entries.Keys == scanned.Keys
        && forall path | path in scanned :: EntryDone(keg, allowed, scanned, path, entries[path])
      ensures AllGood(keg, limit, allowed, scanned) ==> ok
    {
      hide EntryDone, LinkDone, AncestorsOk, AllLinksPass, AllHardlinksPass, LinksDone, Layered, AllGood, IsListing;
      var paths := ListPaths(entries);
      OnlyListing(scanned, paths);
      GoodPassesAll(keg, limit, allowed, scanned, paths);
      ok := CheckAncestors(entries, paths);
      if !ok {
        return;
      }
      ok := ResolveSymlinks(paths);
      if !ok {
        return;
      }
      ok := ResolveHardlinks(paths);
    }
  }

  ghost predicate AllPass(keg: Path, limit: nat, allowed: (Path, string) -> bool, scanned: Entries, paths: seq<Path>) {
    && Layered(scanned)
    && AllLinksPass(keg, limit, allowed, scanned, paths)
    && AllHardlinksPass(keg, limit, scanned, paths)
  }

  /** Every link is good on the scanned entries alone. */
  ghost predicate AllGood(keg: Path, limit: nat, allowed: (Path, string) -> bool, scanned: Entries) {
    && Layered(scanned)
    && (forall path | path in scanned && Unresolved(scanned, path) :: GoodLink(keg, limit, allowed, scanned, path))
    && (forall path | path in scanned && scanned[path].kind.Hardlink? :: GoodHardlink(keg, limit, scanned, path))
  }

  /** If every link is good by itself, every order of the pass accepts. */
  lemma GoodPassesAll(keg: Path, limit: nat, allowed: (Path, string) -> bool, scanned: Entries, paths: seq<Path>)
    ensures AllGood(keg, limit, allowed, scanned) ==> AllPass(keg, limit, allowed, scanned, paths)
  {
    hide GoodLink, GoodHardlink, HardlinkPasses, PassesWith, Layered;
    if AllGood(keg, limit, allowed, scanned) {
      forall i | 0 <= i < |paths| && paths[i] in scanned
        ensures LinkPasses(keg, limit, allowed, scanned, paths[i], Elems(paths[..i]))
      {
        if Unresolved(scanned, paths[i]) {
          GoodPasses(keg, limit, allowed, scanned, paths[i], Elems(paths[..i]));
        }
      }
      forall i | 0 <= i < |paths| && paths[i] in scanned && scanned[paths[i]].kind.Hardlink?
        ensures HardlinkPasses(keg, limit, scanned, paths[i], Elems(paths[..i]))
      {
        GoodHardlinkPasses(keg, limit, scanned, paths[i], Elems(paths[..i]));
      }
    }
  }

  lemma OnlyListing(entries: Entries, paths: seq<Path>)
    requires IsListing(entries, paths)
    ensures Elems(paths) == entries.Keys && NoRepeats(paths)
    ensures forall other | IsListing(entries, other) :: other == paths
  {
    forall other | IsListing(entries, other) ensures other == paths {
      ListingUnique(entries, paths, other);
    }
  }

  // ----- Remembering -----

  lemma NoBudget(scanned: Entries, keg: Path, limit: nat, memo: set<Path>, path: Path, budget: int)
    requires budget < 0
    ensures !StopsWithin(scanned, keg, limit, memo, path, budget)
  {
  }

  lemma OnlyHop(scanned: Entries, keg: Path, limit: nat, path: Path, next: Path)
    requires AcceptedHop(scanned, keg, limit, path, next)
    ensures Hop(scanned, keg, path, next)
    ensures forall other | AcceptedHop(scanned, keg, limit, path, other) :: other == next
  {
    hide Hop, AcceptedHop;
    AcceptedIsHop(scanned, keg, limit, path, next);
    forall other | AcceptedHop(scanned, keg, limit, path, other) ensures other == next {
      AcceptedHopOnce(scanned, keg, limit, path, next, other);
    }
  }

  lemma ChainCons(scanned: Entries, keg: Path, path: Path, next: Path, n: nat, end: Path)
    requires Hop(scanned, keg, path, next) && ChainEnd(scanned, keg, next, n, end)
    ensures ChainEnd(scanned, keg, path, n + 1, end)
  {
    hide Hop;
  }

  lemma RememberFile(scanned: Entries, keg: Path, memo: map<Path, Path>, name: Path)
    requires Remembered(scanned, keg, memo) && name in scanned && scanned[name].kind.Regular?
    ensures ChainEnd(scanned, keg, name, 0, name) && Remembered(scanned, keg, memo[name := name])
    ensures forall path :: OnChain(scanned, keg, name, path) <==> path == name
  {
    hide Resolves;
    forall next ensures !Hop(scanned, keg, name, next) {}
    forall path, k: nat | k > 0 ensures !HopPath(scanned, keg, name, k, path) {}
    var after := memo[name := name];
    assert ChainEnd(scanned, keg, name, 0, name);
    forall path | path in after ensures exists n: nat :: ChainEnd(scanned, keg, path, n, after[path]) {
      if path != name {
        assert path in memo;
      }
    }
    assert HoldsChains(scanned, keg, after.Keys);
  }

  /** A hard link is remembered with the chain behind it. */
  lemma RememberLink(scanned: Entries, keg: Path, before: map<Path, Path>, memo: map<Path, Path>, name: Path,
                     next: Path, end: Path)
    requires Hop(scanned, keg, name, next) && Remembered(scanned, keg, memo)
    requires exists n: nat :: ChainEnd(scanned, keg, next, n, end)
    requires forall path :: path in memo <==> path in before || OnChain(scanned, keg, next, path)
    ensures exists n: nat :: ChainEnd(scanned, keg, name, n, end)
    ensures Remembered(scanned, keg, memo[name := end])
    ensures forall path :: path in memo[name := end] <==> path in before || OnChain(scanned, keg, name, path)
  {
    hide Hop, ChainEnd, LeadsTo;
    var n: nat :| ChainEnd(scanned, keg, next, n, end);
    ChainCons(scanned, keg, name, next, n, end);
    ChainSplits(scanned, keg, name, next);
    var after := memo[name := end];
    forall path, other | path in after && Hop(scanned, keg, path, other) ensures other in after {
      if path == name {
        HopOnce(scanned, keg, name, next, other);
      }
    }
    forall path | path in after ensures exists m: nat :: ChainEnd(scanned, keg, path, m, after[path]) {
      if path != name {
        assert path in memo;
      }
    }
  }

  lemma NothingRemembered(keg: Path, scanned: Entries)
    ensures Remembered(scanned, keg, map[]) && Behind(keg, scanned, {}) == {}
  {
  }

  lemma BehindSame(keg: Path, scanned: Entries, done: set<Path>, path: Path)
    requires path in scanned && !scanned[path].kind.Hardlink?
    ensures Behind(keg, scanned, done + {path}) == Behind(keg, scanned, done)
  {
    hide LeadsTo;
    forall p ensures IsBehind(keg, scanned, done + {path}, p) <==> IsBehind(keg, scanned, done, p) {}
  }

  lemma BehindGrows(keg: Path, scanned: Entries, done: set<Path>, memo: map<Path, Path>, path: Path, next: Path)
    requires path in scanned && scanned[path].kind.Hardlink? && Hop(scanned, keg, path, next)
    requires Remembered(scanned, keg, memo)
    requires forall p :: p in memo <==> p in Behind(keg, scanned, done) || OnChain(scanned, keg, next, p)
    ensures memo.Keys == Behind(keg, scanned, done + {path})
  {
    hide LeadsTo, Hop, ChainEnd, HoldsChains;
    ChainSplits(scanned, keg, path, next);
    forall p ensures IsBehind(keg, scanned, done + {path}, p) <==>
      IsBehind(keg, scanned, done, p) || LeadsTo(scanned, keg, path, p) {}
    forall p | p in memo ensures p in scanned {
      var n: nat :| ChainEnd(scanned, keg, p, n, memo[p]);
      EndInScan(scanned, keg, p, n, memo[p]);
    }
  }

  lemma EndInScan(scanned: Entries, keg: Path, path: Path, n: nat, end: Path)
    requires ChainEnd(scanned, keg, path, n, end)
    ensures path in scanned
  {
  }

  lemma AfterSymlinks(keg: Path, allowed: (Path, string) -> bool, scanned: Entries, now: Entries)
    requires LinksDone(keg, allowed, scanned, now, scanned.Keys)
    ensures HardlinksDone(keg, allowed, scanned, now, {})
  {
    hide Resolves, ChainEnd;
    forall path | path in scanned && scanned[path].kind.Hardlink? ensures now[path] == scanned[path] {
      assert LinkDone(keg, allowed, scanned, path, now[path]);
    }
    forall path | path in scanned && !scanned[path].kind.Hardlink?
      ensures EntryDone(keg, allowed, scanned, path, now[path])
    {
      assert LinkDone(keg, allowed, scanned, path, now[path]);
    }
  }

  lemma HardlinkIsDone(keg: Path, allowed: (Path, string) -> bool, scanned: Entries, now: Entries, done: set<Path>,
                       path: Path, end: Path)
    requires HardlinksDone(keg, allowed, scanned, now, done) && path in scanned && path !in done
    requires scanned[path].kind.Hardlink? && end in scanned && scanned[end].kind.Regular?
    requires exists n: nat :: n > 0 && ChainEnd(scanned, keg, path, n, end)
    ensures path in now && end in now
    ensures HardlinksDone(keg, allowed, scanned,
                          now[path := now[path].(resolvedTarget := Some(end), content := now[end].content)],
                          done + {path})
  {
    hide ChainEnd, Resolves, LinkDone, HardlinkDoneBy;
    var entry := now[path].(resolvedTarget := Some(end), content := now[end].content);
    FileUnchanged(keg, allowed, scanned, end, now[end]);
    var n: nat :| n > 0 && ChainEnd(scanned, keg, path, n, end);
    HardlinkDone(keg, scanned, path, entry, n, end);
  }

  lemma HardlinkDone(keg: Path, scanned: Entries, path: Path, entry: Entry, n: nat, end: Path)
    requires path in scanned && n > 0 && ChainEnd(scanned, keg, path, n, end) && end in scanned
    requires entry == scanned[path].(resolvedTarget := Some(end), content := scanned[end].content)
    ensures HardlinkDoneBy(keg, scanned, path, entry, n, end)
  {
    hide ChainEnd;
  }

  lemma FileUnchanged(keg: Path, allowed: (Path, string) -> bool, scanned: Entries, path: Path, entry: Entry)
    requires path in scanned && scanned[path].kind.Regular? && EntryDone(keg, allowed, scanned, path, entry)
    ensures entry == scanned[path]
  {
  }

  lemma PassedOver(keg: Path, allowed: (Path, string) -> bool, scanned: Entries, now: Entries, done: set<Path>,
                   path: Path)
    requires HardlinksDone(keg, allowed, scanned, now, done) && path in scanned && !scanned[path].kind.Hardlink?
    ensures HardlinksDone(keg, allowed, scanned, now, done + {path})
  {
    hide EntryDone;
  }

  lemma AllHardlinksDone(keg: Path, allowed: (Path, string) -> bool, scanned: Entries, now: Entries)
    requires HardlinksDone(keg, allowed, scanned, now, scanned.Keys)
    ensures now.Keys == scanned.Keys
    ensures forall path | path in scanned :: EntryDone(keg, allowed, scanned, path, now[path])
  {
    hide EntryDone;
  }

  lemma NextPath(paths: seq<Path>, i: nat)
    requires NoRepeats(paths) && i < |paths|
    ensures paths[i] in Elems(paths) && paths[i] !in Elems(paths[..i])
    ensures Elems(paths[..i + 1]) == Elems(paths[..i]) + {paths[i]}
  {
    assert paths[..i + 1] == paths[..i] + [paths[i]];
    SnocElems(paths[..i], paths[i]);
  }
}
