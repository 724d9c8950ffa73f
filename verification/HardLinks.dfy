/** Chains of hard links in a bottle archive, and when the program accepts one:
    internal/bottle/verify.go, resolveHardlink inside validateCollisionsAndHardlinks. */
module HardLinks {
  import opened Wrappers
  import opened Digraph
  import opened LinkPaths
  import opened SymbolicLinks

  // ----- Chains -----

  ghost predicate Hop(scanned: Entries, keg: Path, path: Path, next: Path) {
    && path in scanned && scanned[path].kind.Hardlink?
    && exists trace :: Resolves(scanned, keg, [], scanned[path].target, trace, Inside(next))
  }

  ghost predicate AcceptedHop(scanned: Entries, keg: Path, limit: nat, path: Path, next: Path) {
    && path in scanned && scanned[path].kind.Hardlink?
    && exists trace :: Accepts(scanned, keg, limit, [], scanned[path].target, trace, Inside(next))
  }

  /** After n hard links, `path` names the regular file `end`. */
  ghost predicate ChainEnd(scanned: Entries, keg: Path, path: Path, n: nat, end: Path)
    decreases n
  {
    if n == 0 then path == end && path in scanned && scanned[path].kind.Regular?
    else exists next :: Hop(scanned, keg, path, next) && ChainEnd(scanned, keg, next, n - 1, end)
  }

  ghost predicate AcceptedChain(scanned: Entries, keg: Path, limit: nat, path: Path, n: nat, end: Path)
    decreases n
  {
    if n == 0 then path == end && path in scanned && scanned[path].kind.Regular?
    else exists next ::
           AcceptedHop(scanned, keg, limit, path, next) && AcceptedChain(scanned, keg, limit, next, n - 1, end)
  }

  ghost predicate HopPath(scanned: Entries, keg: Path, a: Path, k: nat, b: Path)
    decreases k
  {
    if k == 0 then a == b
    else exists next :: Hop(scanned, keg, a, next) && HopPath(scanned, keg, next, k - 1, b)
  }

  ghost predicate LeadsTo(scanned: Entries, keg: Path, a: Path, b: Path) {
    exists k: nat :: k > 0 && HopPath(scanned, keg, a, k, b)
  }

  lemma HopOnce(scanned: Entries, keg: Path, path: Path, a: Path, b: Path)
    requires Hop(scanned, keg, path, a) && Hop(scanned, keg, path, b)
    ensures a == b
  {
    hide Resolves;
    var s :| Resolves(scanned, keg, [], scanned[path].target, s, Inside(a));
    var t :| Resolves(scanned, keg, [], scanned[path].target, t, Inside(b));
    ResolvesOnce(scanned, keg, [], scanned[path].target, s, Inside(a), t, Inside(b));
  }

  lemma AcceptedIsHop(scanned: Entries, keg: Path, limit: nat, path: Path, next: Path)
    requires AcceptedHop(scanned, keg, limit, path, next)
    ensures Hop(scanned, keg, path, next)
  {
    hide Resolves;
    var trace :| Accepts(scanned, keg, limit, [], scanned[path].target, trace, Inside(next));
  }

  lemma {:induction false} AcceptedIsChain(scanned: Entries, keg: Path, limit: nat, path: Path, n: nat, end: Path)
    requires AcceptedChain(scanned, keg, limit, path, n, end)
    ensures ChainEnd(scanned, keg, path, n, end)
    decreases n
  {
    hide Hop, AcceptedHop;
    if n > 0 {
      var next :| AcceptedHop(scanned, keg, limit, path, next) && AcceptedChain(scanned, keg, limit, next, n - 1, end);
      AcceptedIsHop(scanned, keg, limit, path, next);
      AcceptedIsChain(scanned, keg, limit, next, n - 1, end);
    }
  }

  lemma {:induction false} HopPathSnoc(scanned: Entries, keg: Path, a: Path, k: nat, b: Path, c: Path)
    requires HopPath(scanned, keg, a, k, b) && Hop(scanned, keg, b, c)
    ensures HopPath(scanned, keg, a, k + 1, c)
    decreases k
  {
    hide Hop;
    if k == 0 {
      assert HopPath(scanned, keg, c, 0, c);
    } else {
      var next :| Hop(scanned, keg, a, next) && HopPath(scanned, keg, next, k - 1, b);
      HopPathSnoc(scanned, keg, next, k - 1, b, c);
    }
  }

  lemma {:induction false} ChainAfterHops(scanned: Entries, keg: Path, a: Path, k: nat, b: Path, n: nat, end: Path)
    requires HopPath(scanned, keg, a, k, b) && ChainEnd(scanned, keg, a, n, end)
    ensures k <= n && ChainEnd(scanned, keg, b, n - k, end)
    decreases k
  {
    if k > 0 {
      var next :| Hop(scanned, keg, a, next) && HopPath(scanned, keg, next, k - 1, b);
      assert n > 0;
      var other :| Hop(scanned, keg, a, other) && ChainEnd(scanned, keg, other, n - 1, end);
      HopOnce(scanned, keg, a, next, other);
      ChainAfterHops(scanned, keg, next, k - 1, b, n - 1, end);
    }
  }

  /** Hard links in a circle name no file. */
  lemma {:induction false} CircleHasNoEnd(scanned: Entries, keg: Path, a: Path, k: nat, n: nat, end: Path)
    requires k > 0 && HopPath(scanned, keg, a, k, a)
    ensures !ChainEnd(scanned, keg, a, n, end)
    decreases n
  {
    hide HopPath, ChainEnd;
    if ChainEnd(scanned, keg, a, n, end) {
      ChainAfterHops(scanned, keg, a, k, a, n, end);
      CircleHasNoEnd(scanned, keg, a, k, n - k, end);
    }
  }

  lemma {:induction false} ChainOnce(scanned: Entries, keg: Path, path: Path, m: nat, a: Path, n: nat, b: Path)
    requires ChainEnd(scanned, keg, path, m, a) && ChainEnd(scanned, keg, path, n, b)
    ensures m == n && a == b
    decreases m
  {
    if m > 0 && n > 0 {
      var x :| Hop(scanned, keg, path, x) && ChainEnd(scanned, keg, x, m - 1, a);
      var y :| Hop(scanned, keg, path, y) && ChainEnd(scanned, keg, y, n - 1, b);
      HopOnce(scanned, keg, path, x, y);
      ChainOnce(scanned, keg, x, m - 1, a, n - 1, b);
    }
  }

  lemma {:induction false} ChainStaysInKeg(scanned: Entries, keg: Path, path: Path, n: nat, end: Path)
    requires ChainEnd(scanned, keg, path, n, end) && n > 0
    ensures InKeg(keg, end) && end in scanned && scanned[end].kind.Regular? && NoLinkAbove(scanned, end)
    decreases n
  {
    hide Resolves, InKeg, NoLinkAbove;
    var next :| Hop(scanned, keg, path, next) && ChainEnd(scanned, keg, next, n - 1, end);
    if n == 1 {
      var trace :| Resolves(scanned, keg, [], scanned[path].target, trace, Inside(next));
      NothingAboveRoot(scanned);
      EndsInKeg(scanned, keg, [], scanned[path].target, trace, next);
    } else {
      ChainStaysInKeg(scanned, keg, next, n - 1, end);
    }
  }

  lemma NothingAboveRoot(scanned: Entries)
    ensures NoLinkAbove(scanned, [])
  {
  }

  // ----- What lies on a chain -----

  /** Everything on the chain that starts at a path, the path included. */
  ghost predicate OnChain(scanned: Entries, keg: Path, name: Path, path: Path) {
    path == name || LeadsTo(scanned, keg, name, path)
  }

  /** The chain of a hard link is its first hop's chain and itself. */
  lemma ChainSplits(scanned: Entries, keg: Path, name: Path, next: Path)
    requires Hop(scanned, keg, name, next)
    ensures forall path :: LeadsTo(scanned, keg, name, path) <==> OnChain(scanned, keg, next, path)
  {
    hide Hop;
    forall path | LeadsTo(scanned, keg, name, path) ensures OnChain(scanned, keg, next, path) {
      var k: nat :| k > 0 && HopPath(scanned, keg, name, k, path);
      var other :| Hop(scanned, keg, name, other) && HopPath(scanned, keg, other, k - 1, path);
      HopOnce(scanned, keg, name, next, other);
      assert k - 1 == 0 ==> path == next;
    }
    forall path | OnChain(scanned, keg, next, path) ensures LeadsTo(scanned, keg, name, path) {
      if path == next {
        assert HopPath(scanned, keg, next, 0, next);
        assert HopPath(scanned, keg, name, 1, next);
      } else {
        var k: nat :| k > 0 && HopPath(scanned, keg, next, k, path);
        assert HopPath(scanned, keg, name, k + 1, path);
      }
    }
  }

  lemma ChainGoesOn(scanned: Entries, keg: Path, name: Path, path: Path, next: Path)
    requires OnChain(scanned, keg, name, path) && Hop(scanned, keg, path, next)
    ensures LeadsTo(scanned, keg, name, next)
  {
    hide Hop;
    assert HopPath(scanned, keg, name, 0, name);
    if path != name {
      var k: nat :| k > 0 && HopPath(scanned, keg, name, k, path);
      HopPathSnoc(scanned, keg, name, k, path, next);
    } else {
      HopPathSnoc(scanned, keg, name, 0, name, next);
    }
  }

  /** A set that holds with a path also the next one holds its whole chain. */
  ghost predicate HoldsChains(scanned: Entries, keg: Path, memo: set<Path>) {
    forall path, next | path in memo && Hop(scanned, keg, path, next) :: next in memo
  }

  lemma {:induction false} HoldsPath(scanned: Entries, keg: Path, memo: set<Path>, a: Path, k: nat, b: Path)
    requires HoldsChains(scanned, keg, memo) && a in memo && HopPath(scanned, keg, a, k, b)
    ensures b in memo
    decreases k
  {
    hide Hop;
    if k > 0 {
      var next :| Hop(scanned, keg, a, next) && HopPath(scanned, keg, next, k - 1, b);
      HoldsPath(scanned, keg, memo, next, k - 1, b);
    }
  }

  lemma HoldsChain(scanned: Entries, keg: Path, memo: set<Path>, name: Path)
    requires HoldsChains(scanned, keg, memo) && name in memo
    ensures forall path | OnChain(scanned, keg, name, path) :: path in memo
  {
    hide Hop, HoldsChains, HopPath;
    forall path | OnChain(scanned, keg, name, path) ensures path in memo {
      if path != name {
        var k: nat :| k > 0 && HopPath(scanned, keg, name, k, path);
        HoldsPath(scanned, keg, memo, name, k, path);
      }
    }
  }

  // ----- When a chain is accepted -----

  /** After n accepted hard links the chain is at a remembered path or at a regular file. */
  ghost predicate Stops(scanned: Entries, keg: Path, limit: nat, memo: set<Path>, path: Path, n: nat)
    decreases n
  {
    if n == 0 then path in memo || (path in scanned && scanned[path].kind.Regular?)
    else exists next :: AcceptedHop(scanned, keg, limit, path, next) && Stops(scanned, keg, limit, memo, next, n - 1)
  }

  ghost predicate StopsWithin(scanned: Entries, keg: Path, limit: nat, memo: set<Path>, path: Path, budget: int) {
    exists n: nat :: n <= budget && Stops(scanned, keg, limit, memo, path, n)
  }

  ghost predicate HasEnd(scanned: Entries, keg: Path, path: Path) {
    exists n: nat, end :: ChainEnd(scanned, keg, path, n, end)
  }

  /** Remembered paths are ends of real chains, with everything behind them. */
  ghost predicate Remembered(scanned: Entries, keg: Path, memo: map<Path, Path>) {
    && (forall path | path in memo :: exists n: nat :: ChainEnd(scanned, keg, path, n, memo[path]))
    && HoldsChains(scanned, keg, memo.Keys)
  }

  lemma {:induction false} StopsHasEnd(scanned: Entries, keg: Path, limit: nat, memo: map<Path, Path>, path: Path,
                                       n: nat)
    requires Remembered(scanned, keg, memo) && Stops(scanned, keg, limit, memo.Keys, path, n)
    ensures HasEnd(scanned, keg, path)
    decreases n
  {
    hide HoldsChains, Hop, AcceptedHop;
    if n == 0 {
      if path in memo {
        var m: nat :| ChainEnd(scanned, keg, path, m, memo[path]);
      } else {
        assert ChainEnd(scanned, keg, path, 0, path);
      }
    } else {
      var next :| AcceptedHop(scanned, keg, limit, path, next) && Stops(scanned, keg, limit, memo.Keys, next, n - 1);
      StopsHasEnd(scanned, keg, limit, memo, next, n - 1);
      AcceptedIsHop(scanned, keg, limit, path, next);
      var m: nat, end :| ChainEnd(scanned, keg, next, m, end);
      assert ChainEnd(scanned, keg, path, m + 1, end);
    }
  }

  /** A path in a circle of hard links never stops. */
  lemma CircleNeverStops(scanned: Entries, keg: Path, limit: nat, memo: map<Path, Path>, name: Path, budget: int)
    requires Remembered(scanned, keg, memo) && LeadsTo(scanned, keg, name, name)
    ensures !StopsWithin(scanned, keg, limit, memo.Keys, name, budget)
  {
    hide Stops, ChainEnd, HopPath, Remembered;
    var k: nat :| k > 0 && HopPath(scanned, keg, name, k, name);
    forall n: nat | Stops(scanned, keg, limit, memo.Keys, name, n) ensures false {
      StopsHasEnd(scanned, keg, limit, memo, name, n);
      var m: nat, end :| ChainEnd(scanned, keg, name, m, end);
      CircleHasNoEnd(scanned, keg, name, k, m, end);
    }
  }

  lemma AcceptedHopOnce(scanned: Entries, keg: Path, limit: nat, path: Path, a: Path, b: Path)
    requires AcceptedHop(scanned, keg, limit, path, a) && AcceptedHop(scanned, keg, limit, path, b)
    ensures a == b
  {
    hide Hop;
    AcceptedIsHop(scanned, keg, limit, path, a);
    AcceptedIsHop(scanned, keg, limit, path, b);
    HopOnce(scanned, keg, path, a, b);
  }

  /** Whether a hard link stops is decided by its one hop. */
  lemma StopsByHop(scanned: Entries, keg: Path, limit: nat, memo: set<Path>, path: Path, budget: int)
    requires path in scanned && scanned[path].kind.Hardlink? && path !in memo
    ensures StopsWithin(scanned, keg, limit, memo, path, budget) <==>
      exists next ::
        AcceptedHop(scanned, keg, limit, path, next) && StopsWithin(scanned, keg, limit, memo, next, budget - 1)
  {
    hide AcceptedHop;
    if StopsWithin(scanned, keg, limit, memo, path, budget) {
      var n: nat :| n <= budget && Stops(scanned, keg, limit, memo, path, n);
      var next :| AcceptedHop(scanned, keg, limit, path, next) && Stops(scanned, keg, limit, memo, next, n - 1);
      assert StopsWithin(scanned, keg, limit, memo, next, budget - 1);
    }
    forall next |
      AcceptedHop(scanned, keg, limit, path, next) && StopsWithin(scanned, keg, limit, memo, next, budget - 1)
      ensures StopsWithin(scanned, keg, limit, memo, path, budget)
    {
      var n: nat :| n <= budget - 1 && Stops(scanned, keg, limit, memo, next, n);
      assert Stops(scanned, keg, limit, memo, path, n + 1);
    }
  }

  /** A path that is neither a file nor a hard link, or is missing, stops only if remembered. */
  lemma OthersNeverStop(scanned: Entries, keg: Path, limit: nat, memo: set<Path>, path: Path, budget: int)
    requires path !in memo
    requires path in scanned ==> scanned[path].kind.Directory? || scanned[path].kind.Symlink?
    ensures !StopsWithin(scanned, keg, limit, memo, path, budget)
  {
    forall n: nat ensures !Stops(scanned, keg, limit, memo, path, n) {}
  }

  lemma StopsNow(scanned: Entries, keg: Path, limit: nat, memo: set<Path>, path: Path, budget: int)
    requires budget >= 0 && (path in memo || (path in scanned && scanned[path].kind.Regular?))
    ensures StopsWithin(scanned, keg, limit, memo, path, budget)
  {
    assert Stops(scanned, keg, limit, memo, path, 0);
  }

  /** Exactly when the pass accepts a hard link after it has handled `done`: from its first hop,
      the limit less one accepted hops lead to a file or to a path behind a handled hard link. */
  ghost predicate HardlinkPasses(keg: Path, limit: nat, scanned: Entries, path: Path, done: set<Path>) {
    exists next ::
      && AcceptedHop(scanned, keg, limit, path, next)
      && StopsWithin(scanned, keg, limit, Behind(keg, scanned, done), next, limit - 1)
  }

  /** What lies behind the hard links among `done`. */
  ghost function Behind(keg: Path, scanned: Entries, done: set<Path>): set<Path> {
    set path | path in scanned && IsBehind(keg, scanned, done, path)
  }

  ghost predicate IsBehind(keg: Path, scanned: Entries, done: set<Path>, path: Path) {
    exists from :: from in done && from in scanned && scanned[from].kind.Hardlink? && LeadsTo(scanned, keg, from, path)
  }

  ghost predicate AllHardlinksPass(keg: Path, limit: nat, scanned: Entries, paths: seq<Path>) {
    forall i | 0 <= i < |paths| && paths[i] in scanned && scanned[paths[i]].kind.Hardlink? ::
      HardlinkPasses(keg, limit, scanned, paths[i], Elems(paths[..i]))
  }

  ghost predicate GoodHardlink(keg: Path, limit: nat, scanned: Entries, path: Path) {
    exists n: nat, end | n <= limit :: AcceptedChain(scanned, keg, limit, path, n, end)
  }

  lemma {:induction false} ChainStops(scanned: Entries, keg: Path, limit: nat, memo: set<Path>, path: Path, n: nat,
                                      end: Path)
    requires AcceptedChain(scanned, keg, limit, path, n, end)
    ensures Stops(scanned, keg, limit, memo, path, n)
    decreases n
  {
    hide AcceptedHop;
    if n > 0 {
      var next :| AcceptedHop(scanned, keg, limit, path, next) && AcceptedChain(scanned, keg, limit, next, n - 1, end);
      ChainStops(scanned, keg, limit, memo, next, n - 1, end);
    }
  }

  /** A hard link that is good on the scanned entries alone passes whatever was handled before. */
  lemma GoodHardlinkPasses(keg: Path, limit: nat, scanned: Entries, path: Path, done: set<Path>)
    requires path in scanned && scanned[path].kind.Hardlink? && GoodHardlink(keg, limit, scanned, path)
    ensures HardlinkPasses(keg, limit, scanned, path, done)
  {
    hide AcceptedHop, Behind;
    var n: nat, end :| n <= limit && AcceptedChain(scanned, keg, limit, path, n, end);
    var next :| AcceptedHop(scanned, keg, limit, path, next) && AcceptedChain(scanned, keg, limit, next, n - 1, end);
    ChainStops(scanned, keg, limit, Behind(keg, scanned, done), next, n - 1, end);
  }

  // ----- One hop -----

  /** One hard link: the walk of its target, which must end in the archive. */
  method ResolveHop(keg: Path, limit: nat, ghost scanned: Entries, entries: Entries, path: Path)
    returns (next: Option<Path>)
    requires Annotated(keg, scanned, entries) && path in entries && path in scanned && scanned[path].kind.Hardlink?
    ensures next.Some? ==> AcceptedHop(scanned, keg, limit, path, next.value)
    ensures next.None? ==> forall other :: !AcceptedHop(scanned, keg, limit, path, other)
  {
    hide Annotated, Resolves, Accepts, IsWalk, OnceInside, GivenUp, EndsAt;
    KindSame(keg, scanned, entries, path);
    var walked;
    ghost var stood;
    walked, stood := ResolvePath(entries, keg, limit, [], entries[path].target);
    HopDecided(keg, limit, scanned, entries, path, walked);
    if walked.Rejected? || walked.out.Outside? {
      return None;
    }
    return Some(walked.out.path);
  }

  lemma KindSame(keg: Path, scanned: Entries, now: Entries, path: Path)
    requires Annotated(keg, scanned, now) && path in now
    ensures path in scanned && now[path].kind == scanned[path].kind && now[path].target == scanned[path].target
  {
    assert Recorded(keg, scanned, path, now[path]);
  }

  lemma KeysSame(keg: Path, scanned: Entries, now: Entries)
    requires Annotated(keg, scanned, now)
    ensures now.Keys == scanned.Keys
  {
  }

  /** A hop is accepted over the entries as they are now exactly when it is over the scanned ones. */
  lemma HopDecided(keg: Path, limit: nat, scanned: Entries, now: Entries, path: Path, walked: Walked)
    requires Annotated(keg, scanned, now) && path in scanned && scanned[path].kind.Hardlink?
    requires walked.Rejected? ==> forall trace, out :: !Accepts(now, keg, limit, [], scanned[path].target, trace, out)
    requires walked.Reached? ==> exists trace :: Accepts(now, keg, limit, [], scanned[path].target, trace, walked.out)
    ensures forall next :: AcceptedHop(scanned, keg, limit, path, next) <==> walked == Reached(Inside(next))
  {
    hide Annotated, Resolves, Accepts, AcceptsCut;
    var target := scanned[path].target;
    forall next ensures AcceptedHop(scanned, keg, limit, path, next) <==> walked == Reached(Inside(next)) {
      AcceptsExactly(keg, limit, scanned, now, [], target, Inside(next));
      AcceptsInside(keg, limit, scanned, now, [], target, next);
      if AcceptedHop(scanned, keg, limit, path, next) {
        var trace :| Accepts(now, keg, limit, [], target, trace, Inside(next));
        var other :| Accepts(now, keg, limit, [], target, other, walked.out);
        AcceptsOnce(now, keg, limit, [], target, other, walked.out, trace, Inside(next));
      }
    }
  }
}
