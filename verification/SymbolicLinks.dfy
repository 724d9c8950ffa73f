/** Walking one link of a bottle archive, and what the pass over all symbolic links decides:
    internal/bottle/verify.go, validateCollisionsAndHardlinks up to the hard links. */
module SymbolicLinks {
  import opened Wrappers
  import opened Digraph
  import opened Sorting
  import opened Listing
  import opened LinkPaths

  // ----- Walking one link -----

  datatype Walked = Reached(out: Outcome) | Rejected

  /** The walk so far has followed `followed` and is now at `stack` with `queue` left. */
  ghost predicate Carries(entries: Entries, keg: Path, base: Path, target: seq<Component>, followed: seq<Path>,
                          stack: Path, queue: seq<Component>) {
    forall trace, out :: Resolves(entries, keg, base, target, trace, out) <==>
      followed <= trace && Resolves(entries, keg, stack, queue, trace[|followed|..], out)
  }

  lemma CarryStart(entries: Entries, keg: Path, base: Path, target: seq<Component>)
    ensures Carries(entries, keg, base, target, [], base, target)
  {
    hide Resolves;
    forall trace: seq<Path> ensures trace[0..] == trace {}
  }

  /** A step that follows no link. */
  lemma CarryStep(entries: Entries, keg: Path, base: Path, target: seq<Component>, followed: seq<Path>,
                  stack: Path, queue: seq<Component>, stack': Path, queue': seq<Component>)
    requires Carries(entries, keg, base, target, followed, stack, queue)
    requires forall trace, out :: Resolves(entries, keg, stack, queue, trace, out) <==>
      Resolves(entries, keg, stack', queue', trace, out)
    ensures Carries(entries, keg, base, target, followed, stack', queue')
  {
    hide Resolves;
  }

  /** A step that follows the link at `path`. */
  lemma CarryFollow(entries: Entries, keg: Path, base: Path, target: seq<Component>, followed: seq<Path>,
                    stack: Path, queue: seq<Component>, path: Path, next: seq<Component>)
    requires Carries(entries, keg, base, target, followed, stack, queue)
    requires forall trace, out :: Resolves(entries, keg, stack, queue, trace, out) <==>
      trace != [] && trace[0] == path && Resolves(entries, keg, stack, next, trace[1..], out)
    ensures Carries(entries, keg, base, target, followed + [path], stack, next)
  {
    hide Resolves;
    var longer := followed + [path];
    forall trace, out
      ensures Resolves(entries, keg, base, target, trace, out) <==>
        longer <= trace && Resolves(entries, keg, stack, next, trace[|longer|..], out)
    {
      if followed <= trace {
        var left := trace[|followed|..];
        if left != [] {
          assert trace[|longer|..] == left[1..];
          assert longer <= trace <==> left[0] == path;
        }
      }
    }
  }

  /** Nothing is accepted when the rest of the walk cannot end, or when the next link followed
      is one too many or was followed before. */
  lemma CarryDead(entries: Entries, keg: Path, limit: nat, base: Path, target: seq<Component>, followed: seq<Path>,
                  stack: Path, queue: seq<Component>)
    requires Carries(entries, keg, base, target, followed, stack, queue)
    requires forall trace, out | Resolves(entries, keg, stack, queue, trace, out) ::
      trace != [] && (|followed| >= limit || trace[0] in followed)
    ensures forall trace, out :: !Accepts(entries, keg, limit, base, target, trace, out)
  {
    hide Resolves;
    forall trace, out | Resolves(entries, keg, base, target, trace, out)
      ensures !Accepts(entries, keg, limit, base, target, trace, out)
    {
      var left := trace[|followed|..];
      assert Resolves(entries, keg, stack, queue, left, out);
      assert trace[|followed|] == left[0];
      if left[0] in followed {
        var i :| 0 <= i < |followed| && followed[i] == left[0];
        assert trace[i] == trace[|followed|];
      }
    }
  }

  lemma CarryEnd(entries: Entries, keg: Path, limit: nat, base: Path, target: seq<Component>, followed: seq<Path>,
                 stack: Path, queue: seq<Component>, last: seq<Path>, out: Outcome)
    requires Carries(entries, keg, base, target, followed, stack, queue)
    requires Resolves(entries, keg, stack, queue, last, out)
    requires NoRepeats(followed + last) && |followed + last| <= limit
    ensures Accepts(entries, keg, limit, base, target, followed + last, out)
  {
    hide Resolves;
    var trace := followed + last;
    assert trace[|followed|..] == last;
  }

  /** Why a walk is given up: it cannot go on, or it stands before a link. */
  ghost predicate GivenUp(entries: Entries, keg: Path, spot: Spot) {
    || (Next(entries, keg, spot).None? && forall out :: !EndsAt(entries, keg, spot, out))
    || (spot.queue != [] && spot.queue[0].Down? && IsLink(entries, spot.stack + [spot.queue[0].name]))
  }

  /** resolvePath: succeeds exactly when some walk is accepted, with the end of that walk. Whatever
      the outcome, the spots it stood at are those of the walk, and once one of them is in the
      keg all later ones are. */
  method ResolvePath(entries: Entries, keg: Path, limit: nat, base: Path, target: seq<Component>)
    returns (walked: Walked, ghost stood: seq<Spot>)
    ensures walked.Reached? ==> exists trace :: Accepts(entries, keg, limit, base, target, trace, walked.out)
    ensures walked.Rejected? ==> forall trace, out :: !Accepts(entries, keg, limit, base, target, trace, out)
    ensures IsWalk(entries, keg, stood) && stood[0] == Spot(base, target) && OnceInside(keg, stood)
    ensures walked.Reached? ==> EndsAt(entries, keg, stood[|stood| - 1], walked.out)
    ensures walked.Rejected? ==> GivenUp(entries, keg, stood[|stood| - 1])
  {
    hide Carries, Accepts, IsWalk, OnceInside;
    var stack, queue := base, target;
    var followed: set<Path> := {};
    var steps := 0;
    ghost var trace: seq<Path> := [];
    stood := [Spot(base, target)];
    CarryStart(entries, keg, base, target);
    WalkStart(entries, keg, stood[0]);
    while queue != []
      invariant Carries(entries, keg, base, target, trace, stack, queue)
      invariant followed == Elems(trace) && NoRepeats(trace) && steps == |trace| <= limit
      invariant stood != [] && stood[0] == Spot(base, target) && stood[|stood| - 1] == Spot(stack, queue)
      invariant IsWalk(entries, keg, stood) && OnceInside(keg, stood)
      decreases limit - steps, |queue|
    {
      var component := queue[0];
      var rest := queue[1..];
      match component {
        case Stay =>
          CarryStep(entries, keg, base, target, trace, stack, queue, stack, rest);
          queue := rest;
        case Up =>
          if |stack| <= |keg| {
            CarryDead(entries, keg, limit, base, target, trace, stack, queue);
            return Rejected, stood;
          }
          CarryStep(entries, keg, base, target, trace, stack, queue, stack[..|stack| - 1], rest);
          stack, queue := stack[..|stack| - 1], rest;
        case Down(name) =>
          var candidate := stack + [name];
          if !InKeg(keg, candidate) && |candidate| >= |keg| {
            CarryDead(entries, keg, limit, base, target, trace, stack, queue);
            return Rejected, stood;
          }
          if !IsLink(entries, candidate) {
            CarryStep(entries, keg, base, target, trace, stack, queue, candidate, rest);
            stack, queue := candidate, rest;
          } else {
            steps := steps + 1;
            if steps > limit || candidate in followed {
              CarryDead(entries, keg, limit, base, target, trace, stack, queue);
              return Rejected, stood;
            }
            SnocElems(trace, candidate);
            followed := followed + {candidate};
            var entry := entries[candidate];
            if entry.prefixTarget.Some? {
              if rest != [] {
                CarryDead(entries, keg, limit, base, target, trace, stack, queue);
                return Rejected, stood;
              }
              var out := Outside(entry.prefixTarget.value);
              CarryEnd(entries, keg, limit, base, target, trace, stack, queue, [candidate], out);
              return Reached(out), stood;
            }
            CarryFollow(entries, keg, base, target, trace, stack, queue, candidate, entry.target + rest);
            trace := trace + [candidate];
            queue := entry.target + rest;
          }
      }
      WalkOn(entries, keg, stood, Spot(stack, queue));
      stood := stood + [Spot(stack, queue)];
    }
    if !InKeg(keg, stack) {
      CarryDead(entries, keg, limit, base, target, trace, stack, queue);
      return Rejected, stood;
    }
    assert trace + [] == trace;
    CarryEnd(entries, keg, limit, base, target, trace, stack, queue, [], Inside(stack));
    return Reached(Inside(stack)), stood;
  }

  lemma WalkStart(entries: Entries, keg: Path, spot: Spot)
    ensures IsWalk(entries, keg, [spot]) && OnceInside(keg, [spot])
  {
  }

  // ----- Order of the archive -----

  function JoinPath(path: Path): string {
    if path == [] then ""
    else if |path| == 1 then path[0].text
    else JoinPath(path[..|path| - 1]) + "/" + path[|path| - 1].text
  }

  predicate PathLe(a: Path, b: Path) { TextLe(JoinPath(a), JoinPath(b)) }

  /** The paths of the archive, each once, sorted by their text. */
  ghost predicate IsListing(entries: Entries, paths: seq<Path>) {
    Elems(paths) == entries.Keys && NoRepeats(paths) && SortedBy(paths, PathLe)
  }

  method ListPaths(entries: Entries) returns (paths: seq<Path>)
    ensures IsListing(entries, paths)
  {
    KeyOrder(JoinPath, PathLe);
    paths := ListSorted(entries.Keys, PathLe);
  }

  /** A joined path as an identity: all but the last component, and the last. */
  lemma LongJoin(path: Path)
    requires |path| > 1
    ensures JoinPath(path) == Identity.Text(Identity.FormulaId(JoinPath(path[..|path| - 1]), path[|path| - 1].text))
    ensures '/' in JoinPath(path)
  {
    var id := Identity.FormulaId(JoinPath(path[..|path| - 1]), path[|path| - 1].text);
    Identity.LastSlash(id);
    assert Identity.Text(id)[|id.tap|] in Identity.Text(id);
  }

  lemma {:induction false} JoinInjective(a: Path, b: Path)
    requires JoinPath(a) == JoinPath(b)
    ensures a == b
    decreases |a|
  {
    hide JoinPath, Identity.Text;
    JoinLength(a);
    JoinLength(b);
    ShortJoin(a);
    ShortJoin(b);
    if |a| > 1 && |b| > 1 {
      LongJoin(a);
      LongJoin(b);
      var x, y := a[..|a| - 1], b[..|b| - 1];
      var lastA, lastB := a[|a| - 1].text, b[|b| - 1].text;
      Identity.TextInjective(Identity.FormulaId(JoinPath(x), lastA), Identity.FormulaId(JoinPath(y), lastB));
      JoinInjective(x, y);
      assert a == x + [a[|a| - 1]] && b == y + [b[|b| - 1]];
    }
  }

  lemma ShortJoin(path: Path)
    ensures |path| == 1 ==> path == [path[0]] && JoinPath(path) == path[0].text
  {
  }

  lemma JoinLength(a: Path)
    ensures JoinPath(a) == "" <==> a == []
    ensures '/' in JoinPath(a) <==> |a| > 1
  {
    if |a| > 1 {
      LongJoin(a);
    }
  }

  /** An archive has one listing. */
  lemma ListingUnique(entries: Entries, a: seq<Path>, b: seq<Path>)
    requires IsListing(entries, a) && IsListing(entries, b)
    ensures a == b
  {
    hide JoinPath, TextLe;
    forall x, y | x in a && y in a && PathLe(x, y) && PathLe(y, x) ensures x == y {
      TextLeAntisym(JoinPath(x), JoinPath(y));
      JoinInjective(x, y);
    }
    forall x | x in a ensures PathLe(x, x) {
      TextLeTotal(JoinPath(x), JoinPath(x));
    }
    SameListing(a, b);
    SortedUnique(a, b, PathLe);
  }

  lemma SameListing<T>(a: seq<T>, b: seq<T>)
    requires NoRepeats(a) && NoRepeats(b) && Elems(a) == Elems(b)
    ensures multiset(a) == multiset(b)
  {
    NoRepeatsCounts(a);
    NoRepeatsCounts(b);
    forall x ensures multiset(a)[x] == multiset(b)[x] {
      assert x in multiset(a) <==> x in Elems(a);
      assert x in multiset(b) <==> x in Elems(b);
    }
  }

  /** No entry lies below an entry that is not a directory. */
  ghost predicate Layered(entries: Entries) {
    forall path | path in entries :: AncestorsOk(entries, path)
  }

  ghost predicate AncestorsOk(entries: Entries, path: Path) {
    forall k | 0 < k < |path| && path[..k] in entries :: entries[path[..k]].kind.Directory?
  }

  method CheckAncestors(entries: Entries, paths: seq<Path>) returns (ok: bool)
    requires Elems(paths) == entries.Keys
    ensures ok <==> Layered(entries)
  {
    for i := 0 to |paths|
      invariant forall j | 0 <= j < i :: AncestorsOk(entries, paths[j])
    {
      var path := paths[i];
      assert path in Elems(paths);
      var k := |path| - 1;
      while k > 0
        invariant -1 <= k < |path|
        invariant forall m | k < m < |path| && 0 < m && path[..m] in entries :: entries[path[..m]].kind.Directory?
      {
        if path[..k] in entries && !entries[path[..k]].kind.Directory? {
          assert !AncestorsOk(entries, path);
          return false;
        }
        k := k - 1;
      }
    }
    forall path | path in entries ensures AncestorsOk(entries, path) {
      assert path in Elems(paths);
    }
    return true;
  }

  // ----- Symbolic links -----

  function Dir(path: Path): Path {
    if path == [] then [] else path[..|path| - 1]
  }

  predicate Unresolved(entries: Entries, path: Path) { IsLink(entries, path) && entries[path].prefixTarget.None? }

  function Record(entry: Entry, out: Outcome): Entry {
    match out
    case Inside(end) => entry.(resolvedTarget := Some(end), prefixTarget := None)
    case Outside(target) => entry.(resolvedTarget := None, prefixTarget := Some(target))
  }

  /** The entry holds what the walk of its link over the scanned entries ends at. */
  ghost predicate LinkDone(keg: Path, allowed: (Path, string) -> bool, scanned: Entries, path: Path, entry: Entry)
    requires path in scanned
  {
    if Unresolved(scanned, path) then exists trace, out :: LinkDoneBy(keg, allowed, scanned, path, entry, trace, out)
    else entry == scanned[path]
  }

  ghost predicate LinkDoneBy(keg: Path, allowed: (Path, string) -> bool, scanned: Entries, path: Path, entry: Entry,
                             trace: seq<Path>, out: Outcome)
    requires path in scanned
  {
    && Resolves(scanned, keg, Dir(path), scanned[path].target, trace, out)
    && entry == Record(scanned[path], out)
    && (out.Outside? ==> allowed(path, out.target))
  }

  /** On the scanned entries alone, the link's walk is accepted and ends where it may. */
  ghost predicate GoodLink(keg: Path, limit: nat, allowed: (Path, string) -> bool, scanned: Entries, path: Path)
    requires path in scanned
  {
    exists trace, out :: Accepts(scanned, keg, limit, Dir(path), scanned[path].target, trace, out)
      && (out.Outside? ==> allowed(path, out.target))
  }

  /** The links among `done` whose own walk leaves the keg. */
  ghost function Leaving(keg: Path, scanned: Entries, done: set<Path>): set<Path> {
    set path | path in scanned && path in done && Unresolved(scanned, path) && Leaves(keg, scanned, path)
  }

  ghost predicate Leaves(keg: Path, scanned: Entries, path: Path)
    requires path in scanned
  {
    exists target :: CanLeave(keg, scanned, Dir(path), scanned[path].target, target)
  }

  /** Exactly when the pass accepts a link after it has handled `done`: the walk over the scanned
      entries ends where it may, and up to the first handled link that leaves the keg it follows
      no link twice and no more than the limit. */
  ghost predicate LinkPasses(keg: Path, limit: nat, allowed: (Path, string) -> bool, scanned: Entries, path: Path,
                             done: set<Path>)
    requires path in scanned
  {
    Unresolved(scanned, path) ==> exists out :: PassesWith(keg, limit, allowed, scanned, path, done, out)
  }

  ghost predicate PassesWith(keg: Path, limit: nat, allowed: (Path, string) -> bool, scanned: Entries, path: Path,
                             done: set<Path>, out: Outcome)
    requires path in scanned
  {
    && AcceptsCut(keg, limit, scanned, Leaving(keg, scanned, done), Dir(path), scanned[path].target, out)
    && (out.Outside? ==> allowed(path, out.target))
  }

  ghost predicate AllLinksPass(keg: Path, limit: nat, allowed: (Path, string) -> bool, scanned: Entries,
                               paths: seq<Path>) {
    forall i | 0 <= i < |paths| && paths[i] in scanned ::
      LinkPasses(keg, limit, allowed, scanned, paths[i], Elems(paths[..i]))
  }

  /** A link that is good on the scanned entries alone passes whatever was handled before it. */
  lemma GoodPasses(keg: Path, limit: nat, allowed: (Path, string) -> bool, scanned: Entries, path: Path,
                   done: set<Path>)
    requires path in scanned && GoodLink(keg, limit, allowed, scanned, path)
    ensures LinkPasses(keg, limit, allowed, scanned, path, done)
  {
    hide Accepts, AcceptsCut, Leaving;
    var trace, out :| Accepts(scanned, keg, limit, Dir(path), scanned[path].target, trace, out)
      && (out.Outside? ==> allowed(path, out.target));
    AcceptsAnyCut(keg, limit, scanned, Leaving(keg, scanned, done), Dir(path), scanned[path].target, trace, out);
    assert PassesWith(keg, limit, allowed, scanned, path, done, out);
  }

  ghost predicate LinksDone(keg: Path, allowed: (Path, string) -> bool, scanned: Entries, now: Entries,
                            done: set<Path>) {
    && now.Keys == scanned.Keys
    && (forall path | path in scanned && path in done :: LinkDone(keg, allowed, scanned, path, now[path]))
    && (forall path | path in scanned && path !in done :: now[path] == scanned[path])
  }

  lemma DoneIsAnnotated(keg: Path, allowed: (Path, string) -> bool, scanned: Entries, now: Entries, done: set<Path>)
    requires LinksDone(keg, allowed, scanned, now, done) && [] !in scanned
    ensures Annotated(keg, scanned, now)
  {
    hide Resolves, LinkDone;
    forall path | path in scanned ensures Recorded(keg, scanned, path, now[path]) {
      if path in done {
        DoneIsRecorded(keg, allowed, scanned, path, now[path]);
      }
    }
  }

  lemma DoneIsRecorded(keg: Path, allowed: (Path, string) -> bool, scanned: Entries, path: Path, entry: Entry)
    requires path in scanned && path != [] && LinkDone(keg, allowed, scanned, path, entry)
    ensures Recorded(keg, scanned, path, entry)
  {
    hide Resolves;
    if Unresolved(scanned, path) {
      var trace, out :| LinkDoneBy(keg, allowed, scanned, path, entry, trace, out);
    }
  }

  /** The results recorded so far are those of the handled links that leave. */
  lemma RecordedIsLeaving(keg: Path, allowed: (Path, string) -> bool, scanned: Entries, now: Entries, done: set<Path>)
    requires LinksDone(keg, allowed, scanned, now, done)
    ensures RecordedIn(scanned, now) == Leaving(keg, scanned, done)
  {
    hide LinkDone, Leaves;
    forall path | path in scanned && path in done
      ensures scanned[path].prefixTarget.None? && now[path].prefixTarget.Some? <==>
        Unresolved(scanned, path) && Leaves(keg, scanned, path)
    {
      DoneLeaves(keg, allowed, scanned, path, now[path]);
    }
  }

  lemma DoneLeaves(keg: Path, allowed: (Path, string) -> bool, scanned: Entries, path: Path, entry: Entry)
    requires path in scanned && LinkDone(keg, allowed, scanned, path, entry)
    ensures scanned[path].prefixTarget.None? && entry.prefixTarget.Some? <==>
      Unresolved(scanned, path) && Leaves(keg, scanned, path)
  {
    hide Resolves;
    if Unresolved(scanned, path) {
      var trace, out :| LinkDoneBy(keg, allowed, scanned, path, entry, trace, out);
      if out.Outside? {
        assert CanLeave(keg, scanned, Dir(path), scanned[path].target, out.target);
      } else if Leaves(keg, scanned, path) {
        var target :| CanLeave(keg, scanned, Dir(path), scanned[path].target, target);
        var other :| Resolves(scanned, keg, Dir(path), scanned[path].target, other, Outside(target));
        ResolvesOnce(scanned, keg, Dir(path), scanned[path].target, trace, out, other, Outside(target));
      }
    }
  }

  /** One link of the pass, after the links of `done` have been handled. */
  method ResolveLink(keg: Path, limit: nat, allowed: (Path, string) -> bool, ghost scanned: Entries,
                     ghost done: set<Path>, entries: Entries, path: Path)
    returns (fixed: Option<Entry>)
    requires Annotated(keg, scanned, entries) && RecordedIn(scanned, entries) == Leaving(keg, scanned, done)
    requires path in entries && path in scanned && entries[path] == scanned[path]
    ensures fixed.Some? <==> LinkPasses(keg, limit, allowed, scanned, path, done)
    ensures fixed.Some? ==> LinkDone(keg, allowed, scanned, path, fixed.value)
  {
    hide Resolves, Accepts, Annotated, AcceptsCut, RecordedIn, Leaving, IsWalk, OnceInside, GivenUp, EndsAt;
    var entry := entries[path];
    if !entry.kind.Symlink? || entry.prefixTarget.Some? {
      return Some(entry);
    }
    var walked;
    ghost var stood;
    walked, stood := ResolvePath(entries, keg, limit, Dir(path), entry.target);
    LinkDecided(keg, limit, allowed, scanned, done, entries, path, walked);
    if walked.Rejected? || (walked.out.Outside? && !allowed(path, walked.out.target)) {
      return None;
    }
    return Some(Record(entry, walked.out));
  }

  lemma LinkDecided(keg: Path, limit: nat, allowed: (Path, string) -> bool, scanned: Entries, done: set<Path>,
                    now: Entries, path: Path, walked: Walked)
    requires Annotated(keg, scanned, now) && RecordedIn(scanned, now) == Leaving(keg, scanned, done)
    requires path in scanned && path in now && now[path] == scanned[path] && Unresolved(scanned, path)
    requires walked.Rejected? ==>
      forall trace, out :: !Accepts(now, keg, limit, Dir(path), now[path].target, trace, out)
    requires walked.Reached? ==>
      exists trace :: Accepts(now, keg, limit, Dir(path), now[path].target, trace, walked.out)
    ensures LinkPasses(keg, limit, allowed, scanned, path, done) <==>
      walked.Reached? && (walked.out.Outside? ==> allowed(path, walked.out.target))
    ensures walked.Reached? && (walked.out.Outside? ==> allowed(path, walked.out.target)) ==>
      LinkDone(keg, allowed, scanned, path, Record(now[path], walked.out))
  {
    hide Resolves, Annotated, Accepts, AcceptsCut, RecordedIn, Leaving;
    var base, target := Dir(path), scanned[path].target;
    forall out ensures (exists trace :: Accepts(now, keg, limit, base, target, trace, out)) <==>
      AcceptsCut(keg, limit, scanned, Leaving(keg, scanned, done), base, target, out)
    {
      AcceptsExactly(keg, limit, scanned, now, base, target, out);
    }
    if walked.Reached? {
      var trace :| Accepts(now, keg, limit, base, target, trace, walked.out);
      forall other, out | Accepts(now, keg, limit, base, target, other, out) ensures out == walked.out {
        AcceptsOnce(now, keg, limit, base, target, trace, walked.out, other, out);
      }
      var more := AcceptedFaithful(keg, limit, scanned, now, base, target, trace, walked.out);
      if walked.out.Outside? ==> allowed(path, walked.out.target) {
        assert LinkDoneBy(keg, allowed, scanned, path, Record(now[path], walked.out), more, walked.out);
        assert PassesWith(keg, limit, allowed, scanned, path, done, walked.out);
      }
    }
  }

  lemma AcceptedFaithful(keg: Path, limit: nat, scanned: Entries, now: Entries, base: Path, target: seq<Component>,
                         trace: seq<Path>, out: Outcome) returns (more: seq<Path>)
    requires Annotated(keg, scanned, now) && Accepts(now, keg, limit, base, target, trace, out)
    ensures Resolves(scanned, keg, base, target, more, out)
  {
    hide Resolves, Annotated;
    more := AnnotationsFaithful(keg, scanned, now, base, target, trace, out);
  }

  lemma AcceptsOnce(entries: Entries, keg: Path, limit: nat, base: Path, target: seq<Component>,
                    s: seq<Path>, a: Outcome, t: seq<Path>, b: Outcome)
    requires Accepts(entries, keg, limit, base, target, s, a) && Accepts(entries, keg, limit, base, target, t, b)
    ensures a == b
  {
    hide Resolves;
    ResolvesOnce(entries, keg, base, target, s, a, t, b);
  }

  /** For a link whose walk stays in the archive, what was handled before plays no part. */
  lemma InsidePasses(keg: Path, limit: nat, allowed: (Path, string) -> bool, scanned: Entries, done: set<Path>,
                     path: Path, trace: seq<Path>, end: Path)
    requires path in scanned && Unresolved(scanned, path)
    requires Resolves(scanned, keg, Dir(path), scanned[path].target, trace, Inside(end))
    ensures LinkPasses(keg, limit, allowed, scanned, path, done) <==> NoRepeats(trace) && |trace| <= limit
  {
    hide Resolves, Cut, NoRepeats, Leaving;
    var base, target, at := Dir(path), scanned[path].target, Leaving(keg, scanned, done);
    InsideMeetsNoLeaving(keg, scanned, done, base, target, trace, end);
    CutNothing(trace, at);
    forall other, out | Resolves(scanned, keg, base, target, other, out) ensures other == trace && out == Inside(end) {
      ResolvesOnce(scanned, keg, base, target, trace, Inside(end), other, out);
    }
    if NoRepeats(trace) && |trace| <= limit {
      assert CutFits(trace, at, limit);
      assert PassesWith(keg, limit, allowed, scanned, path, done, Inside(end));
    }
  }

  lemma InsideMeetsNoLeaving(keg: Path, scanned: Entries, done: set<Path>, stack: Path, queue: seq<Component>,
                             trace: seq<Path>, end: Path)
    requires Resolves(scanned, keg, stack, queue, trace, Inside(end))
    ensures forall path | path in trace :: path !in Leaving(keg, scanned, done)
  {
    hide Resolves, CanLeave;
    InsideNeverLeaves(keg, scanned, stack, queue, trace, end);
    forall path, target | path in trace ensures !CanLeave(keg, scanned, Dir(path), scanned[path].target, target) {
      assert !LeavesFor(keg, scanned, path, target);
    }
  }

  /** A link whose walk stays in the archive names a path of the keg that no link leads through,
      given that entries only lie below directories. */
  lemma LinkEndIsReal(keg: Path, allowed: (Path, string) -> bool, scanned: Entries, path: Path, entry: Entry)
    requires Layered(scanned) && path in scanned && Unresolved(scanned, path)
    requires LinkDone(keg, allowed, scanned, path, entry)
    ensures entry.resolvedTarget.Some? <==> entry.prefixTarget.None?
    ensures entry.resolvedTarget.Some? ==>
      InKeg(keg, entry.resolvedTarget.value) && NoLinkAbove(scanned, entry.resolvedTarget.value)
  {
    hide Resolves, InKeg;
    var trace, out :| LinkDoneBy(keg, allowed, scanned, path, entry, trace, out);
    assert AncestorsOk(scanned, path);
    forall k | 0 < k <= |Dir(path)| ensures !IsLink(scanned, Dir(path)[..k]) {
      assert Dir(path)[..k] == path[..k];
    }
    if out.Inside? {
      EndsInKeg(scanned, keg, Dir(path), scanned[path].target, trace, out.path);
    }
  }
}
