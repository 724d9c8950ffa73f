/** What the links of a bottle archive mean: the path walk of internal/bottle/verify.go,
    resolvePath, as a relation without step counters or visited sets. */
module LinkPaths {
  import opened Wrappers
  import opened Digraph
  import Identity

  /** A path component that names an entry: not empty, and without a slash. */
  datatype Name = Name(text: Identity.Name)

  /** An archive path as its components. */
  type Path = seq<Name>

  /** A component of a link target: an empty one or `.`, `..`, or a name. */
  datatype Component = Stay | Up | Down(name: Name)

  datatype Kind = Directory | Regular | Symlink | Hardlink

  /** What a hardlink takes over from the file it names. */
  datatype Content = Content(sha256: string, size: int, mode: int, uid: int, gid: int, xattrs: seq<(string, string)>,
                             relocatable: bool)

  /** `prefixTarget` is set on a symlink that leaves the keg for an authorized place. */
  datatype Entry = Entry(
    kind: Kind, target: seq<Component>, prefixTarget: Option<string>, resolvedTarget: Option<Path>, content: Content)

  type Entries = map<Path, Entry>

  datatype Outcome = Inside(path: Path) | Outside(target: string)

  /** The keg is the directory name/version. */
  predicate InKeg(keg: Path, path: Path) { keg <= path }

  /** Whether the walk may stand at this path: above the keg, or in it. */
  predicate MayStand(keg: Path, path: Path) { |path| < |keg| || InKeg(keg, path) }

  predicate IsLink(entries: Entries, path: Path) { path in entries && entries[path].kind.Symlink? }

  /** Walking `queue` from `stack` follows the links `trace`, in this order, and ends at `out`. */
  ghost predicate Resolves(entries: Entries, keg: Path, stack: Path, queue: seq<Component>, trace: seq<Path>,
                           out: Outcome)
    decreases |trace|, |queue|
  {
    if queue == [] then trace == [] && InKeg(keg, stack) && out == Inside(stack)
    else
      match queue[0]
      case Stay => Resolves(entries, keg, stack, queue[1..], trace, out)
      case Up => |stack| > |keg| && Resolves(entries, keg, stack[..|stack| - 1], queue[1..], trace, out)
      case Down(name) =>
        && MayStand(keg, stack + [name])
        && if IsLink(entries, stack + [name])
           then trace != [] && trace[0] == stack + [name] && Follows(entries, keg, stack, queue[1..], trace, out)
           else Resolves(entries, keg, stack + [name], queue[1..], trace, out)
  }

  /** Standing at the link trace[0] in directory `stack`, with `rest` still to walk. */
  ghost predicate Follows(entries: Entries, keg: Path, stack: Path, rest: seq<Component>, trace: seq<Path>,
                          out: Outcome)
    requires trace != [] && trace[0] in entries
    decreases |trace|, 0
  {
    var entry := entries[trace[0]];
    if entry.prefixTarget.Some? then rest == [] && trace == [trace[0]] && out == Outside(entry.prefixTarget.value)
    else Resolves(entries, keg, stack, entry.target + rest, trace[1..], out)
  }

  /** A walk ends in at most one way. */
  lemma {:induction false} ResolvesOnce(entries: Entries, keg: Path, stack: Path, queue: seq<Component>,
                                        s: seq<Path>, a: Outcome, t: seq<Path>, b: Outcome)
    requires Resolves(entries, keg, stack, queue, s, a) && Resolves(entries, keg, stack, queue, t, b)
    ensures s == t && a == b
    decreases |s|, |queue|
  {
    if queue != [] {
      match queue[0]
      case Stay => ResolvesOnce(entries, keg, stack, queue[1..], s, a, t, b);
      case Up => ResolvesOnce(entries, keg, stack[..|stack| - 1], queue[1..], s, a, t, b);
      case Down(name) =>
        var path := stack + [name];
        if !IsLink(entries, path) {
          ResolvesOnce(entries, keg, path, queue[1..], s, a, t, b);
        } else if entries[path].prefixTarget.None? {
          ResolvesOnce(entries, keg, stack, entries[path].target + queue[1..], s[1..], a, t[1..], b);
          assert s == [path] + s[1..] && t == [path] + t[1..];
        }
    }
  }

  /** A walk that leaves the keg has nothing left to walk. */
  lemma {:induction false} OutsideEndsWalk(entries: Entries, keg: Path, stack: Path, queue: seq<Component>,
                                           rest: seq<Component>, s: seq<Path>, target: string, t: seq<Path>,
                                           out: Outcome)
    requires Resolves(entries, keg, stack, queue, s, Outside(target))
    requires Resolves(entries, keg, stack, queue + rest, t, out)
    ensures rest == [] && s == t && out == Outside(target)
    decreases |s|, |queue|
  {
    assert queue != [];
    var all := queue + rest;
    assert all[0] == queue[0] && all[1..] == queue[1..] + rest;
    match queue[0]
    case Stay => OutsideEndsWalk(entries, keg, stack, queue[1..], rest, s, target, t, out);
    case Up => OutsideEndsWalk(entries, keg, stack[..|stack| - 1], queue[1..], rest, s, target, t, out);
    case Down(name) =>
      var path := stack + [name];
      if !IsLink(entries, path) {
        OutsideEndsWalk(entries, keg, path, queue[1..], rest, s, target, t, out);
      } else if entries[path].prefixTarget.None? {
        var next := entries[path].target;
        assert next + all[1..] == next + queue[1..] + rest;
        OutsideEndsWalk(entries, keg, stack, next + queue[1..], rest, s[1..], target, t[1..], out);
        assert s == [path] + s[1..] && t == [path] + t[1..];
      }
  }

  // ----- Where a walk can end -----

  /** No link stands at this path or above it. */
  ghost predicate NoLinkAbove(entries: Entries, path: Path) {
    forall k | 0 < k <= |path| :: !IsLink(entries, path[..k])
  }

  lemma NoLinkPush(entries: Entries, path: Path, name: Name)
    requires NoLinkAbove(entries, path) && !IsLink(entries, path + [name])
    ensures NoLinkAbove(entries, path + [name])
  {
    var longer := path + [name];
    forall k | 0 < k <= |longer| ensures !IsLink(entries, longer[..k]) {
      if k <= |path| {
        assert longer[..k] == path[..k];
      } else {
        assert longer[..k] == longer;
      }
    }
  }

  lemma NoLinkPop(entries: Entries, path: Path)
    requires NoLinkAbove(entries, path) && path != []
    ensures NoLinkAbove(entries, path[..|path| - 1])
  {
    var front := path[..|path| - 1];
    forall k | 0 < k <= |front| ensures !IsLink(entries, front[..k]) {
      assert front[..k] == path[..k];
    }
  }

  /** The end of a walk inside the archive is in the keg, and is not reached through a link. */
  lemma {:induction false} EndsInKeg(entries: Entries, keg: Path, stack: Path, queue: seq<Component>, trace: seq<Path>,
                                     end: Path)
    requires Resolves(entries, keg, stack, queue, trace, Inside(end)) && NoLinkAbove(entries, stack)
    ensures InKeg(keg, end) && NoLinkAbove(entries, end)
    decreases |trace|, |queue|
  {
    hide NoLinkAbove;
    if queue != [] {
      match queue[0]
      case Stay => EndsInKeg(entries, keg, stack, queue[1..], trace, end);
      case Up =>
        NoLinkPop(entries, stack);
        EndsInKeg(entries, keg, stack[..|stack| - 1], queue[1..], trace, end);
      case Down(name) =>
        var path := stack + [name];
        if IsLink(entries, path) {
          EndsInKeg(entries, keg, stack, entries[path].target + queue[1..], trace[1..], end);
        } else {
          NoLinkPush(entries, stack, name);
          EndsInKeg(entries, keg, path, queue[1..], trace, end);
        }
    }
  }

  /** Every link a walk follows is in the keg or above it: no other path is entered. */
  lemma {:induction false} FollowsNearKeg(entries: Entries, keg: Path, stack: Path, queue: seq<Component>,
                                          trace: seq<Path>, out: Outcome)
    requires Resolves(entries, keg, stack, queue, trace, out)
    ensures forall path | path in trace :: |path| < |keg| || keg <= path
    decreases |trace|, |queue|
  {
    if queue != [] {
      match queue[0]
      case Stay => FollowsNearKeg(entries, keg, stack, queue[1..], trace, out);
      case Up => FollowsNearKeg(entries, keg, stack[..|stack| - 1], queue[1..], trace, out);
      case Down(name) =>
        var path := stack + [name];
        if !IsLink(entries, path) {
          FollowsNearKeg(entries, keg, path, queue[1..], trace, out);
        } else if entries[path].prefixTarget.None? {
          FollowsNearKeg(entries, keg, stack, entries[path].target + queue[1..], trace[1..], out);
          assert trace == [path] + trace[1..];
        }
    }
  }

  /** The components that walk down a path. */
  function Walking(path: Path): seq<Component> {
    seq(|path|, i requires 0 <= i < |path| => Down(path[i]))
  }

  /** Resolving the end of a walk again follows no link and gives the same end. */
  lemma EndIsFixed(entries: Entries, keg: Path, stack: Path, queue: seq<Component>, trace: seq<Path>, end: Path)
    requires Resolves(entries, keg, stack, queue, trace, Inside(end)) && NoLinkAbove(entries, stack)
    ensures Resolves(entries, keg, [], Walking(end), [], Inside(end))
  {
    EndsInKeg(entries, keg, stack, queue, trace, end);
    assert end[..0] == [] && end[0..] == end;
    WalkDown(entries, keg, end, 0);
  }

  lemma {:induction false} WalkDown(entries: Entries, keg: Path, path: Path, k: nat)
    requires k <= |path| && InKeg(keg, path) && NoLinkAbove(entries, path)
    ensures Resolves(entries, keg, path[..k], Walking(path[k..]), [], Inside(path))
    decreases |path| - k
  {
    if k == |path| {
      assert path[..k] == path;
    } else {
      assert path[..k] + [path[k]] == path[..k + 1];
      assert Walking(path[k..])[0] == Down(path[k]);
      assert Walking(path[k..])[1..] == Walking(path[k + 1..]);
      WalkDown(entries, keg, path, k + 1);
    }
  }

  // ----- Step by step -----

  /** Where a walk stands, with what it has still to walk. */
  datatype Spot = Spot(stack: Path, queue: seq<Component>)

  /** One step, None when the walk is over or refused: it neither counts nor remembers links. */
  function Next(entries: Entries, keg: Path, spot: Spot): Option<Spot> {
    if spot.queue == [] then None
    else
      var rest := spot.queue[1..];
      match spot.queue[0]
      case Stay => Some(Spot(spot.stack, rest))
      case Up => if |spot.stack| <= |keg| then None else Some(Spot(spot.stack[..|spot.stack| - 1], rest))
      case Down(name) =>
        var path := spot.stack + [name];
        if !MayStand(keg, path) then None
        else if !IsLink(entries, path) then Some(Spot(path, rest))
        else if entries[path].prefixTarget.Some? then None
        else Some(Spot(spot.stack, entries[path].target + rest))
  }

  /** The walk is over and gives `out`. */
  predicate EndsAt(entries: Entries, keg: Path, spot: Spot, out: Outcome) {
    if spot.queue == [] then InKeg(keg, spot.stack) && out == Inside(spot.stack)
    else
      && |spot.queue| == 1 && spot.queue[0].Down? && MayStand(keg, spot.stack + [spot.queue[0].name])
      && IsLink(entries, spot.stack + [spot.queue[0].name])
      && var entry := entries[spot.stack + [spot.queue[0].name]];
      && entry.prefixTarget.Some? && out == Outside(entry.prefixTarget.value)
  }

  function After(entries: Entries, keg: Path, spot: Spot, n: nat): Option<Spot>
    decreases n
  {
    if n == 0 then Some(spot)
    else
      match Next(entries, keg, spot)
      case None => None
      case Some(next) => After(entries, keg, next, n - 1)
  }

  lemma NextStaysInKeg(entries: Entries, keg: Path, spot: Spot)
    requires InKeg(keg, spot.stack) && Next(entries, keg, spot).Some?
    ensures InKeg(keg, Next(entries, keg, spot).value.stack)
  {
  }

  /** No walk, whether it ends, loops or is refused, leaves the keg once it is inside. */
  lemma {:induction false} StaysInKeg(entries: Entries, keg: Path, spot: Spot, n: nat)
    requires InKeg(keg, spot.stack) && After(entries, keg, spot, n).Some?
    ensures InKeg(keg, After(entries, keg, spot, n).value.stack)
    decreases n
  {
    if n > 0 {
      NextStaysInKeg(entries, keg, spot);
      StaysInKeg(entries, keg, Next(entries, keg, spot).value, n - 1);
    }
  }

  /** Resolving is walking step by step to an end. */
  lemma {:induction false} ResolvesWalks(entries: Entries, keg: Path, stack: Path, queue: seq<Component>,
                                         trace: seq<Path>, out: Outcome) returns (n: nat)
    requires Resolves(entries, keg, stack, queue, trace, out)
    ensures After(entries, keg, Spot(stack, queue), n).Some?
    ensures EndsAt(entries, keg, After(entries, keg, Spot(stack, queue), n).value, out)
    decreases |trace|, |queue|
  {
    if queue == [] {
      return 0;
    }
    var m;
    match queue[0] {
      case Stay => m := ResolvesWalks(entries, keg, stack, queue[1..], trace, out);
      case Up => m := ResolvesWalks(entries, keg, stack[..|stack| - 1], queue[1..], trace, out);
      case Down(name) =>
        var path := stack + [name];
        if !IsLink(entries, path) {
          m := ResolvesWalks(entries, keg, path, queue[1..], trace, out);
        } else if entries[path].prefixTarget.Some? {
          return 0;
        } else {
          m := ResolvesWalks(entries, keg, stack, entries[path].target + queue[1..], trace[1..], out);
        }
    }
    n := m + 1;
  }

  lemma {:induction false} WalkResolves(entries: Entries, keg: Path, stack: Path, queue: seq<Component>, n: nat,
                                        out: Outcome)
    returns (trace: seq<Path>)
    requires After(entries, keg, Spot(stack, queue), n).Some?
    requires EndsAt(entries, keg, After(entries, keg, Spot(stack, queue), n).value, out)
    ensures Resolves(entries, keg, stack, queue, trace, out)
    decreases n
  {
    if n == 0 {
      if queue == [] {
        return [];
      }
      trace := [stack + [queue[0].name]];
      assert queue[1..] == [];
      return;
    }
    match queue[0]
    case Stay => trace := WalkResolves(entries, keg, stack, queue[1..], n - 1, out);
    case Up => trace := WalkResolves(entries, keg, stack[..|stack| - 1], queue[1..], n - 1, out);
    case Down(name) =>
      var path := stack + [name];
      if !IsLink(entries, path) {
        trace := WalkResolves(entries, keg, path, queue[1..], n - 1, out);
      } else {
        var rest := WalkResolves(entries, keg, stack, entries[path].target + queue[1..], n - 1, out);
        trace := [path] + rest;
        assert trace[1..] == rest;
      }
  }

  /** Consecutive spots of one walk. */
  ghost predicate IsWalk(entries: Entries, keg: Path, spots: seq<Spot>) {
    spots != [] && forall i | 0 <= i < |spots| - 1 :: Next(entries, keg, spots[i]) == Some(spots[i + 1])
  }

  ghost predicate OnceInside(keg: Path, spots: seq<Spot>) {
    forall i, j | 0 <= i <= j < |spots| && InKeg(keg, spots[i].stack) :: InKeg(keg, spots[j].stack)
  }

  lemma WalkOn(entries: Entries, keg: Path, spots: seq<Spot>, next: Spot)
    requires IsWalk(entries, keg, spots) && OnceInside(keg, spots)
    requires Next(entries, keg, spots[|spots| - 1]) == Some(next)
    ensures IsWalk(entries, keg, spots + [next]) && OnceInside(keg, spots + [next])
  {
    hide Next, InKeg;
    var longer := spots + [next];
    assert forall i | 0 <= i < |spots| :: longer[i] == spots[i];
    if InKeg(keg, spots[|spots| - 1].stack) {
      NextStaysInKeg(entries, keg, spots[|spots| - 1]);
    }
    forall i, j | 0 <= i <= j < |longer| && InKeg(keg, longer[i].stack) ensures InKeg(keg, longer[j].stack) {
      if j == |spots| && i < |spots| {
        assert InKeg(keg, spots[|spots| - 1].stack);
      }
    }
  }

  // ----- Recording results in place -----

  /** `now` differs from `scanned` in what has been recorded so far: a link may have got the
      prefix target its walk over the scanned entries ends at; nothing else a walk looks at
      has changed. */
  ghost predicate Annotated(keg: Path, scanned: Entries, now: Entries) {
    && now.Keys == scanned.Keys
    && forall path | path in scanned :: Recorded(keg, scanned, path, now[path])
  }

  ghost predicate Recorded(keg: Path, scanned: Entries, path: Path, entry: Entry)
    requires path in scanned
  {
    && entry.kind == scanned[path].kind && entry.target == scanned[path].target
    && (entry.prefixTarget == scanned[path].prefixTarget
        || (&& path != [] && entry.prefixTarget.Some? && scanned[path].prefixTarget.None?
            && LeavesFor(keg, scanned, path, entry.prefixTarget.value)))
  }

  ghost predicate CanLeave(keg: Path, entries: Entries, stack: Path, queue: seq<Component>, target: string) {
    exists trace :: Resolves(entries, keg, stack, queue, trace, Outside(target))
  }

  /** The walk of a link from its own directory leaves the keg for `target`. */
  ghost predicate LeavesFor(keg: Path, entries: Entries, path: Path, target: string)
    requires path in entries && path != []
  {
    CanLeave(keg, entries, path[..|path| - 1], entries[path].target, target)
  }

  /** The links whose own result has been recorded as leaving the keg. */
  ghost function RecordedIn(scanned: Entries, now: Entries): set<Path> {
    set path | path in scanned && path in now && scanned[path].prefixTarget.None? && now[path].prefixTarget.Some?
  }

  /** A trace up to the first link in `at`, with that link. */
  ghost function Cut(trace: seq<Path>, at: set<Path>): (cut: seq<Path>)
    ensures cut <= trace
  {
    if trace == [] then []
    else if trace[0] in at then [trace[0]]
    else
      var rest := Cut(trace[1..], at);
      assert trace == [trace[0]] + trace[1..];
      [trace[0]] + rest
  }

  lemma {:induction false} CutNothing(trace: seq<Path>, at: set<Path>)
    requires forall path | path in trace :: path !in at
    ensures Cut(trace, at) == trace
  {
    if trace != [] {
      CutNothing(trace[1..], at);
      assert trace == [trace[0]] + trace[1..];
    }
  }

  /** What is recorded is invisible: a walk over the scanned entries ends the same way over the
      annotated ones, where it stops at the first link that holds its own result. */
  lemma {:induction false} AnnotationsShorten(keg: Path, scanned: Entries, now: Entries, stack: Path,
                                              queue: seq<Component>, trace: seq<Path>, out: Outcome)
    requires Annotated(keg, scanned, now) && Resolves(scanned, keg, stack, queue, trace, out)
    ensures Resolves(now, keg, stack, queue, Cut(trace, RecordedIn(scanned, now)), out)
    decreases |trace|, |queue|
  {
    hide LeavesFor;
    if queue != [] {
      match queue[0]
      case Stay => AnnotationsShorten(keg, scanned, now, stack, queue[1..], trace, out);
      case Up => AnnotationsShorten(keg, scanned, now, stack[..|stack| - 1], queue[1..], trace, out);
      case Down(name) =>
        var path := stack + [name];
        assert path in scanned ==> Recorded(keg, scanned, path, now[path]);
        if !IsLink(scanned, path) {
          AnnotationsShorten(keg, scanned, now, path, queue[1..], trace, out);
        } else if scanned[path].prefixTarget.Some? {
          assert trace[1..] == [];
        } else if now[path].prefixTarget.Some? {
          LeavingEndsHere(keg, scanned, stack, name, queue[1..], trace, out, now[path].prefixTarget.value);
        } else {
          AnnotationsShorten(keg, scanned, now, stack, scanned[path].target + queue[1..], trace[1..], out);
          var rest := Cut(trace[1..], RecordedIn(scanned, now));
          assert ([path] + rest)[1..] == rest;
        }
    }
  }

  /** A walk that stays in the archive follows no link whose own walk leaves the keg. */
  lemma {:induction false} InsideNeverLeaves(keg: Path, scanned: Entries, stack: Path, queue: seq<Component>,
                                             trace: seq<Path>, end: Path)
    requires Resolves(scanned, keg, stack, queue, trace, Inside(end))
    ensures forall path | path in trace ::
      && path != [] && path in scanned && scanned[path].prefixTarget.None?
      && forall target :: !LeavesFor(keg, scanned, path, target)
    decreases |trace|, |queue|
  {
    hide LeavesFor;
    if queue != [] {
      match queue[0]
      case Stay => InsideNeverLeaves(keg, scanned, stack, queue[1..], trace, end);
      case Up => InsideNeverLeaves(keg, scanned, stack[..|stack| - 1], queue[1..], trace, end);
      case Down(name) =>
        var path := stack + [name];
        if !IsLink(scanned, path) {
          InsideNeverLeaves(keg, scanned, path, queue[1..], trace, end);
        } else {
          forall target ensures !LeavesFor(keg, scanned, path, target) {
            if LeavesFor(keg, scanned, path, target) {
              LeavingEndsHere(keg, scanned, stack, name, queue[1..], trace, Inside(end), target);
            }
          }
          InsideNeverLeaves(keg, scanned, stack, scanned[path].target + queue[1..], trace[1..], end);
          assert trace == [path] + trace[1..];
        }
    }
  }

  /** So it meets no recorded result. */
  lemma InsideMeetsNone(keg: Path, scanned: Entries, now: Entries, stack: Path, queue: seq<Component>,
                        trace: seq<Path>, end: Path)
    requires Annotated(keg, scanned, now) && Resolves(scanned, keg, stack, queue, trace, Inside(end))
    ensures forall path | path in trace :: path !in RecordedIn(scanned, now)
  {
    hide Resolves, LeavesFor;
    InsideNeverLeaves(keg, scanned, stack, queue, trace, end);
    forall path | path in trace ensures path !in RecordedIn(scanned, now) {
      assert Recorded(keg, scanned, path, now[path]);
    }
  }

  lemma LeavingEndsHere(keg: Path, scanned: Entries, stack: Path, name: Name, rest: seq<Component>, trace: seq<Path>,
                        out: Outcome, target: string)
    requires IsLink(scanned, stack + [name]) && scanned[stack + [name]].prefixTarget.None?
    requires LeavesFor(keg, scanned, stack + [name], target)
    requires trace != [] && Resolves(scanned, keg, stack, scanned[stack + [name]].target + rest, trace[1..], out)
    ensures rest == [] && out == Outside(target)
  {
    var path := stack + [name];
    assert path[..|path| - 1] == stack;
    var s :| Resolves(scanned, keg, stack, scanned[path].target, s, Outside(target));
    OutsideEndsWalk(scanned, keg, stack, scanned[path].target, rest, s, target, trace[1..], out);
  }

  /** And a walk over the annotated entries is a walk over the scanned ones. */
  lemma {:induction false} AnnotationsFaithful(keg: Path, scanned: Entries, now: Entries, stack: Path,
                                               queue: seq<Component>, trace: seq<Path>,
                                               out: Outcome) returns (more: seq<Path>)
    requires Annotated(keg, scanned, now) && Resolves(now, keg, stack, queue, trace, out)
    ensures trace <= more && Resolves(scanned, keg, stack, queue, more, out)
    decreases |trace|, |queue|
  {
    hide LeavesFor;
    if queue == [] {
      return [];
    }
    match queue[0]
    case Stay => more := AnnotationsFaithful(keg, scanned, now, stack, queue[1..], trace, out);
    case Up => more := AnnotationsFaithful(keg, scanned, now, stack[..|stack| - 1], queue[1..], trace, out);
    case Down(name) =>
      var path := stack + [name];
      assert path in scanned ==> Recorded(keg, scanned, path, now[path]);
      if !IsLink(scanned, path) {
        more := AnnotationsFaithful(keg, scanned, now, path, queue[1..], trace, out);
      } else if scanned[path].prefixTarget.Some? {
        more := [path];
      } else if now[path].prefixTarget.Some? {
        var rest := LeavingTrace(keg, scanned, stack, name, now[path].prefixTarget.value);
        more := [path] + rest;
        assert more[1..] == rest;
        assert scanned[path].target + queue[1..] == scanned[path].target;
      } else {
        var rest := AnnotationsFaithful(keg, scanned, now, stack, scanned[path].target + queue[1..], trace[1..], out);
        more := [path] + rest;
        assert more[1..] == rest && trace == [path] + trace[1..];
      }
  }

  lemma LeavingTrace(keg: Path, scanned: Entries, stack: Path, name: Name, target: string) returns (trace: seq<Path>)
    requires stack + [name] in scanned && LeavesFor(keg, scanned, stack + [name], target)
    ensures Resolves(scanned, keg, stack, scanned[stack + [name]].target, trace, Outside(target))
  {
    var path := stack + [name];
    assert path[..|path| - 1] == stack;
    trace :| Resolves(scanned, keg, stack, scanned[path].target, trace, Outside(target));
  }

  // ----- What the program accepts -----

  /** A walk the program accepts follows no link twice and no more than `limit`. */
  ghost predicate Accepts(entries: Entries, keg: Path, limit: nat, stack: Path, queue: seq<Component>,
                          trace: seq<Path>, out: Outcome) {
    Resolves(entries, keg, stack, queue, trace, out) && NoRepeats(trace) && |trace| <= limit
  }

  /** The walk over the scanned entries, cut at the first link in `at`, would be accepted. */
  ghost predicate AcceptsCut(keg: Path, limit: nat, scanned: Entries, at: set<Path>, stack: Path, queue: seq<Component>,
                             out: Outcome) {
    exists trace :: Resolves(scanned, keg, stack, queue, trace, out) && CutFits(trace, at, limit)
  }

  ghost predicate CutFits(trace: seq<Path>, at: set<Path>, limit: nat) {
    NoRepeats(Cut(trace, at)) && |Cut(trace, at)| <= limit
  }

  /** Exactly what is accepted once results are recorded in place. */
  lemma AcceptsExactly(keg: Path, limit: nat, scanned: Entries, now: Entries, stack: Path, queue: seq<Component>,
                       out: Outcome)
    requires Annotated(keg, scanned, now)
    ensures (exists trace :: Accepts(now, keg, limit, stack, queue, trace, out)) <==>
      AcceptsCut(keg, limit, scanned, RecordedIn(scanned, now), stack, queue, out)
  {
    hide Resolves, Annotated, Cut, NoRepeats, RecordedIn;
    var at := RecordedIn(scanned, now);
    forall trace | Resolves(scanned, keg, stack, queue, trace, out)
      ensures Accepts(now, keg, limit, stack, queue, Cut(trace, at), out) <==> CutFits(trace, at, limit)
    {
      AnnotationsShorten(keg, scanned, now, stack, queue, trace, out);
    }
    if exists trace :: Accepts(now, keg, limit, stack, queue, trace, out) {
      var trace :| Accepts(now, keg, limit, stack, queue, trace, out);
      var more := AnnotationsFaithful(keg, scanned, now, stack, queue, trace, out);
      AnnotationsShorten(keg, scanned, now, stack, queue, more, out);
      ResolvesOnce(now, keg, stack, queue, trace, out, Cut(more, at), out);
      assert CutFits(more, at, limit);
    }
  }

  /** For a walk that stays in the archive this is acceptance over the scanned entries alone. */
  lemma AcceptsInside(keg: Path, limit: nat, scanned: Entries, now: Entries, stack: Path, queue: seq<Component>,
                      end: Path)
    requires Annotated(keg, scanned, now)
    ensures AcceptsCut(keg, limit, scanned, RecordedIn(scanned, now), stack, queue, Inside(end)) <==>
      exists trace :: Accepts(scanned, keg, limit, stack, queue, trace, Inside(end))
  {
    hide Resolves, Annotated, Cut, NoRepeats, RecordedIn;
    var at := RecordedIn(scanned, now);
    forall trace | Resolves(scanned, keg, stack, queue, trace, Inside(end))
      ensures CutFits(trace, at, limit) <==> Accepts(scanned, keg, limit, stack, queue, trace, Inside(end))
    {
      InsideMeetsNone(keg, scanned, now, stack, queue, trace, end);
      CutNothing(trace, at);
    }
  }

  /** A walk accepted over the scanned entries is accepted wherever it is cut. */
  lemma AcceptsAnyCut(keg: Path, limit: nat, scanned: Entries, at: set<Path>, stack: Path, queue: seq<Component>,
                      trace: seq<Path>, out: Outcome)
    requires Accepts(scanned, keg, limit, stack, queue, trace, out)
    ensures AcceptsCut(keg, limit, scanned, at, stack, queue, out)
  {
    hide Resolves, Cut;
    assert CutFits(trace, at, limit);
  }
}
