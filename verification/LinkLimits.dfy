/** What the bookkeeping of internal/bottle/verify.go, resolvePath, costs: archives with links
    that have an end and are refused. */
module LinkLimits {
  import opened Wrappers
  import opened Digraph
  import opened Sorting
  import opened LinkPaths
  import opened SymbolicLinks
  import opened HardLinks
  import opened ArchiveLinks

  const SOME_CONTENT := Content("", 0, 0, 0, 0, [], false)

  const A_DIRECTORY := Entry(Directory, [], None, None, SOME_CONTENT)

  function LinkTo(target: seq<Component>): Entry { Entry(Symlink, target, None, None, SOME_CONTENT) }

  lemma NamesDiffer(dir: Path, a: Name, b: Name)
    requires a != b
    ensures dir + [a] != dir + [b]
  {
    assert (dir + [a])[|dir|] != (dir + [b])[|dir|];
  }

  // ----- The same link twice -----

  /** A directory x, the link d to it, and the link l to `d/../d`. */
  function TwiceEntries(dir: Path, d: Name, l: Name, x: Name): Entries {
    map[dir + [x] := A_DIRECTORY, dir + [d] := LinkTo([Down(x)]), dir + [l] := LinkTo([Down(d), Up, Down(d)])]
  }

  lemma TwiceAt(dir: Path, d: Name, l: Name, x: Name)
    requires d != x && l != x && l != d
    ensures var entries := TwiceEntries(dir, d, l, x);
      && dir + [x] in entries && entries[dir + [x]] == A_DIRECTORY
      && dir + [d] in entries && entries[dir + [d]] == LinkTo([Down(x)])
      && dir + [l] in entries && entries[dir + [l]] == LinkTo([Down(d), Up, Down(d)])
  {
    NamesDiffer(dir, d, x);
    NamesDiffer(dir, l, x);
    NamesDiffer(dir, l, d);
  }

  /** Down into the directory x by its name or by the link d. */
  lemma GoDown(entries: Entries, keg: Path, dir: Path, d: Name, x: Name, rest: seq<Component>, trace: seq<Path>,
               out: Outcome)
    requires InKeg(keg, dir) && dir + [x] in entries && !IsLink(entries, dir + [x])
    requires dir + [d] in entries && entries[dir + [d]] == LinkTo([Down(x)])
    requires Resolves(entries, keg, dir + [x], rest, trace, out)
    ensures Resolves(entries, keg, dir, [Down(d)] + rest, [dir + [d]] + trace, out)
  {
    assert keg <= dir + [x] && keg <= dir + [d];
    var inner := [Down(x)] + rest;
    assert inner[0] == Down(x) && inner[1..] == rest;
    assert Resolves(entries, keg, dir, inner, trace, out);
    var outer, longer := [Down(d)] + rest, [dir + [d]] + trace;
    assert outer[0] == Down(d) && outer[1..] == rest && longer[0] == dir + [d] && longer[1..] == trace;
  }

  lemma TwiceResolves(keg: Path, dir: Path, d: Name, l: Name, x: Name)
    requires InKeg(keg, dir) && d != x && l != x && l != d
    ensures Resolves(TwiceEntries(dir, d, l, x), keg, dir, [Down(d), Up, Down(d)], [dir + [d], dir + [d]],
                     Inside(dir + [x]))
  {
    hide Resolves;
    var entries := TwiceEntries(dir, d, l, x);
    var link, end := dir + [d], Inside(dir + [x]);
    TwiceAt(dir, d, l, x);
    assert Resolves(entries, keg, dir + [x], [], [], end) by {
      EndHere(entries, keg, dir + [x]);
    }
    GoDown(entries, keg, dir, d, x, [], [], end);
    assert [Down(d)] + [] == [Down(d)] && [link] + [] == [link];
    BackUp(entries, keg, dir, x, [Down(d)], [link], end);
    GoDown(entries, keg, dir, d, x, [Up] + [Down(d)], [link], end);
    assert [Down(d)] + ([Up] + [Down(d)]) == [Down(d), Up, Down(d)] && [link] + [link] == [link, link];
  }

  lemma EndHere(entries: Entries, keg: Path, path: Path)
    requires InKeg(keg, path)
    ensures Resolves(entries, keg, path, [], [], Inside(path))
  {
  }

  lemma BackUp(entries: Entries, keg: Path, dir: Path, x: Name, rest: seq<Component>, trace: seq<Path>, out: Outcome)
    requires InKeg(keg, dir) && Resolves(entries, keg, dir, rest, trace, out)
    ensures Resolves(entries, keg, dir + [x], [Up] + rest, trace, out)
  {
    assert ([Up] + rest)[1..] == rest && (dir + [x])[..|dir|] == dir;
  }

  /** The link to `d/../d` has an end, and no pass accepts the archive, whatever the limit and
      whatever comes first: its walk goes through d twice. */
  lemma EndRejected(keg: Path, dir: Path, limit: nat, allowed: (Path, string) -> bool, d: Name, l: Name, x: Name)
    requires InKeg(keg, dir) && d != x && l != x && l != d
    ensures var entries := TwiceEntries(dir, d, l, x);
      && dir + [l] in entries
      && Resolves(entries, keg, dir, entries[dir + [l]].target, [dir + [d], dir + [d]], Inside(dir + [x]))
      && (forall done :: !LinkPasses(keg, limit, allowed, entries, dir + [l], done))
      && forall paths | IsListing(entries, paths) :: !AllPass(keg, limit, allowed, entries, paths)
  {
    hide Resolves, LinkPasses;
    var entries := TwiceEntries(dir, d, l, x);
    var path, trace := dir + [l], [dir + [d], dir + [d]];
    TwiceAt(dir, d, l, x);
    TwiceResolves(keg, dir, d, l, x);
    assert trace[0] == trace[1] && Dir(path) == dir;
    forall done ensures !LinkPasses(keg, limit, allowed, entries, path, done) {
      InsidePasses(keg, limit, allowed, entries, done, path, trace, dir + [x]);
    }
    forall paths | IsListing(entries, paths) ensures !AllPass(keg, limit, allowed, entries, paths) {
      assert path in Elems(paths);
      var i :| 0 <= i < |paths| && paths[i] == path;
      assert !LinkPasses(keg, limit, allowed, entries, paths[i], Elems(paths[..i]));
    }
  }

  // ----- A chain longer than the limit -----

  /** A link the scan has found to leave the keg for an authorized place. */
  predicate IsExit(entry: Entry) { entry.kind.Symlink? && entry.prefixTarget.Some? }

  /** Links in one directory that lead from each name to the next, the last one out of the keg. */
  function ChainEntries(dir: Path, names: seq<Name>, exit: Entry): Entries
    requires names != []
  {
    if |names| == 1 then map[dir + [names[0]] := exit]
    else ChainEntries(dir, names[1..], exit)[dir + [names[0]] := LinkTo([Down(names[1])])]
  }

  function PathsOf(dir: Path, names: seq<Name>): (paths: seq<Path>)
    ensures |paths| == |names| && forall i | 0 <= i < |names| :: paths[i] == dir + [names[i]]
  {
    seq(|names|, i requires 0 <= i < |names| => dir + [names[i]])
  }

  /** The chain, and one more link to its first name. */
  function ChainArchive(dir: Path, names: seq<Name>, exit: Entry, link: Name): Entries
    requires names != []
  {
    ChainEntries(dir, names, exit)[dir + [link] := LinkTo([Down(names[0])])]
  }

  /** The entry of the chain at a name. */
  lemma {:induction false} ChainHolds(dir: Path, names: seq<Name>, exit: Entry, i: nat)
    requires NoRepeats(names) && i < |names|
    ensures var entries := ChainEntries(dir, names, exit);
      && dir + [names[i]] in entries
      && entries[dir + [names[i]]] == if i < |names| - 1 then LinkTo([Down(names[i + 1])]) else exit
  {
    if i > 0 {
      ChainHolds(dir, names[1..], exit, i - 1);
      NamesDiffer(dir, names[i], names[0]);
    }
  }

  lemma {:induction false} ChainKeys(dir: Path, names: seq<Name>, exit: Entry)
    requires names != []
    ensures ChainEntries(dir, names, exit).Keys == Elems(PathsOf(dir, names))
  {
    var paths := PathsOf(dir, names);
    assert paths == [paths[0]] + PathsOf(dir, names[1..]);
    if |names| > 1 {
      ChainKeys(dir, names[1..], exit);
    }
  }

  ghost predicate IsChain(dir: Path, names: seq<Name>, exit: Entry, link: Name, entries: Entries) {
    && names != [] && NoRepeats(names) && link !in names
    && entries == ChainArchive(dir, names, exit, link)
  }

  lemma ChainAt(dir: Path, names: seq<Name>, exit: Entry, link: Name, entries: Entries, i: nat)
    requires IsChain(dir, names, exit, link, entries) && i < |names|
    ensures dir + [names[i]] in entries
    ensures entries[dir + [names[i]]] == if i < |names| - 1 then LinkTo([Down(names[i + 1])]) else exit
    ensures dir + [link] in entries && entries[dir + [link]] == LinkTo([Down(names[0])])
  {
    ChainHolds(dir, names, exit, i);
    NamesDiffer(dir, names[i], link);
  }

  /** Walking to a name of the chain follows the rest of it, and leaves. */
  lemma {:induction false} ChainTrace(keg: Path, dir: Path, names: seq<Name>, exit: Entry, link: Name,
                                      entries: Entries, i: nat)
    requires InKeg(keg, dir) && IsExit(exit) && IsChain(dir, names, exit, link, entries) && i < |names|
    ensures Resolves(entries, keg, dir, [Down(names[i])], PathsOf(dir, names)[i..], Outside(exit.prefixTarget.value))
    decreases |names| - i
  {
    ChainAt(dir, names, exit, link, entries, i);
    var trace := PathsOf(dir, names)[i..];
    var queue := [Down(names[i])];
    assert queue[1..] == [] && trace[0] == dir + [names[i]] && keg <= dir + [names[i]];
    if i == |names| - 1 {
      assert trace == [dir + [names[i]]];
    } else {
      ChainTrace(keg, dir, names, exit, link, entries, i + 1);
      assert trace[1..] == PathsOf(dir, names)[i + 1..];
      assert [Down(names[i + 1])] + [] == [Down(names[i + 1])];
    }
  }

  lemma ChainNoRepeats(dir: Path, names: seq<Name>, i: nat)
    requires NoRepeats(names) && i <= |names|
    ensures NoRepeats(PathsOf(dir, names)[i..])
  {
    var paths := PathsOf(dir, names);
    forall j, k | 0 <= j < k < |paths| ensures paths[j] != paths[k] {
      NamesDiffer(dir, names[j], names[k]);
    }
  }

  /** The chain has one link more than the limit, and its links may leave for where it leads. */
  ghost predicate IsLongChain(keg: Path, dir: Path, limit: nat, allowed: (Path, string) -> bool, names: seq<Name>,
                              exit: Entry, link: Name, entries: Entries) {
    && InKeg(keg, dir) && limit > |dir|
    && |names| == limit + 1 && IsExit(exit) && IsChain(dir, names, exit, link, entries)
    && (forall i | 0 <= i < |names| :: allowed(dir + [names[i]], exit.prefixTarget.value))
    && allowed(dir + [link], exit.prefixTarget.value)
  }

  lemma FirstIsRefused(keg: Path, dir: Path, limit: nat, allowed: (Path, string) -> bool, names: seq<Name>,
                       exit: Entry, link: Name, entries: Entries)
    requires IsLongChain(keg, dir, limit, allowed, names, exit, link, entries)
    ensures dir + [link] in entries && !LinkPasses(keg, limit, allowed, entries, dir + [link], Elems([]))
  {
    hide Resolves, Cut, IsChain;
    ChainAt(dir, names, exit, link, entries, 0);
    ChainTrace(keg, dir, names, exit, link, entries, 0);
    var path, trace, queue := dir + [link], PathsOf(dir, names), [Down(names[0])];
    assert Dir(path) == dir && trace[0..] == trace && Leaving(keg, entries, Elems([])) == {};
    forall out ensures !PassesWith(keg, limit, allowed, entries, path, Elems([]), out) {
      forall other | Resolves(entries, keg, dir, queue, other, out) ensures !CutFits(other, {}, limit) {
        ResolvesOnce(entries, keg, dir, queue, trace, Outside(exit.prefixTarget.value), other, out);
        CutNothing(other, {});
      }
    }
  }

  lemma ChainLinkPasses(keg: Path, dir: Path, limit: nat, allowed: (Path, string) -> bool, names: seq<Name>,
                        exit: Entry, link: Name, entries: Entries, i: nat, done: set<Path>)
    requires IsLongChain(keg, dir, limit, allowed, names, exit, link, entries) && i < |names|
    ensures dir + [names[i]] in entries && LinkPasses(keg, limit, allowed, entries, dir + [names[i]], done)
  {
    hide Resolves, Leaving, AcceptsCut;
    ChainAt(dir, names, exit, link, entries, i);
    var path := dir + [names[i]];
    if i < limit {
      ChainTrace(keg, dir, names, exit, link, entries, i + 1);
      ChainNoRepeats(dir, names, i + 1);
      assert Dir(path) == dir;
      var trace, out := PathsOf(dir, names)[i + 1..], Outside(exit.prefixTarget.value);
      assert Accepts(entries, keg, limit, Dir(path), entries[path].target, trace, out);
      GoodPasses(keg, limit, allowed, entries, path, done);
    }
  }

  lemma LastPasses(keg: Path, dir: Path, limit: nat, allowed: (Path, string) -> bool, names: seq<Name>,
                   exit: Entry, link: Name, entries: Entries)
    requires IsLongChain(keg, dir, limit, allowed, names, exit, link, entries)
    ensures dir + [link] in entries
    ensures LinkPasses(keg, limit, allowed, entries, dir + [link], Elems(PathsOf(dir, names)))
  {
    hide Resolves, IsChain;
    var outside := exit.prefixTarget.value;
    ChainAt(dir, names, exit, link, entries, 0);
    ChainTrace(keg, dir, names, exit, link, entries, 0);
    ChainTrace(keg, dir, names, exit, link, entries, 1);
    var path, trace := dir + [link], PathsOf(dir, names);
    var done := Elems(trace);
    assert Dir(path) == dir && Dir(trace[0]) == dir && trace[0..] == trace;
    assert CanLeave(keg, entries, dir, [Down(names[1])], outside);
    assert trace[0] in Leaving(keg, entries, done);
    assert CutFits(trace, Leaving(keg, entries, done), limit);
    assert PassesWith(keg, limit, allowed, entries, path, done, Outside(outside));
  }

  /** The link is refused before the chain and accepted after it. */
  lemma PlaceDecides(keg: Path, dir: Path, limit: nat, allowed: (Path, string) -> bool, names: seq<Name>,
                     exit: Entry, link: Name, entries: Entries)
    requires IsLongChain(keg, dir, limit, allowed, names, exit, link, entries)
    ensures !AllLinksPass(keg, limit, allowed, entries, [dir + [link]] + PathsOf(dir, names))
    ensures AllLinksPass(keg, limit, allowed, entries, PathsOf(dir, names) + [dir + [link]])
  {
    hide IsLongChain, LinkPasses;
    var paths := PathsOf(dir, names);
    FirstIsRefused(keg, dir, limit, allowed, names, exit, link, entries);
    var first := [dir + [link]] + paths;
    assert first[0] == dir + [link] && first[..0] == [];
    var last := paths + [dir + [link]];
    forall i | 0 <= i < |last| && last[i] in entries
      ensures LinkPasses(keg, limit, allowed, entries, last[i], Elems(last[..i]))
    {
      if i < |paths| {
        ChainLinkPasses(keg, dir, limit, allowed, names, exit, link, entries, i, Elems(last[..i]));
      } else {
        assert last[..i] == paths;
        LastPasses(keg, dir, limit, allowed, names, exit, link, entries);
      }
    }
  }

  // ----- In the order of the names -----

  predicate NameLt(a: Name, b: Name) { TextLe(a.text, b.text) && a != b }

  ghost predicate Increasing(names: seq<Name>) {
    forall i, j | 0 <= i < j < |names| :: NameLt(names[i], names[j])
  }

  lemma {:induction false} CommonPrefix(prefix: string, a: string, b: string)
    requires TextLe(a, b)
    ensures TextLe(prefix + a, prefix + b)
  {
    if prefix == [] {
      assert prefix + a == a && prefix + b == b;
    } else {
      CommonPrefix(prefix[1..], a, b);
      assert (prefix + a)[1..] == prefix[1..] + a && (prefix + b)[1..] == prefix[1..] + b;
    }
  }

  /** In one directory, paths are sorted as their names are. */
  lemma SortedAsNames(dir: Path, names: seq<Name>)
    requires Increasing(names)
    ensures SortedBy(PathsOf(dir, names), PathLe) && NoRepeats(PathsOf(dir, names))
  {
    hide TextLe, JoinPath;
    var paths := PathsOf(dir, names);
    forall i, j | 0 <= i < j < |paths| ensures PathLe(paths[i], paths[j]) && paths[i] != paths[j] {
      assert NameLt(names[i], names[j]);
      NamesDiffer(dir, names[i], names[j]);
      JoinLast(dir, names[i]);
      JoinLast(dir, names[j]);
      CommonPrefix(DirText(dir), names[i].text, names[j].text);
    }
  }

  function DirText(dir: Path): string { if dir == [] then "" else JoinPath(dir) + "/" }

  lemma JoinLast(dir: Path, name: Name)
    ensures JoinPath(dir + [name]) == DirText(dir) + name.text
  {
    assert (dir + [name])[..|dir|] == dir;
  }

  /** The archive lists its paths in the order of the names. */
  lemma ChainListing(dir: Path, names: seq<Name>, exit: Entry, link: Name, all: seq<Name>)
    requires names != [] && Increasing(all) && (all == [link] + names || all == names + [link])
    ensures IsListing(ChainArchive(dir, names, exit, link), PathsOf(dir, all))
  {
    hide SortedBy, NoRepeats;
    SortedAsNames(dir, all);
    ChainKeys(dir, names, exit);
    var paths, chain := PathsOf(dir, all), PathsOf(dir, names);
    assert paths == if all == [link] + names then [dir + [link]] + chain else chain + [dir + [link]];
  }

  /** All entries are links in one directory, so only the symbolic links decide. */
  lemma OnlyLinksDecide(keg: Path, dir: Path, limit: nat, allowed: (Path, string) -> bool, names: seq<Name>,
                        exit: Entry, link: Name, entries: Entries, paths: seq<Path>)
    requires IsExit(exit) && IsChain(dir, names, exit, link, entries)
    ensures AllPass(keg, limit, allowed, entries, paths) <==> AllLinksPass(keg, limit, allowed, entries, paths)
  {
    hide AllLinksPass, IsChain, HardlinkPasses;
    forall path | path in entries ensures |path| == |dir| + 1 && entries[path].kind.Symlink? {
      ChainHoldsLinks(dir, names, exit, link, entries, path);
    }
  }

  lemma ChainHoldsLinks(dir: Path, names: seq<Name>, exit: Entry, link: Name, entries: Entries, path: Path)
    requires IsExit(exit) && IsChain(dir, names, exit, link, entries) && path in entries
    ensures |path| == |dir| + 1 && entries[path].kind.Symlink?
  {
    ChainKeys(dir, names, exit);
    if path != dir + [link] {
      assert path in Elems(PathsOf(dir, names));
      var i :| 0 <= i < |names| && PathsOf(dir, names)[i] == path;
      ChainAt(dir, names, exit, link, entries, i);
    }
  }

  lemma ChainOf(names: seq<Name>, link: Name, all: seq<Name>)
    requires Increasing(all) && (all == [link] + names || all == names + [link])
    ensures NoRepeats(names) && link !in names
  {
    forall i, j | 0 <= i < j < |all| ensures all[i] != all[j] {
      assert NameLt(all[i], all[j]);
    }
    var offset := if all == [link] + names then 1 else 0;
    assert forall i | 0 <= i < |names| :: names[i] == all[i + offset];
    assert link == if offset == 1 then all[0] else all[|names|];
  }

  /** Whether an archive is accepted depends on the names of its links: with the same chain, the
      link is refused under a name before the chain and accepted under a name after it. This is
      so in every directory of the keg whose links may leave it, for every limit that lets the
      directory hold them. */
  lemma OrderMatters(keg: Path, dir: Path, limit: nat, allowed: (Path, string) -> bool, names: seq<Name>, exit: Entry,
                     early: Name, late: Name)
    requires InKeg(keg, dir) && limit > |dir| && |names| == limit + 1 && IsExit(exit)
    requires Increasing([early] + names) && Increasing(names + [late])
    requires forall name | name in [early] + names + [late] :: allowed(dir + [name], exit.prefixTarget.value)
    ensures var entries := ChainArchive(dir, names, exit, early);
      && IsListing(entries, PathsOf(dir, [early] + names))
      && forall paths | IsListing(entries, paths) :: !AllPass(keg, limit, allowed, entries, paths)
    ensures var entries := ChainArchive(dir, names, exit, late);
      && IsListing(entries, PathsOf(dir, names + [late]))
      && forall paths | IsListing(entries, paths) :: AllPass(keg, limit, allowed, entries, paths)
  {
    hide AllPass, IsListing, Increasing, ChainArchive, NoRepeats;
    OrderDecided(keg, dir, limit, allowed, names, exit, early, [early] + names);
    OrderDecided(keg, dir, limit, allowed, names, exit, late, names + [late]);
    var chain := PathsOf(dir, names);
    assert PathsOf(dir, [early] + names) == [dir + [early]] + chain;
    assert PathsOf(dir, names + [late]) == chain + [dir + [late]];
    PlaceDecides(keg, dir, limit, allowed, names, exit, early, ChainArchive(dir, names, exit, early));
    PlaceDecides(keg, dir, limit, allowed, names, exit, late, ChainArchive(dir, names, exit, late));
  }

  /** The archive has one listing, and is accepted exactly when its symbolic links pass in it. */
  lemma OrderDecided(keg: Path, dir: Path, limit: nat, allowed: (Path, string) -> bool, names: seq<Name>, exit: Entry,
                     link: Name, all: seq<Name>)
    requires InKeg(keg, dir) && limit > |dir| && |names| == limit + 1 && IsExit(exit)
    requires Increasing(all) && (all == [link] + names || all == names + [link])
    requires forall name | name in all :: allowed(dir + [name], exit.prefixTarget.value)
    ensures var entries := ChainArchive(dir, names, exit, link);
      && IsListing(entries, PathsOf(dir, all))
      && IsLongChain(keg, dir, limit, allowed, names, exit, link, entries)
      && forall paths | IsListing(entries, paths) ::
           AllPass(keg, limit, allowed, entries, paths) <==>
           AllLinksPass(keg, limit, allowed, entries, PathsOf(dir, all))
  {
    hide AllPass, AllLinksPass, IsListing, Increasing, ChainArchive, NoRepeats;
    var entries := ChainArchive(dir, names, exit, link);
    ChainOf(names, link, all);
    ChainListing(dir, names, exit, link, all);
    assert forall i | 0 <= i < |names| :: names[i] in all;
    forall paths | IsListing(entries, paths)
      ensures AllPass(keg, limit, allowed, entries, paths) <==>
        AllLinksPass(keg, limit, allowed, entries, PathsOf(dir, all))
    {
      ListingUnique(entries, paths, PathsOf(dir, all));
      OnlyLinksDecide(keg, dir, limit, allowed, names, exit, link, entries, paths);
    }
  }

  // ----- There are such names -----

  function Bs(n: nat): (text: string)
    ensures |text| == n && forall i | 0 <= i < n :: text[i] == 'b'
  {
    seq(n, _ => 'b')
  }

  function BName(i: nat): Name { Name(Bs(i + 1)) }

  lemma {:induction false} BsGrow(i: nat, j: nat)
    requires i <= j
    ensures TextLe(Bs(i), Bs(j))
  {
    if i > 0 {
      assert Bs(i)[1..] == Bs(i - 1) && Bs(j)[1..] == Bs(j - 1);
      BsGrow(i - 1, j - 1);
    }
  }

  /** For every length there are names in order, with one before and one after them. */
  lemma SuchNames(n: nat) returns (names: seq<Name>, early: Name, late: Name)
    ensures |names| == n && Increasing([early] + names) && Increasing(names + [late])
  {
    names := seq(n, i requires 0 <= i < n => BName(i));
    early, late := Name("a"), Name("c");
    forall i, j | 0 <= i < j < n ensures NameLt(names[i], names[j]) {
      BsGrow(i + 1, j + 1);
      assert |names[i].text| != |names[j].text|;
    }
    forall i | 0 <= i < n ensures NameLt(early, names[i]) && NameLt(names[i], late) {
      assert names[i].text[0] == 'b' && early.text[0] == 'a' && late.text[0] == 'c';
    }
  }

  // ----- And links that may leave -----

  const LIBEXEC := Name("libexec")

  /** allowedExternalSymlink for a Formula: below libexec of the keg, links may lead to the opt
      directory of an authorized Formula. */
  predicate LibexecRule(keg: Path, formulae: set<string>, path: Path, target: string) {
    && keg + [LIBEXEC] < path
    && exists formula | formula in formulae :: target == "opt/" + formula || "opt/" + formula + "/" <= target
  }

  /** So below libexec it happens for every authorized Formula. */
  lemma OrderMattersInLibexec(keg: Path, dir: Path, limit: nat, allowed: (Path, string) -> bool, formulae: set<string>,
                              formula: string, exit: Entry)
    returns (names: seq<Name>, early: Name, late: Name)
    requires keg + [LIBEXEC] <= dir && limit > |dir| && formula in formulae
    requires exit.kind.Symlink? && exit.prefixTarget == Some("opt/" + formula)
    requires forall path, target | LibexecRule(keg, formulae, path, target) :: allowed(path, target)
    ensures |names| == limit + 1
    ensures var entries := ChainArchive(dir, names, exit, early);
      && IsListing(entries, PathsOf(dir, [early] + names))
      && forall paths | IsListing(entries, paths) :: !AllPass(keg, limit, allowed, entries, paths)
    ensures var entries := ChainArchive(dir, names, exit, late);
      && IsListing(entries, PathsOf(dir, names + [late]))
      && forall paths | IsListing(entries, paths) :: AllPass(keg, limit, allowed, entries, paths)
  {
    hide AllPass, IsListing, Increasing, ChainArchive;
    names, early, late := SuchNames(limit + 1);
    assert keg <= keg + [LIBEXEC] <= dir;
    forall name | name in [early] + names + [late] ensures allowed(dir + [name], "opt/" + formula) {
      assert keg + [LIBEXEC] < dir + [name];
      assert LibexecRule(keg, formulae, dir + [name], "opt/" + formula);
    }
    OrderMatters(keg, dir, limit, allowed, names, exit, early, late);
  }
}
