/** Directed graphs given by a successor function: paths, reachability, cycles.
    Every graph walk of the program (install order, receipt closure, closure
    check, tap discovery) is specified with these definitions. */
module Digraph {

  type Edges<!T> = T -> set<T>

  ghost predicate Step<T>(e: Edges<T>, p: seq<T>, i: int) {
    0 <= i < |p| - 1 && p[i + 1] in e(p[i])
  }

  ghost predicate IsPath<T>(e: Edges<T>, p: seq<T>) {
    |p| > 0 && forall i | 0 <= i < |p| - 1 :: Step(e, p, i)
  }

  ghost predicate PathFromTo<T>(e: Edges<T>, p: seq<T>, a: T, b: T) {
    IsPath(e, p) && p[0] == a && p[|p| - 1] == b
  }

  ghost predicate Reaches<T(!new)>(e: Edges<T>, a: T, b: T) {
    exists p :: PathFromTo(e, p, a, b)
  }

  ghost predicate ReachedFrom<T(!new)>(e: Edges<T>, roots: set<T>, b: T) {
    exists a :: a in roots && Reaches(e, a, b)
  }

  ghost predicate IsCycle<T>(e: Edges<T>, c: seq<T>) {
    IsPath(e, c) && |c| >= 2 && c[0] == c[|c| - 1]
  }

  ghost predicate Acyclic<T(!new)>(e: Edges<T>) {
    forall c :: !IsCycle(e, c)
  }

  /** Some cycle can be entered from one of the roots. */
  ghost predicate CycleReached<T(!new)>(e: Edges<T>, roots: set<T>) {
    exists c :: IsCycle(e, c) && ReachedFrom(e, roots, c[0])
  }

  ghost predicate Closed<T(!new)>(e: Edges<T>, s: set<T>) {
    forall x :: x in s ==> e(x) <= s
  }

  lemma ReachesSelf<T(!new)>(e: Edges<T>, a: T)
    ensures Reaches(e, a, a)
  {
    assert PathFromTo(e, [a], a, a);
  }

  lemma PathConcat<T>(e: Edges<T>, p: seq<T>, q: seq<T>)
    requires IsPath(e, p) && IsPath(e, q) && p[|p| - 1] == q[0]
    ensures IsPath(e, p + q[1..])
  {
    var r := p + q[1..];
    forall i | 0 <= i < |r| - 1 ensures Step(e, r, i) {
      if i < |p| - 1 {
        assert Step(e, p, i);
      } else {
        assert Step(e, q, i - |p| + 1);
      }
    }
  }

  lemma PathSnoc<T>(e: Edges<T>, p: seq<T>, b: T)
    requires IsPath(e, p) && b in e(p[|p| - 1])
    ensures IsPath(e, p + [b])
  {
    var r := p + [b];
    forall i | 0 <= i < |r| - 1 ensures Step(e, r, i) {
      if i < |p| - 1 {
        assert Step(e, p, i);
      }
    }
  }

  lemma SubPath<T>(e: Edges<T>, p: seq<T>, lo: nat, hi: nat)
    requires IsPath(e, p) && lo < hi <= |p|
    ensures IsPath(e, p[lo..hi])
  {
    forall i | 0 <= i < hi - lo - 1 ensures Step(e, p[lo..hi], i) {
      assert Step(e, p, lo + i);
    }
  }

  lemma ReachesTrans<T(!new)>(e: Edges<T>, a: T, b: T, c: T)
    requires Reaches(e, a, b) && Reaches(e, b, c)
    ensures Reaches(e, a, c)
  {
    var p :| PathFromTo(e, p, a, b);
    var q :| PathFromTo(e, q, b, c);
    PathConcat(e, p, q);
    assert PathFromTo(e, p + q[1..], a, c);
  }

  lemma ReachesStep<T(!new)>(e: Edges<T>, a: T, b: T, c: T)
    requires Reaches(e, a, b) && c in e(b)
    ensures Reaches(e, a, c)
  {
    var p :| PathFromTo(e, p, a, b);
    PathSnoc(e, p, c);
    assert PathFromTo(e, p + [c], a, c);
  }

  lemma ReachedFromStep<T(!new)>(e: Edges<T>, roots: set<T>, b: T, c: T)
    requires ReachedFrom(e, roots, b) && c in e(b)
    ensures ReachedFrom(e, roots, c)
  {
    var a :| a in roots && Reaches(e, a, b);
    ReachesStep(e, a, b, c);
  }

  lemma ReachedFromRoot<T(!new)>(e: Edges<T>, roots: set<T>, a: T)
    requires a in roots
    ensures ReachedFrom(e, roots, a)
  {
    ReachesSelf(e, a);
  }

  /** A path inside a closed set never leaves it. */
  lemma {:induction false} PathStaysClosed<T(!new)>(e: Edges<T>, s: set<T>, p: seq<T>)
    requires Closed(e, s) && IsPath(e, p) && p[0] in s
    ensures forall i | 0 <= i < |p| :: p[i] in s
  {
    if |p| > 1 {
      SubPath(e, p, 0, |p| - 1);
      var q := p[..|p| - 1];
      assert q == p[0..|p| - 1];
      PathStaysClosed(e, s, q);
      assert Step(e, p, |p| - 2);
      assert q[|p| - 2] in s;
    }
  }

  /** A closed set that holds the roots holds everything they reach. */
  lemma ClosedCoversReached<T(!new)>(e: Edges<T>, s: set<T>, roots: set<T>)
    requires Closed(e, s) && roots <= s
    ensures forall b :: ReachedFrom(e, roots, b) ==> b in s
  {
    forall b | ReachedFrom(e, roots, b) ensures b in s {
      var a :| a in roots && Reaches(e, a, b);
      var p :| PathFromTo(e, p, a, b);
      PathStaysClosed(e, s, p);
    }
  }

  /** More edges, more reachable nodes. */
  lemma ReachesMono<T(!new)>(e: Edges<T>, f: Edges<T>, a: T, b: T)
    requires Reaches(e, a, b)
    requires forall x :: e(x) <= f(x)
    ensures Reaches(f, a, b)
  {
    var p :| PathFromTo(e, p, a, b);
    forall i | 0 <= i < |p| - 1 ensures Step(f, p, i) {
      assert Step(e, p, i);
    }
    assert PathFromTo(f, p, a, b);
  }

  /** Two graphs that agree on everything the roots reach in the first reach the same
      nodes in the second. */
  lemma ReachesAgree<T(!new)>(e: Edges<T>, f: Edges<T>, a: T, b: T)
    requires forall x :: Reaches(e, a, x) ==> e(x) == f(x)
    requires Reaches(e, a, b)
    ensures Reaches(f, a, b)
  {
    var p :| PathFromTo(e, p, a, b);
    forall i | 0 <= i < |p| - 1 ensures Step(f, p, i) {
      assert Step(e, p, i);
      SubPath(e, p, 0, i + 1);
      assert PathFromTo(e, p[0..i + 1], a, p[i]);
    }
    assert PathFromTo(f, p, a, b);
  }

  /** `order` lists each element once, and after each of its successors. */
  ghost predicate TopoOrder<T(!new)>(e: Edges<T>, order: seq<T>) {
    && NoRepeats(order)
    && forall i | 0 <= i < |order| :: e(order[i]) <= Elems(order[..i])
  }

  ghost predicate NoRepeats<T>(s: seq<T>) {
    forall i, j | 0 <= i < j < |s| :: s[i] != s[j]
  }

  ghost function Elems<T>(s: seq<T>): set<T> {
    set x | x in s
  }

  /** Along a path through a topological order the positions strictly decrease. */
  lemma {:induction false} PathDescends<T(!new)>(e: Edges<T>, order: seq<T>, p: seq<T>, i: nat, j: nat)
    requires TopoOrder(e, order) && IsPath(e, p)
    requires i < |order| && j < |order| && p[0] == order[i] && p[|p| - 1] == order[j]
    ensures |p| > 1 ==> j < i
    ensures j <= i
    decreases |p|
  {
    if |p| > 1 {
      assert Step(e, p, 0);
      assert p[1] in Elems(order[..i]);
      var k :| 0 <= k < i && order[k] == p[1];
      SubPath(e, p, 1, |p|);
      PathDescends(e, order, p[1..|p|], k, j);
    } else {
      assert order[i] == order[j];
    }
  }

  /** No cycle can be reached from the elements of a topological order. */
  lemma TopoOrderHasNoCycle<T(!new)>(e: Edges<T>, order: seq<T>, roots: set<T>)
    requires TopoOrder(e, order) && roots <= Elems(order)
    ensures !CycleReached(e, roots)
    ensures Closed(e, Elems(order))
  {
    assert Closed(e, Elems(order)) by {
      forall x | x in Elems(order) ensures e(x) <= Elems(order) {
        var i :| 0 <= i < |order| && order[i] == x;
        assert Elems(order[..i]) <= Elems(order);
      }
    }
    forall c | IsCycle(e, c) && ReachedFrom(e, roots, c[0]) ensures false {
      ClosedCoversReached(e, Elems(order), roots);
      var i :| 0 <= i < |order| && order[i] == c[0];
      PathDescends(e, order, c, i, i);
    }
  }

  lemma SnocElems<T>(s: seq<T>, x: T)
    ensures Elems(s + [x]) == Elems(s) + {x}
    ensures NoRepeats(s + [x]) <==> NoRepeats(s) && x !in Elems(s)
  {
    var t := s + [x];
    assert forall k | 0 <= k < |s| :: t[k] == s[k];
    if x in Elems(s) {
      var k :| 0 <= k < |s| && s[k] == x;
      assert t[k] == t[|s|];
    }
  }

  lemma {:induction false} NoRepeatsSize<T>(s: seq<T>)
    requires NoRepeats(s)
    ensures |Elems(s)| == |s|
  {
    if s != [] {
      var t := s[..|s| - 1];
      NoRepeatsSize(t);
      assert Elems(s) == Elems(t) + {s[|s| - 1]};
      assert s[|s| - 1] !in Elems(t);
    }
  }

  /** A rearrangement of a repeat-free list is repeat-free. */
  lemma NoRepeatsPermutes<T>(s: seq<T>, t: seq<T>)
    requires NoRepeats(s) && multiset(s) == multiset(t)
    ensures NoRepeats(t) && Elems(t) == Elems(s)
  {
    NoRepeatsCounts(s);
    forall i, j | 0 <= i < j < |t| ensures t[i] != t[j] {
      TwiceCounts(t, i, j);
    }
    assert forall x :: x in s <==> x in multiset(s);
    assert forall x :: x in t <==> x in multiset(t);
  }

  lemma TwiceCounts<T>(t: seq<T>, i: nat, j: nat)
    requires i < j < |t|
    ensures t[i] == t[j] ==> multiset(t)[t[i]] >= 2
  {
    assert t == t[..i] + [t[i]] + t[i + 1..j] + [t[j]] + t[j + 1..];
  }

  lemma {:induction false} NoRepeatsCounts<T>(s: seq<T>)
    requires NoRepeats(s)
    ensures forall x :: multiset(s)[x] <= 1
  {
    if s != [] {
      var t := s[..|s| - 1];
      NoRepeatsCounts(t);
      assert s == t + [s[|s| - 1]];
      assert s[|s| - 1] !in t;
    }
  }

  /** A repeat-free list of full length inside a set lists the whole set. */
  lemma FullListing<T>(s: seq<T>, all: set<T>)
    requires NoRepeats(s) && Elems(s) <= all && |s| >= |all|
    ensures Elems(s) == all
  {
    NoRepeatsSize(s);
    SubsetSize(Elems(s), all);
    if Elems(s) != all {
      ProperSubsetSize(Elems(s), all);
    }
  }

  lemma {:induction false} SubsetSize<T>(a: set<T>, b: set<T>)
    requires a <= b
    ensures |a| <= |b|
  {
    assert b == a + (b - a);
    assert a !! (b - a);
  }

  lemma ProperSubsetSize<T>(a: set<T>, b: set<T>)
    requires a < b
    ensures |a| < |b|
  {
    var x :| x in b && x !in a;
    SubsetSize(a, b - {x});
  }
}
