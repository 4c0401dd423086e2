/** Walks and reachability in a finite directed graph given by its edge set; cycles allowed. */
module Graphs {

  ghost predicate IsWalk<T>(edges: set<(T, T)>, p: seq<T>) {
    p != [] && forall i :: 0 <= i < |p| - 1 ==> (p[i], p[i + 1]) in edges
  }

  ghost predicate Joins<T>(edges: set<(T, T)>, p: seq<T>, a: T, b: T) {
    IsWalk(edges, p) && p[0] == a && p[|p| - 1] == b
  }

  ghost predicate Reach<T(!new)>(edges: set<(T, T)>, a: T, b: T) {
    exists p :: Joins(edges, p, a, b)
  }

  ghost predicate ClosedUnder<T>(edges: set<(T, T)>, s: set<T>) {
    forall e | e in edges && e.0 in s :: e.1 in s
  }

  lemma ReachSelf<T(!new)>(edges: set<(T, T)>, a: T)
    ensures Reach(edges, a, a)
  {
    assert Joins(edges, [a], a, a);
  }

  lemma JoinWalks<T(!new)>(edges: set<(T, T)>, p: seq<T>, q: seq<T>)
    requires IsWalk(edges, p) && IsWalk(edges, q) && p[|p| - 1] == q[0]
    ensures IsWalk(edges, p + q[1..])
    ensures (p + q[1..])[|p| + |q| - 2] == q[|q| - 1]
  {
    var w := p + q[1..];
    forall i | 0 <= i < |w| - 1 ensures (w[i], w[i + 1]) in edges {
      if i >= |p| - 1 { assert w[i] == q[i - (|p| - 1)] && w[i + 1] == q[i + 1 - (|p| - 1)]; }
    }
  }

  lemma ReachTransitive<T(!new)>(edges: set<(T, T)>, a: T, b: T, c: T)
    requires Reach(edges, a, b) && Reach(edges, b, c)
    ensures Reach(edges, a, c)
  {
    var p :| Joins(edges, p, a, b);
    var q :| Joins(edges, q, b, c);
    JoinWalks(edges, p, q);
    assert Joins(edges, p + q[1..], a, c);
  }

  lemma EdgeReach<T(!new)>(edges: set<(T, T)>, a: T, b: T)
    requires (a, b) in edges
    ensures Reach(edges, a, b)
  {
    assert Joins(edges, [a, b], a, b);
  }

  /** One more edge at the end. */
  lemma ReachStep<T(!new)>(edges: set<(T, T)>, a: T, b: T, c: T)
    requires Reach(edges, a, b) && (b, c) in edges
    ensures Reach(edges, a, c)
  {
    EdgeReach(edges, b, c);
    ReachTransitive(edges, a, b, c);
  }

  /** A walk that does not stay put leaves through some first edge. */
  lemma ReachFirst<T(!new)>(edges: set<(T, T)>, a: T, b: T) returns (c: T)
    requires Reach(edges, a, b) && a != b
    ensures (a, c) in edges && Reach(edges, c, b)
  {
    var p :| Joins(edges, p, a, b);
    c := p[1];
    assert Joins(edges, p[1..], c, b);
  }

  /** A set that holds the start and is closed under edges holds everything reachable. */
  lemma ReachInClosed<T(!new)>(edges: set<(T, T)>, s: set<T>, a: T, b: T)
    requires a in s && ClosedUnder(edges, s) && Reach(edges, a, b)
    ensures b in s
  {
    var p :| Joins(edges, p, a, b);
    WalkInClosed(edges, s, p);
  }

  lemma {:induction false} WalkInClosed<T(!new)>(edges: set<(T, T)>, s: set<T>, p: seq<T>)
    requires IsWalk(edges, p) && p[0] in s && ClosedUnder(edges, s)
    ensures p[|p| - 1] in s
  {
    if |p| > 1 {
      assert (p[0], p[1]) in edges;
      WalkInClosed(edges, s, p[1..]);
    }
  }

  ghost function Flip<T>(edges: set<(T, T)>): set<(T, T)> {
    set e | e in edges :: (e.1, e.0)
  }

  lemma {:induction false} FlipWalk<T(!new)>(edges: set<(T, T)>, p: seq<T>)
    requires IsWalk(edges, p)
    ensures Reach(Flip(edges), p[|p| - 1], p[0])
  {
    if |p| == 1 {
      ReachSelf(Flip(edges), p[0]);
    } else {
      FlipWalk(edges, p[1..]);
      assert (p[0], p[1]) in edges;
      assert (p[1], p[0]) in Flip(edges);
      ReachStep(Flip(edges), p[|p| - 1], p[1], p[0]);
    }
  }

  /** Reachability backwards is reachability along the flipped edges. */
  lemma FlipReach<T(!new)>(edges: set<(T, T)>, a: T, b: T)
    ensures Reach(edges, a, b) <==> Reach(Flip(edges), b, a)
  {
    if Reach(edges, a, b) {
      var p :| Joins(edges, p, a, b);
      FlipWalk(edges, p);
    }
    if Reach(Flip(edges), b, a) {
      var p :| Joins(Flip(edges), p, b, a);
      FlipWalk(Flip(edges), p);
      assert Flip(Flip(edges)) == edges by {
        forall e | e in edges ensures e in Flip(Flip(edges)) { assert (e.1, e.0) in Flip(edges); }
      }
    }
  }

  /** With every walk from `root` bounded, nothing reachable lies on a cycle. */
  lemma {:induction false} BoundedWalksAcyclic<T(!new)>(
    edges: set<(T, T)>, root: T, bound: nat, w: seq<T>, cycle: seq<T>)
    requires forall p :: IsWalk(edges, p) && p[0] == root ==> |p| <= bound
    requires IsWalk(edges, w) && w[0] == root
    requires IsWalk(edges, cycle) && |cycle| > 1 && cycle[0] == w[|w| - 1]
    ensures cycle[|cycle| - 1] != cycle[0]
    decreases bound - |w|
  {
    if cycle[|cycle| - 1] == cycle[0] {
      JoinWalks(edges, w, cycle);
      BoundedWalksAcyclic(edges, root, bound, w + cycle[1..], cycle);
    }
  }
}
