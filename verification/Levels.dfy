/** Level-by-level expansion of a graph from a set of starting nodes. */
module Levels {
  import opened Graphs

  ghost predicate ReachFrom<T(!new)>(edges: set<(T, T)>, starts: set<T>, b: T) {
    exists a :: a in starts && Reach(edges, a, b)
  }

  lemma ReachWitness<T(!new)>(edges: set<(T, T)>, starts: set<T>, b: T) returns (a: T)
    requires ReachFrom(edges, starts, b)
    ensures a in starts && Reach(edges, a, b)
  {
    a :| a in starts && Reach(edges, a, b);
  }

  ghost predicate WalkTo<T(!new)>(edges: set<(T, T)>, starts: set<T>, last: T, n: nat) {
    exists p :: IsWalk(edges, p) && |p| == n && p[0] in starts && p[n - 1] == last
  }

  /** `n` groups in a row from a starting node, ending at `last`. */
  ghost predicate ChainTo<T(!new)>(edges: set<(T, T)>, groups: set<T>, starts: set<T>, last: T, n: nat) {
    last in groups && WalkTo(edges, starts, last, n)
  }

  ghost predicate HasParentIn<T(!new)>(edges: set<(T, T)>, level: set<T>, x: T) {
    exists g :: g in level && (g, x) in edges
  }

  /** Only groups have members. */
  ghost predicate GroupSources<T>(edges: set<(T, T)>, groups: set<T>) {
    forall e | e in edges :: e.0 in groups
  }

  /** Before level `d + 1` is loaded: what is loaded, and which groups are still unexpanded. */
  ghost predicate LevelInv<T(!new)>(
      edges: set<(T, T)>, groups: set<T>, starts: set<T>, loaded: set<T>, current: set<T>, d: nat)
  {
    && starts <= loaded
    && (forall x | x in loaded :: ReachFrom(edges, starts, x))
    && (forall x :: x in current <==> ChainTo(edges, groups, starts, x, d))
    && (forall e | e in edges && e.0 in loaded && e.0 !in current :: e.1 in loaded)
  }

  lemma WalkToLonger<T(!new)>(edges: set<(T, T)>, starts: set<T>, last: T, d: nat)
    requires d > 0
    ensures WalkTo(edges, starts, last, d + 1) <==> exists g :: WalkTo(edges, starts, g, d) && (g, last) in edges
  {
    if WalkTo(edges, starts, last, d + 1) {
      var p :| IsWalk(edges, p) && |p| == d + 1 && p[0] in starts && p[d] == last;
      assert IsWalk(edges, p[..d]) && (p[d - 1], p[d]) in edges;
      assert WalkTo(edges, starts, p[d - 1], d);
    }
    forall g | WalkTo(edges, starts, g, d) && (g, last) in edges ensures WalkTo(edges, starts, last, d + 1) {
      var p :| IsWalk(edges, p) && |p| == d && p[0] in starts && p[d - 1] == g;
      JoinWalks(edges, p, [g, last]);
      assert [g, last][1..] == [last];
      assert (p + [last])[d] == last;
    }
  }

  lemma ChainLonger<T(!new)>(edges: set<(T, T)>, groups: set<T>, starts: set<T>, last: T, d: nat)
    requires d > 0 && GroupSources(edges, groups)
    ensures ChainTo(edges, groups, starts, last, d + 1) <==>
      last in groups && exists g :: ChainTo(edges, groups, starts, g, d) && (g, last) in edges
  {
    WalkToLonger(edges, starts, last, d);
    forall g | WalkTo(edges, starts, g, d) && (g, last) in edges ensures ChainTo(edges, groups, starts, g, d) {
      assert (g, last).0 in groups;
    }
  }

  lemma ChainOfOne<T(!new)>(edges: set<(T, T)>, groups: set<T>, starts: set<T>, x: T)
    ensures ChainTo(edges, groups, starts, x, 1) <==> x in groups && x in starts
  {
    if x in starts { assert IsWalk(edges, [x]) && [x][0] == x; }
  }

  lemma ChainReaches<T(!new)>(edges: set<(T, T)>, groups: set<T>, starts: set<T>, x: T, d: nat)
    requires d > 0 && ChainTo(edges, groups, starts, x, d)
    ensures ReachFrom(edges, starts, x)
  {
    var p :| IsWalk(edges, p) && |p| == d && p[0] in starts && p[d - 1] == x;
    assert Joins(edges, p, p[0], x);
  }

  lemma LevelStart<T(!new)>(edges: set<(T, T)>, groups: set<T>, starts: set<T>, current: set<T>)
    requires GroupSources(edges, groups) && current == starts * groups
    ensures LevelInv(edges, groups, starts, starts, current, 1)
  {
    forall x | x in starts ensures ReachFrom(edges, starts, x) { ReachSelf(edges, x); }
    forall x ensures x in current <==> ChainTo(edges, groups, starts, x, 1) { ChainOfOne(edges, groups, starts, x); }
  }

  lemma LevelNext<T(!new)>(
      edges: set<(T, T)>, groups: set<T>, starts: set<T>, loaded: set<T>, current: set<T>, d: nat,
      loaded': set<T>, current': set<T>)
    requires d > 0 && GroupSources(edges, groups) && LevelInv(edges, groups, starts, loaded, current, d)
    requires forall x :: x in loaded' <==> x in loaded || HasParentIn(edges, current, x)
    requires forall x :: x in current' <==> x in groups && HasParentIn(edges, current, x)
    ensures LevelInv(edges, groups, starts, loaded', current', d + 1)
  {
    forall x | x in loaded' && x !in loaded ensures ReachFrom(edges, starts, x) {
      var g :| g in current && (g, x) in edges;
      ChainReaches(edges, groups, starts, g, d);
      var a :| a in starts && Reach(edges, a, g);
      ReachStep(edges, a, g, x);
    }
    forall x ensures x in current' <==> ChainTo(edges, groups, starts, x, d + 1) {
      ChainLonger(edges, groups, starts, x, d);
    }
    forall e | e in edges && e.0 in loaded' && e.0 !in current' ensures e.1 in loaded' {
      assert e.0 in groups;
      assert e == (e.0, e.1);
    }
  }

  /** With no group left to expand, exactly the reachable nodes are loaded. */
  lemma LevelsDone<T(!new)>(edges: set<(T, T)>, groups: set<T>, starts: set<T>, loaded: set<T>, d: nat)
    requires LevelInv(edges, groups, starts, loaded, {}, d)
    ensures forall x :: x in loaded <==> ReachFrom(edges, starts, x)
  {
    forall x | ReachFrom(edges, starts, x) ensures x in loaded {
      var a :| a in starts && Reach(edges, a, x);
      ReachInClosed(edges, loaded, a, x);
    }
  }

  /** If no chain of `d` groups exists then no longer one does. */
  lemma NoLongerChain<T(!new)>(edges: set<(T, T)>, groups: set<T>, starts: set<T>, x: T, d: nat, n: nat)
    requires 0 < d <= n && GroupSources(edges, groups)
    requires forall y :: !ChainTo(edges, groups, starts, y, d)
    ensures !ChainTo(edges, groups, starts, x, n)
    decreases n
  {
    if d < n {
      var m := n - 1;
      ChainLonger(edges, groups, starts, x, m);
      forall g ensures !ChainTo(edges, groups, starts, g, m) { NoLongerChain(edges, groups, starts, g, d, m); }
    }
  }
}
