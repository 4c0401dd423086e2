/** The recursive object tree of the trace view, over membership that may be cyclic. */
module TraceTree {
  import opened Graphs
  import opened Levels
  import opened TraceGraph
  import opened TraceFilter
  import opened TreeShape

  // ----- counting members over a set of groups

  ghost function TotalMembers(g: MemberGraph, groups: set<int>): nat
    decreases |groups|
  {
    if groups == {} then 0
    else
      var x := AnyOf(groups);
      |MembersOf(g, x)| + TotalMembers(g, groups - {x})
  }

  ghost function AnyOf<T>(s: set<T>): (x: T)
    requires s != {}
    ensures x in s
  {
    var x :| x in s; x
  }

  lemma {:induction false} TotalWithout(g: MemberGraph, groups: set<int>, x: int)
    requires x in groups
    ensures TotalMembers(g, groups) == |MembersOf(g, x)| + TotalMembers(g, groups - {x})
    decreases |groups|
  {
    var y := AnyOf(groups);
    if y != x {
      TotalWithout(g, groups - {y}, x);
      TotalWithout(g, groups - {x}, y);
      assert groups - {x} - {y} == groups - {y} - {x};
    }
  }

  lemma {:induction false} TotalUnion(g: MemberGraph, a: set<int>, b: set<int>)
    requires a !! b
    ensures TotalMembers(g, a + b) == TotalMembers(g, a) + TotalMembers(g, b)
    decreases |a|
  {
    if a == {} {
      assert a + b == b;
    } else {
      var x := AnyOf(a);
      TotalUnion(g, a - {x}, b);
      TotalWithout(g, a + b, x);
      assert a + b - {x} == a - {x} + b;
    }
  }

  // ----- what one walk adds

  /** The entities met while expanding some groups. */
  ghost predicate MetIn(g: MemberGraph, groups: set<int>, e: Entity) {
    exists p, m :: p in groups && m in MembersOf(g, p) && (e == MemberE(m.id) || e == ObjectE(m.child))
  }

  ghost predicate MembersWalked(
    g: MemberGraph, objects: map<int, TraceObject>, expanded: set<int>, members: seq<Member>) {
    forall m | m in members && m.child in Expandable(objects) :: m.child in expanded
  }

  /** Newly expanded groups lie below `id`, and everything expandable directly below them is expanded too. */
  ghost predicate WalkedFrom(
    g: MemberGraph, objects: map<int, TraceObject>, id: int, added: set<int>, expanded: set<int>) {
    && (forall x | x in added :: Reach(Edges(g), id, x))
    && (forall x | x in added :: MembersWalked(g, objects, expanded, MembersOf(g, x)))
  }

  /** How often an object is shown expanded in place. */
  ghost function PlainCount(lines: seq<Line>, id: int): nat {
    if lines == [] then 0
    else
      var last := lines[|lines| - 1];
      PlainCount(lines[..|lines| - 1], id) + if last.ObjectLine? && last.id == id && last.mark == Plain then 1 else 0
  }

  /** Each newly expanded group got exactly one plain line, and no other group got any. */
  ghost predicate PlainOnce(objects: map<int, TraceObject>, before: seq<Line>, after: seq<Line>, added: set<int>) {
    forall x | x in Expandable(objects) :: PlainCount(after, x) == PlainCount(before, x) + if x in added then 1 else 0
  }

  lemma PlainSnoc(lines: seq<Line>, l: Line, id: int)
    ensures PlainCount(lines + [l], id) ==
      PlainCount(lines, id) + if l.ObjectLine? && l.id == id && l.mark == Plain then 1 else 0
  {
    assert (lines + [l])[..|lines|] == lines;
  }

  lemma PlainFirst(objects: map<int, TraceObject>, lines: seq<Line>, l: Line, added: set<int>)
    requires l.ObjectLine? && l.mark == Plain && l.id in Expandable(objects) ==> added == {l.id}
    requires !(l.ObjectLine? && l.mark == Plain && l.id in Expandable(objects)) ==> added == {}
    ensures PlainOnce(objects, lines, lines + [l], added)
  {
    forall x
      ensures PlainCount(lines + [l], x) ==
        PlainCount(lines, x) + if l.ObjectLine? && l.id == x && l.mark == Plain then 1 else 0
    {
      PlainSnoc(lines, l, x);
    }
  }

  /** Lines after the first one of a visit are indented further. */
  ghost predicate Deeper(lines: seq<Line>, start: nat, depth: nat) {
    forall k :: start < k < |lines| ==> lines[k].depth > depth
  }

  /** What the walk has produced so far. */
  datatype Shown = Shown(lines: seq<Line>, entities: set<Entity>, expanded: set<int>)

  /** What one visit of `id` adds to what was shown. */
  ghost predicate Visited(g: MemberGraph, objects: map<int, TraceObject>, id: int, depth: nat, s: Shown, t: Shown) {
    var added := t.expanded - s.expanded;
    && s.expanded <= t.expanded <= Expandable(objects)
    && (id in Expandable(objects) ==> id in t.expanded)
    && WalkedFrom(g, objects, id, added, t.expanded)
    && |t.lines| == |s.lines| + 1 + TotalMembers(g, added)
    && s.lines <= t.lines && t.lines[|s.lines|].depth == depth
    && PlainOnce(objects, s.lines, t.lines, added) && Deeper(t.lines, |s.lines|, depth)
    && forall e :: e in t.entities <==> e in s.entities || MetIn(g, added, e)
  }

  /** The same in the middle of a visit, after the first `i` members. */
  ghost predicate Inside(
    g: MemberGraph, objects: map<int, TraceObject>, id: int, depth: nat, i: nat, s: Shown, t: Shown)
    requires i <= |MembersOf(g, id)|
  {
    var below := t.expanded - s.expanded - {id};
    && id !in s.expanded && s.expanded + {id} <= t.expanded <= Expandable(objects)
    && MembersWalked(g, objects, t.expanded, MembersOf(g, id)[..i])
    && WalkedFrom(g, objects, id, below, t.expanded)
    && |t.lines| == |s.lines| + 1 + i + TotalMembers(g, below)
    && s.lines <= t.lines && t.lines[|s.lines|].depth == depth
    && PlainOnce(objects, s.lines, t.lines, {id} + below) && Deeper(t.lines, |s.lines|, depth)
    && forall e :: e in t.entities <==> e in s.entities || MetBelow(g, MembersOf(g, id)[..i], below, e)
  }

  lemma VisitStops(g: MemberGraph, objects: map<int, TraceObject>, id: int, depth: nat, s: Shown, l: Line)
    requires s.expanded <= Expandable(objects) && (id in Expandable(objects) ==> id in s.expanded)
    requires l.depth == depth && l.id == id && (l.ObjectLine? && l.mark == Plain ==> id !in Expandable(objects))
    ensures Visited(g, objects, id, depth, s, Shown(s.lines + [l], s.entities, s.expanded))
  {
    PlainFirst(objects, s.lines, l, {});
  }

  lemma VisitStarts(g: MemberGraph, objects: map<int, TraceObject>, id: int, depth: nat, s: Shown)
    requires s.expanded <= Expandable(objects) && id in Expandable(objects) && id !in s.expanded
    ensures Inside(
      g, objects, id, depth, 0, s,
      Shown(s.lines + [ObjectLine(depth, id, Plain)], s.entities, s.expanded + {id}))
  {
    PlainFirst(objects, s.lines, ObjectLine(depth, id, Plain), {id});
    assert s.expanded + {id} - s.expanded - {id} == {};
  }

  lemma VisitContinues(
    g: MemberGraph, objects: map<int, TraceObject>, id: int, depth: nat, i: nat, s: Shown, t: Shown, u: Shown)
    requires i < |MembersOf(g, id)| && Inside(g, objects, id, depth, i, s, t)
    requires var m := MembersOf(g, id)[i];
      Visited(g, objects, m.child, depth + 1, t.(entities := t.entities + {MemberE(m.id), ObjectE(m.child)}), u)
    ensures Inside(g, objects, id, depth, i + 1, s, u)
  {
    hide MembersWalked, WalkedFrom, MetBelow, MetIn;
    var below, added := t.expanded - s.expanded - {id}, u.expanded - t.expanded;
    assert u.expanded - s.expanded - {id} == below + added;
    MemberWalked(g, objects, id, MembersOf(g, id), i, below, t.expanded, u.expanded);
    TotalUnion(g, below, added);
    assert {id} + (below + added) == ({id} + below) + added;
    forall e ensures e in u.entities <==> e in s.entities || MetBelow(g, MembersOf(g, id)[..i + 1], below + added, e) {
      MetBelowNext(g, MembersOf(g, id), i, below, added, e);
    }
  }

  lemma VisitEnds(g: MemberGraph, objects: map<int, TraceObject>, id: int, depth: nat, s: Shown, t: Shown)
    requires Inside(g, objects, id, depth, |MembersOf(g, id)|, s, t)
    ensures Visited(g, objects, id, depth, s, t)
  {
    var members, below := MembersOf(g, id), t.expanded - s.expanded - {id};
    assert members[..|members|] == members;
    assert t.expanded - s.expanded == {id} + below;
    TotalWithout(g, {id} + below, id);
    assert {id} + below - {id} == below;
    ReachSelf(Edges(g), id);
    forall e ensures MetBelow(g, members, below, e) <==> MetIn(g, {id} + below, e) { MetTogether(g, id, below, e); }
  }

  lemma MetTogether(g: MemberGraph, id: int, below: set<int>, e: Entity)
    ensures MetBelow(g, MembersOf(g, id), below, e) <==> MetIn(g, {id} + below, e)
  {
    assert id in {id} + below;
    if MetIn(g, below, e) {
      var p, m :| p in below && m in MembersOf(g, p) && (e == MemberE(m.id) || e == ObjectE(m.child));
      assert p in {id} + below;
    }
  }

  class TreeWalk {
    const g: MemberGraph
    const objects: map<int, TraceObject>
    var lines: seq<Line>
    var entities: set<Entity>
    var expanded: set<int>
    ghost var up: seq<int>

    ghost function Shape(): Tree
      reads this
    {
      Tree(lines, up)
    }

    function State(): Shown
      reads this
    {
      Shown(lines, entities, expanded)
    }

    constructor (g: MemberGraph, objects: map<int, TraceObject>, root: int)
      ensures this.g == g && this.objects == objects && State() == Shown([], {ObjectE(root)}, {}) && up == []
    {
      this.g, this.objects := g, objects;
      lines, entities, expanded, up := [], {ObjectE(root)}, {}, [];
    }

    /** Ready to visit an object under a line: `path` holds the ids from that line up to the root. */
    ghost predicate Ready(depth: nat, path: set<int>, parent: int)
      reads this
    {
      && LinesRight(objects, Shape()) && Open(Shape(), parent) && ExpandedIn(objects, Shape(), expanded)
      && depth == DepthUnder(Shape(), parent) && path == PathIds(Shape(), parent)
    }

    /** One line per visit; a group is expanded on its first visit only, so cycles end. */
    method Walk(id: int, depth: nat, path: set<int>, ghost parent: int)
      requires path <= expanded <= Expandable(objects) && Ready(depth, path, parent)
      modifies this
      ensures Visited(g, objects, id, depth, old(State()), State())
      ensures LinesRight(objects, Shape()) && ExpandedIn(objects, Shape(), expanded)
      ensures Grew(g, objects, old(Shape()), Shape(), id, parent)
      decreases Expandable(objects) - expanded
    {
      hide Visited, Inside, LinesRight, Open, ExpandedIn, Grew, Growing;
      ghost var start, before := State(), Shape();
      ghost var line := FirstLine(objects, id, depth, path, expanded);
      LineAdded(objects, before, parent, id, expanded);
      if !PlainGroup(objects, line) { GrewLeaf(g, objects, before, line, parent); }
      up := up + [parent];
      if id !in objects {
        VisitStops(g, objects, id, depth, start, UnknownLine(depth, id));
        lines := lines + [UnknownLine(depth, id)];
        return;
      }
      if id in path {
        VisitStops(g, objects, id, depth, start, ObjectLine(depth, id, Cycle));
        lines := lines + [ObjectLine(depth, id, Cycle)];
        return;
      }
      var reused := id in expanded;
      if reused || !objects[id].isGroup {
        VisitStops(g, objects, id, depth, start, ObjectLine(depth, id, if reused then Reused else Plain));
        lines := lines + [ObjectLine(depth, id, if reused then Reused else Plain)];
        return;
      }
      VisitStarts(g, objects, id, depth, start);
      GrewStart(g, objects, before, line, parent);
      lines := lines + [ObjectLine(depth, id, Plain)];
      expanded := expanded + {id};
      var members := MembersOf(g, id);
      for i := 0 to |members|
        invariant start.expanded + {id} <= expanded <= Expandable(objects)
        invariant Inside(g, objects, id, depth, i, start, State())
        invariant LinesRight(objects, Shape()) && ExpandedIn(objects, Shape(), expanded)
        invariant Growing(g, objects, before, Shape(), id, depth, parent, i)
      {
        ghost var so, shape := State(), Shape();
        UnderGroup(g, objects, before, shape, id, depth, parent, i);
        assert path + {id} == PathIds(shape, |before.lines|);
        entities := entities + {MemberE(members[i].id), ObjectE(members[i].child)};
        ghost var entered := State();
        Walk(members[i].child, depth + 1, path + {id}, |before.lines|);
        VisitGrows(g, objects, members[i].child, depth + 1, entered, State());
        VisitContinues(g, objects, id, depth, i, start, so, State());
        GrewMember(g, objects, before, shape, Shape(), id, depth, parent, i);
      }
      VisitEnds(g, objects, id, depth, start, State());
      GrewGroup(g, objects, before, Shape(), id, depth, parent);
    }
  }

  /** In the middle of a visit the members stand under the visited group. */
  lemma UnderGroup(
    g: MemberGraph, objects: map<int, TraceObject>, t: Tree, u: Tree, id: int, depth: nat, parent: int, i: nat)
    requires i <= |MembersOf(g, id)| && Growing(g, objects, t, u, id, depth, parent, i) && LinesRight(objects, u)
    ensures Open(u, |t.lines|) && DepthUnder(u, |t.lines|) == depth + 1
    ensures PathIds(u, |t.lines|) == PathIds(t, parent) + {id}
  {
    hide KidIds;
    PathKept(t, u, parent);
  }

  lemma VisitGrows(g: MemberGraph, objects: map<int, TraceObject>, id: int, depth: nat, s: Shown, t: Shown)
    requires Visited(g, objects, id, depth, s, t)
    ensures s.expanded <= t.expanded <= Expandable(objects) && s.lines <= t.lines
  {
  }

  ghost predicate MetAmong(members: seq<Member>, e: Entity) {
    exists m :: m in members && (e == MemberE(m.id) || e == ObjectE(m.child))
  }

  ghost predicate MetBelow(g: MemberGraph, members: seq<Member>, below: set<int>, e: Entity) {
    MetAmong(members, e) || MetIn(g, below, e)
  }

  lemma MetBelowNext(g: MemberGraph, members: seq<Member>, i: nat, below: set<int>, added: set<int>, e: Entity)
    requires i < |members|
    ensures MetBelow(g, members[..i + 1], below + added, e) <==>
      MetBelow(g, members[..i], below, e) || e == MemberE(members[i].id) || e == ObjectE(members[i].child) ||
        MetIn(g, added, e)
  {
    assert forall m :: m in members[..i + 1] <==> m in members[..i] || m == members[i];
  }

  lemma MemberWalked(
      g: MemberGraph, objects: map<int, TraceObject>, id: int, members: seq<Member>, i: nat,
      below: set<int>, before: set<int>, after: set<int>)
    requires i < |members| && members == MembersOf(g, id) && before <= after
    requires MembersWalked(g, objects, before, members[..i]) && WalkedFrom(g, objects, id, below, before)
    requires members[i].child in Expandable(objects) ==> members[i].child in after
    requires WalkedFrom(g, objects, members[i].child, after - before, after)
    ensures MembersWalked(g, objects, after, members[..i + 1])
    ensures WalkedFrom(g, objects, id, below + (after - before), after)
  {
    assert forall m :: m in members[..i + 1] <==> m in members[..i] || m == members[i];
    assert members[i] in members;
    EdgeMeaning(g, id, members[i].child);
    forall x | x in after - before ensures Reach(Edges(g), id, x) {
      EdgeReach(Edges(g), id, members[i].child);
      ReachTransitive(Edges(g), id, members[i].child, x);
    }
  }

  /** The groups reachable from the root, the root included. */
  ghost predicate GroupBelow(g: MemberGraph, objects: map<int, TraceObject>, root: int, x: int) {
    x in Expandable(objects) && Reach(Edges(g), root, x)
  }

  lemma AllGroupsExpanded(g: MemberGraph, objects: map<int, TraceObject>, root: int, expanded: set<int>)
    requires g.byParent.Keys == Expandable(objects) && expanded <= Expandable(objects)
    requires root in Expandable(objects) ==> root in expanded
    requires WalkedFrom(g, objects, root, expanded, expanded)
    ensures forall x :: x in expanded <==> GroupBelow(g, objects, root, x)
  {
    forall x | GroupBelow(g, objects, root, x) ensures x in expanded {
      var nodes := {root} + (set e | e in Edges(g) :: e.1);
      var s := set y | y in nodes && (y in Expandable(objects) ==> y in expanded);
      forall e | e in Edges(g) && e.0 in s ensures e.1 in s {
        EdgeMeaning(g, e.0, e.1);
        assert e == (e.0, e.1);
        var m :| m in g.byParent[e.0] && m.child == e.1;
        assert MembersWalked(g, objects, expanded, MembersOf(g, e.0));
      }
      ReachInClosed(Edges(g), s, root, x);
    }
  }

  lemma TreeEntities(g: MemberGraph, objects: map<int, TraceObject>, root: int, expanded: set<int>, e: Entity)
    requires g.byParent.Keys == Expandable(objects)
    requires forall x :: x in expanded <==> GroupBelow(g, objects, root, x)
    ensures e == ObjectE(root) || MetIn(g, expanded, e) <==> ObjectSide(g, {root}, e)
  {
    if MetIn(g, expanded, e) {
      var p, m :| p in expanded && m in MembersOf(g, p) && (e == MemberE(m.id) || e == ObjectE(m.child));
      EdgeMeaning(g, p, m.child);
      ReachStep(Edges(g), root, p, m.child);
      assert ReachFrom(Edges(g), {root}, p) && ReachFrom(Edges(g), {root}, m.child);
    }
    ReachSelf(Edges(g), root);
    if ObjectSide(g, {root}, e) {
      if e.ObjectE? {
        assert Reach(Edges(g), root, e.id);
        if e.id != root { MetAtTheEnd(g, objects, root, expanded, e.id); }
      } else {
        var p :| ReachFrom(Edges(g), {root}, p) && HasMember(g, p, e.id);
        assert Reach(Edges(g), root, p);
        var m :| m in MembersOf(g, p) && m.id == e.id;
        assert p in expanded;
      }
    }
  }

  lemma MetAtTheEnd(g: MemberGraph, objects: map<int, TraceObject>, root: int, expanded: set<int>, x: int)
    requires g.byParent.Keys == Expandable(objects)
    requires forall y :: y in expanded <==> GroupBelow(g, objects, root, y)
    requires Reach(Edges(g), root, x) && x != root
    ensures MetIn(g, expanded, ObjectE(x))
  {
    var walk :| Joins(Edges(g), walk, root, x);
    var p := walk[|walk| - 2];
    assert (p, x) in Edges(g);
    assert Joins(Edges(g), walk[..|walk| - 1], root, p);
    EdgeMeaning(g, p, x);
    var m :| m in g.byParent[p] && m.child == x;
    assert p in expanded && m in MembersOf(g, p);
  }

  /** One line for the root and one per member of each reachable group; the entities are the forward keys. */
  method ObjectTreeLines(g: MemberGraph, objects: map<int, TraceObject>, root: int)
    returns (lines: seq<Line>, entities: set<Entity>, ghost groups: set<int>, ghost up: seq<int>)
    requires g.byParent.Keys == Expandable(objects)
    ensures TreeOf(g, objects, root, Tree(lines, up))
    ensures forall x :: x in groups <==> GroupBelow(g, objects, root, x)
    ensures |lines| == 1 + TotalMembers(g, groups)
    ensures Deeper(lines, 0, 0)
    ensures forall x | x in Expandable(objects) :: PlainCount(lines, x) == if x in groups then 1 else 0
    ensures forall e :: e in entities <==> ObjectSide(g, {root}, e)
  {
    var walk := new TreeWalk(g, objects, root);
    walk.Walk(root, 0, {}, -1);
    lines, entities, groups, up := walk.lines, walk.entities, walk.expanded, walk.up;
    assert walk.expanded - {} == walk.expanded;
    assert Visited(g, objects, root, 0, Shown([], {ObjectE(root)}, {}), walk.State());
    AllGroupsExpanded(g, objects, root, groups);
    forall e ensures e in entities <==> ObjectSide(g, {root}, e) { TreeEntities(g, objects, root, groups, e); }
  }
}
