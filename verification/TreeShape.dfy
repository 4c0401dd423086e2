/** The shape of an object tree: which line stands under which, in what order, and with what mark. */
module TreeShape {
  import opened TraceGraph
  import opened TraceFilter

  datatype Mark = Plain | Cycle | Reused

  datatype Line = UnknownLine(depth: nat, id: int) | ObjectLine(depth: nat, id: int, mark: Mark)

  /** Lines in order, each with the position of the line it stands under; -1 for the root. */
  datatype Tree = Tree(lines: seq<Line>, up: seq<int>)

  /** Groups that exist and so can be expanded. */
  ghost function Expandable(objects: map<int, TraceObject>): set<int> {
    set id | id in objects && objects[id].isGroup
  }

  predicate PlainGroup(objects: map<int, TraceObject>, l: Line) {
    l.ObjectLine? && l.mark == Plain && l.id in objects && objects[l.id].isGroup
  }

  /** The ids of a line and of all lines above it. */
  function PathIds(t: Tree, k: int): set<int>
    decreases k
  {
    if 0 <= k < |t.lines| && k < |t.up| && t.up[k] < k then {t.lines[k].id} + PathIds(t, t.up[k]) else {}
  }

  /** Line `p` is line `k` or stands above it. */
  predicate Above(up: seq<int>, k: int, p: int)
    decreases k
  {
    p == k || (0 <= k < |up| && up[k] < k && Above(up, up[k], p))
  }

  /** The object was expanded in an earlier line. */
  ghost predicate ExpandedBefore(objects: map<int, TraceObject>, t: Tree, k: int, id: int) {
    exists j :: 0 <= j < k && j < |t.lines| && PlainGroup(objects, t.lines[j]) && t.lines[j].id == id
  }

  /** The mark of a line: what is above it first, then what was expanded before it. */
  ghost predicate MarkedRight(objects: map<int, TraceObject>, t: Tree, k: nat)
    requires k < |t.lines| && k < |t.up|
  {
    var l := t.lines[k];
    && (l.UnknownLine? <==> l.id !in objects)
    && (l.ObjectLine? ==>
          && (l.mark == Cycle <==> l.id in PathIds(t, t.up[k]))
          && (l.mark == Reused <==> l.id !in PathIds(t, t.up[k]) && ExpandedBefore(objects, t, k, l.id)))
  }

  /** A line under an earlier one: one level deeper, and under the line before it or one above that. */
  predicate Placed(t: Tree, k: nat)
    requires k < |t.lines| && k < |t.up|
  {
    if k == 0 then t.up[k] == -1 && t.lines[k].depth == 0
    else
      && 0 <= t.up[k] < k && Above(t.up, k - 1, t.up[k])
      && t.lines[k].depth == t.lines[t.up[k]].depth + 1
  }

  /** The ids of the lines directly under line `k`, in order. */
  function KidIds(t: Tree, k: int): seq<int>
    decreases |t.lines|
  {
    if t.lines == [] || |t.up| != |t.lines| then []
    else
      var n := |t.lines| - 1;
      KidIds(Tree(t.lines[..n], t.up[..n]), k) + if t.up[n] == k then [t.lines[n].id] else []
  }

  /** Under an expanded group stand its members, in order; under any other line stands nothing. */
  ghost predicate KidsRight(g: MemberGraph, objects: map<int, TraceObject>, t: Tree, k: nat)
    requires k < |t.lines|
  {
    KidIds(t, k) == if PlainGroup(objects, t.lines[k]) then ChildIds(MembersOf(g, t.lines[k].id)) else []
  }

  ghost predicate LinesRight(objects: map<int, TraceObject>, t: Tree) {
    && |t.up| == |t.lines|
    && forall k: nat | k < |t.lines| :: Placed(t, k) && MarkedRight(objects, t, k)
  }

  /** The whole tree of an object. */
  ghost predicate TreeOf(g: MemberGraph, objects: map<int, TraceObject>, root: int, t: Tree) {
    && LinesRight(objects, t) && t.lines != [] && t.lines[0].id == root
    && forall k: nat | k < |t.lines| :: KidsRight(g, objects, t, k)
  }

  // ----- adding lines at the end

  ghost predicate Prefix(t: Tree, u: Tree) { t.lines <= u.lines && t.up <= u.up && |t.up| == |t.lines| }

  lemma {:induction false} PathKept(t: Tree, u: Tree, k: int)
    requires Prefix(t, u) && k < |t.lines|
    ensures PathIds(u, k) == PathIds(t, k)
    decreases k
  {
    if 0 <= k && t.up[k] < k { PathKept(t, u, t.up[k]); }
  }

  lemma {:induction false} AboveKept(up: seq<int>, more: seq<int>, k: int, p: int)
    requires up <= more && k < |up|
    ensures Above(more, k, p) <==> Above(up, k, p)
    decreases k
  {
    if 0 <= k && up[k] < k { AboveKept(up, more, up[k], p); }
  }

  lemma {:induction false} AboveTransitive(up: seq<int>, k: int, p: int, q: int)
    requires Above(up, k, p) && Above(up, p, q)
    ensures Above(up, k, q)
    decreases k
  {
    if p != k { AboveTransitive(up, up[k], p, q); }
  }

  function AddLine(t: Tree, l: Line, parent: int): Tree { Tree(t.lines + [l], t.up + [parent]) }

  lemma KidsSnoc(t: Tree, l: Line, parent: int, k: int)
    requires |t.up| == |t.lines|
    ensures KidIds(AddLine(t, l, parent), k) == KidIds(t, k) + if parent == k then [l.id] else []
  {
    var u := AddLine(t, l, parent);
    assert u.lines[..|t.lines|] == t.lines && u.up[..|t.lines|] == t.up;
  }

  lemma {:induction false} NoKidsYet(t: Tree, k: int)
    requires |t.up| == |t.lines| && k >= |t.lines| && forall j :: 0 <= j < |t.up| ==> t.up[j] < j
    ensures KidIds(t, k) == []
    decreases |t.lines|
  {
    if t.lines != [] {
      var n := |t.lines| - 1;
      NoKidsYet(Tree(t.lines[..n], t.up[..n]), k);
    }
  }

  /** Where the next line may stand: under the last line or one above it. */
  ghost predicate Open(t: Tree, parent: int) {
    if parent == -1 then t.lines == [] else 0 <= parent < |t.lines| && Above(t.up, |t.lines| - 1, parent)
  }

  function DepthUnder(t: Tree, parent: int): nat {
    if 0 <= parent < |t.lines| then t.lines[parent].depth + 1 else 0
  }

  /** The expanded ids are those of the plain group lines. */
  ghost predicate ExpandedIn(objects: map<int, TraceObject>, t: Tree, expanded: set<int>) {
    forall x :: x in expanded <==> ExpandedBefore(objects, t, |t.lines|, x)
  }

  /** The line that a visit adds first. */
  function FirstLine(objects: map<int, TraceObject>, id: int, depth: nat, path: set<int>, expanded: set<int>): Line {
    if id !in objects then UnknownLine(depth, id)
    else ObjectLine(depth, id, if id in path then Cycle else if id in expanded then Reused else Plain)
  }

  lemma LineAdded(objects: map<int, TraceObject>, t: Tree, parent: int, id: int, expanded: set<int>)
    requires LinesRight(objects, t) && Open(t, parent) && ExpandedIn(objects, t, expanded)
    ensures var l := FirstLine(objects, id, DepthUnder(t, parent), PathIds(t, parent), expanded);
      var u := AddLine(t, l, parent);
      && LinesRight(objects, u) && Prefix(t, u)
      && ExpandedIn(objects, u, if PlainGroup(objects, l) then expanded + {id} else expanded)
  {
    var l := FirstLine(objects, id, DepthUnder(t, parent), PathIds(t, parent), expanded);
    var u := AddLine(t, l, parent);
    var n := |t.lines|;
    forall k: nat | k < |u.lines| ensures Placed(u, k) && MarkedRight(objects, u, k) {
      if k < n {
        assert Placed(t, k) && MarkedRight(objects, t, k);
        OldLineRight(objects, t, u, k);
      } else {
        NewLineRight(objects, t, u, parent, expanded);
      }
    }
    forall x ensures ExpandedBefore(objects, u, n + 1, x) <==>
      ExpandedBefore(objects, t, n, x) || (PlainGroup(objects, l) && x == id)
    {
      ExpandedNext(objects, t, u, x);
    }
  }

  lemma ExpandedNext(objects: map<int, TraceObject>, t: Tree, u: Tree, x: int)
    requires Prefix(t, u) && |u.lines| == |t.lines| + 1
    ensures ExpandedBefore(objects, u, |u.lines|, x) <==>
      || ExpandedBefore(objects, t, |t.lines|, x)
      || (PlainGroup(objects, u.lines[|t.lines|]) && x == u.lines[|t.lines|].id)
  {
    if ExpandedBefore(objects, t, |t.lines|, x) {
      var j :| 0 <= j < |t.lines| && PlainGroup(objects, t.lines[j]) && t.lines[j].id == x;
      assert u.lines[j] == t.lines[j];
    }
  }

  lemma OldLineRight(objects: map<int, TraceObject>, t: Tree, u: Tree, k: nat)
    requires Prefix(t, u) && k < |t.lines| && Placed(t, k) && MarkedRight(objects, t, k)
    requires |u.up| == |u.lines|
    ensures Placed(u, k) && MarkedRight(objects, u, k)
  {
    if k > 0 { AboveKept(t.up, u.up, k - 1, t.up[k]); }
    PathKept(t, u, t.up[k]);
    forall x ensures ExpandedBefore(objects, u, k, x) <==> ExpandedBefore(objects, t, k, x) {
      if ExpandedBefore(objects, t, k, x) {
        var j :| 0 <= j < k && PlainGroup(objects, t.lines[j]) && t.lines[j].id == x;
        assert u.lines[j] == t.lines[j];
      }
      if ExpandedBefore(objects, u, k, x) {
        var j :| 0 <= j < k && PlainGroup(objects, u.lines[j]) && u.lines[j].id == x;
        assert t.lines[j] == u.lines[j];
      }
    }
  }

  lemma NewLineRight(objects: map<int, TraceObject>, t: Tree, u: Tree, parent: int, expanded: set<int>)
    requires Open(t, parent) && ExpandedIn(objects, t, expanded) && |t.up| == |t.lines| && |u.lines| == |t.lines| + 1
    requires var l := u.lines[|t.lines|];
      u == AddLine(t, l, parent) && l == FirstLine(objects, l.id, DepthUnder(t, parent), PathIds(t, parent), expanded)
    ensures Placed(u, |t.lines|) && MarkedRight(objects, u, |t.lines|)
  {
    var n := |t.lines|;
    if n > 0 { AboveKept(t.up, u.up, n - 1, parent); }
    PathKept(t, u, parent);
    var l := u.lines[n];
    if ExpandedBefore(objects, t, n, l.id) {
      var j :| 0 <= j < n && PlainGroup(objects, t.lines[j]) && t.lines[j].id == l.id;
      assert u.lines[j] == t.lines[j];
    }
    if ExpandedBefore(objects, u, n, l.id) {
      var j :| 0 <= j < n && PlainGroup(objects, u.lines[j]) && u.lines[j].id == l.id;
      assert t.lines[j] == u.lines[j];
    }
  }

  // ----- one visit

  /** A visit of `id` under line `parent` turned `t` into `u`: all lines it added have their members under them. */
  ghost predicate Grew(g: MemberGraph, objects: map<int, TraceObject>, t: Tree, u: Tree, id: int, parent: int) {
    var n := |t.lines|;
    && Prefix(t, u) && |u.lines| > n && |u.up| == |u.lines| && u.up[n] == parent && u.lines[n].id == id
    && (forall k: nat | n <= k < |u.lines| :: KidsRight(g, objects, u, k))
    && OldKids(t, u, id, parent)
    && Above(u.up, |u.lines| - 1, n)
  }

  /** Under the lines that were there, only the visited object was added. */
  ghost predicate OldKids(t: Tree, u: Tree, id: int, parent: int) {
    forall k: int | k < |t.lines| :: KidIds(u, k) == KidIds(t, k) + if k == parent then [id] else []
  }

  /** The same in the middle of the visit of a group, after its first `i` members. */
  ghost predicate Growing(
    g: MemberGraph, objects: map<int, TraceObject>, t: Tree, u: Tree, id: int, depth: nat, parent: int, i: nat)
    requires i <= |MembersOf(g, id)|
  {
    var n := |t.lines|;
    && parent < n && Prefix(t, u) && |u.lines| > n && |u.up| == |u.lines| && u.up[n] == parent && u.lines[n].id == id
    && PlainGroup(objects, u.lines[n]) && u.lines[n].depth == depth && KidIds(u, n) == ChildIds(MembersOf(g, id))[..i]
    && (forall k: nat | n < k < |u.lines| :: KidsRight(g, objects, u, k))
    && OldKids(t, u, id, parent)
    && Above(u.up, |u.lines| - 1, n)
  }

  lemma FirstLineAlone(t: Tree, l: Line, parent: int, id: int)
    requires |t.up| == |t.lines| && parent < |t.lines| && l.id == id
    requires forall j :: 0 <= j < |t.up| ==> t.up[j] < j
    ensures OldKids(t, AddLine(t, l, parent), id, parent) && KidIds(AddLine(t, l, parent), |t.lines|) == []
  {
    forall k: int ensures KidIds(AddLine(t, l, parent), k) == KidIds(t, k) + if parent == k then [l.id] else [] {
      KidsSnoc(t, l, parent, k);
    }
    NoKidsYet(t, |t.lines|);
  }

  lemma GrewLeaf(
    g: MemberGraph, objects: map<int, TraceObject>, t: Tree, l: Line, parent: int)
    requires LinesRight(objects, t) && Open(t, parent) && !PlainGroup(objects, l)
    ensures Grew(g, objects, t, AddLine(t, l, parent), l.id, parent)
  {
    UpIsEarlier(objects, t);
    hide KidIds, LinesRight, PlainGroup;
    FirstLineAlone(t, l, parent, l.id);
  }

  lemma GrewStart(g: MemberGraph, objects: map<int, TraceObject>, t: Tree, l: Line, parent: int)
    requires LinesRight(objects, t) && Open(t, parent) && PlainGroup(objects, l)
    ensures Growing(g, objects, t, AddLine(t, l, parent), l.id, l.depth, parent, 0)
  {
    UpIsEarlier(objects, t);
    hide KidIds, LinesRight, PlainGroup;
    FirstLineAlone(t, l, parent, l.id);
  }

  lemma UpIsEarlier(objects: map<int, TraceObject>, t: Tree)
    requires LinesRight(objects, t)
    ensures forall j :: 0 <= j < |t.up| ==> t.up[j] < j
  {
    forall j: nat | j < |t.up| ensures t.up[j] < j { assert Placed(t, j); }
  }

  lemma GrewMember(
    g: MemberGraph, objects: map<int, TraceObject>, t: Tree, u: Tree, v: Tree, id: int, depth: nat,
    parent: int, i: nat)
    requires i < |MembersOf(g, id)| && Growing(g, objects, t, u, id, depth, parent, i)
    requires Grew(g, objects, u, v, MembersOf(g, id)[i].child, |t.lines|)
    ensures Growing(g, objects, t, v, id, depth, parent, i + 1)
  {
    hide KidIds;
    var n, kids := |t.lines|, ChildIds(MembersOf(g, id));
    assert kids[..i + 1] == kids[..i] + [kids[i]];
    forall k: nat | n < k < |v.lines| ensures KidsRight(g, objects, v, k) {
      if k < |u.lines| { assert KidsRight(g, objects, u, k) && v.lines[k] == u.lines[k]; }
    }
    var m := |u.lines|;
    assert Above(v.up, m, n);
    AboveTransitive(v.up, |v.lines| - 1, m, n);
  }

  lemma GrewGroup(
    g: MemberGraph, objects: map<int, TraceObject>, t: Tree, u: Tree, id: int, depth: nat, parent: int)
    requires Growing(g, objects, t, u, id, depth, parent, |MembersOf(g, id)|)
    ensures Grew(g, objects, t, u, id, parent)
  {
    hide KidIds;
    var kids := ChildIds(MembersOf(g, id));
    assert kids[..|kids|] == kids;
  }
}
