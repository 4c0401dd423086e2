/** Depth-bounded resolution of an address object or group into leaf objects. */
module AddressGroups {
  import opened CatalogModels
  import opened Collections
  import opened Graphs

  const MAX_ADDR_GROUP_NESTING_LEVEL: nat := 3

  datatype ResolutionError =
    | UnknownObject(id: int)
    | NestingExceeded(id: int, level: nat)
    | NoLoadedChildren(groupId: int)
    | NoLeafChildren(id: int)

  type Leaves = Result<seq<AddrObject>, ResolutionError>

  /** The two dictionaries of the resolver: objects by id and children by parent id. */
  datatype GroupIndex = GroupIndex(byId: map<int, AddrObject>, children: map<int, seq<AddrObject>>)

  function ChildrenOf(g: GroupIndex, parent: int): seq<AddrObject> {
    if parent in g.children then g.children[parent] else []
  }

  /** `addr_group or id`: absent and zero both fall back to the object id. */
  function GroupKey(o: AddrObject): int {
    if o.body.Group? && o.body.addrGroup.Some? && o.body.addrGroup.value != 0
    then o.body.addrGroup.value else o.id
  }

  /** Members name a group by its group id, or by its own id when it has none. */
  predicate NamedBy(group: AddrObject, key: int) {
    group.body.Group? &&
    if group.body.addrGroup == None || group.body.addrGroup == Some(0) then key == group.id
    else group.body.addrGroup == Some(key)
  }

  predicate IsGroup(g: GroupIndex, id: int) { id in g.byId && g.byId[id].body.Group? }

  /** What the children lists of a group in the index hold. */
  function Members(g: GroupIndex, id: int): seq<AddrObject>
    requires id in g.byId
  {
    ChildrenOf(g, GroupKey(g.byId[id]))
  }

  function Resolve(g: GroupIndex, id: int, level: nat): Leaves
    requires level <= MAX_ADDR_GROUP_NESTING_LEVEL
    decreases MAX_ADDR_GROUP_NESTING_LEVEL - level, 0
  {
    if id !in g.byId then Err(UnknownObject(id))
    else if !g.byId[id].body.Group? then Ok([g.byId[id]])
    else if level + 1 > MAX_ADDR_GROUP_NESTING_LEVEL then Err(NestingExceeded(id, level + 1))
    else if Members(g, id) == [] then Err(NoLoadedChildren(GroupKey(g.byId[id])))
    else match ResolveAll(g, g.byId[id].id, Members(g, id), level + 1)
      case Err(e) => Err(e)
      case Ok(leaves) => if leaves == [] then Err(NoLeafChildren(g.byId[id].id)) else Ok(leaves)
  }

  /** The leaves of a list of children, skipping the group itself, first error first. */
  function ResolveAll(g: GroupIndex, self: int, children: seq<AddrObject>, level: nat): Leaves
    requires level <= MAX_ADDR_GROUP_NESTING_LEVEL
    decreases MAX_ADDR_GROUP_NESTING_LEVEL - level, 1 + |children|
  {
    if children == [] then Ok([])
    else if children[0].id == self then ResolveAll(g, self, children[1..], level)
    else match Resolve(g, children[0].id, level)
      case Err(e) => Err(e)
      case Ok(first) =>
        match ResolveAll(g, self, children[1..], level)
        case Err(e) => Err(e)
        case Ok(rest) => Ok(first + rest)
  }

  // ----- the group graph, and what resolution means in it

  /** Ids match their objects and every listed child is itself an indexed object. */
  ghost predicate WellIndexed(g: GroupIndex) {
    && (forall id | id in g.byId :: g.byId[id].id == id)
    && (forall p | p in g.children :: forall c | c in g.children[p] :: c.id in g.byId)
  }

  /** Group-to-child edges, leaving out a group that lists itself. */
  ghost function Edges(g: GroupIndex): set<(int, int)> {
    set id, c | id in g.byId && g.byId[id].body.Group? && c in Members(g, id) && c.id != id :: (id, c.id)
  }

  /** A walk over `n` groups starting at `id`. */
  ghost predicate GroupChain(g: GroupIndex, id: int, n: nat) {
    exists p :: IsWalk(Edges(g), p) && p[0] == id && |p| == n && IsGroup(g, p[n - 1])
  }

  ghost predicate HasOtherChild(g: GroupIndex, id: int) { exists c :: (id, c) in Edges(g) }

  ghost predicate NoEmptyGroup(g: GroupIndex, id: int) {
    forall b | Reach(Edges(g), id, b) && IsGroup(g, b) :: HasOtherChild(g, b)
  }

  /** The condition under which a group graph resolves from `id`, given `n` nesting levels left. */
  ghost predicate Resolvable(g: GroupIndex, id: int, n: nat) {
    id in g.byId && !GroupChain(g, id, n + 1) && NoEmptyGroup(g, id)
  }

  ghost predicate LeafBelow(g: GroupIndex, id: int, o: AddrObject) {
    Reach(Edges(g), id, o.id) && o.id in g.byId && g.byId[o.id] == o && !o.body.Group?
  }

  lemma EdgeIsMember(g: GroupIndex, id: int, c: int)
    requires WellIndexed(g)
    ensures (id, c) in Edges(g) <==> IsGroup(g, id) && c != id && exists o :: o in Members(g, id) && o.id == c
    ensures (id, c) in Edges(g) ==> c in g.byId
  {
  }

  lemma ResolveAllOutcome(g: GroupIndex, self: int, children: seq<AddrObject>, level: nat)
    requires level <= MAX_ADDR_GROUP_NESTING_LEVEL
    ensures ResolveAll(g, self, children, level).Ok? <==>
      forall c | c in children && c.id != self :: Resolve(g, c.id, level).Ok?
    ensures ResolveAll(g, self, children, level).Ok? ==>
      forall o :: o in ResolveAll(g, self, children, level).value <==>
        exists c :: c in children && c.id != self && Resolve(g, c.id, level).Ok? && o in Resolve(g, c.id, level).value
  {
    if children != [] {
      ResolveAllOutcome(g, self, children[1..], level);
      assert forall c :: c in children <==> c == children[0] || c in children[1..];
    }
  }

  lemma {:induction false} ResolveNonEmpty(g: GroupIndex, id: int, level: nat)
    requires level <= MAX_ADDR_GROUP_NESTING_LEVEL && Resolve(g, id, level).Ok?
    ensures Resolve(g, id, level).value != []
  {
  }

  /** One level of resolution, in terms of edges. */
  lemma ResolveStep(g: GroupIndex, id: int, level: nat)
    requires WellIndexed(g) && level < MAX_ADDR_GROUP_NESTING_LEVEL && IsGroup(g, id)
    ensures Resolve(g, id, level).Ok? <==>
      HasOtherChild(g, id) && forall c | (id, c) in Edges(g) :: Resolve(g, c, level + 1).Ok?
    ensures Resolve(g, id, level).Ok? ==>
      forall o :: o in Resolve(g, id, level).value <==>
        exists c :: (id, c) in Edges(g) && Resolve(g, c, level + 1).Ok? && o in Resolve(g, c, level + 1).value
  {
    var children := Members(g, id);
    ResolveAllOutcome(g, id, children, level + 1);
    var r := ResolveAll(g, id, children, level + 1);
    forall c | c in children && c.id != id ensures (id, c.id) in Edges(g) {}
    forall c | (id, c) in Edges(g) ensures exists o :: o in children && o.id == c && c != id { EdgeIsMember(g, id, c); }
    if r.Ok? {
      if HasOtherChild(g, id) {
        var c :| (id, c) in Edges(g);
        var o :| o in children && o.id == c && c != id;
        ResolveNonEmpty(g, o.id, level + 1);
        assert Resolve(g, o.id, level + 1).value[0] in r.value;
      } else if r.value != [] {
        assert r.value[0] in r.value;
      }
    }
  }

  lemma LeafHasNoEdges(g: GroupIndex, id: int, b: int)
    requires WellIndexed(g) && !IsGroup(g, id) && Reach(Edges(g), id, b)
    ensures b == id
  {
    if b != id {
      var c := ReachFirst(Edges(g), id, b);
      EdgeIsMember(g, id, c);
    }
  }

  lemma ChainStep(g: GroupIndex, id: int, n: nat)
    requires WellIndexed(g) && n > 0 && IsGroup(g, id)
    ensures GroupChain(g, id, n + 1) <==> exists c :: (id, c) in Edges(g) && GroupChain(g, c, n)
  {
    var e := Edges(g);
    if GroupChain(g, id, n + 1) {
      var p :| IsWalk(e, p) && p[0] == id && |p| == n + 1 && IsGroup(g, p[n]);
      assert IsWalk(e, p[1..]) && p[1..][n - 1] == p[n];
      assert (p[0], p[1]) in e && GroupChain(g, p[1], n);
    }
    forall c | (id, c) in e && GroupChain(g, c, n) ensures GroupChain(g, id, n + 1) {
      var p :| IsWalk(e, p) && p[0] == c && |p| == n && IsGroup(g, p[n - 1]);
      var q := [id] + p;
      assert forall i | 0 < i < |q| - 1 :: (q[i], q[i + 1]) == (p[i - 1], p[i]);
      assert IsWalk(e, q) && q[n] == p[n - 1];
    }
  }

  lemma NoEmptyStep(g: GroupIndex, id: int)
    requires WellIndexed(g) && IsGroup(g, id)
    ensures NoEmptyGroup(g, id) <==>
      HasOtherChild(g, id) && forall c | (id, c) in Edges(g) :: NoEmptyGroup(g, c)
  {
    var e := Edges(g);
    ReachSelf(e, id);
    if NoEmptyGroup(g, id) {
      forall c, b | (id, c) in e && Reach(e, c, b) && IsGroup(g, b) ensures HasOtherChild(g, b) {
        EdgeReach(e, id, c);
        ReachTransitive(e, id, c, b);
      }
    }
    if HasOtherChild(g, id) && forall c | (id, c) in e :: NoEmptyGroup(g, c) {
      forall b | Reach(e, id, b) && IsGroup(g, b) ensures HasOtherChild(g, b) {
        if b != id {
          var c := ReachFirst(e, id, b);
          assert NoEmptyGroup(g, c);
        }
      }
    }
  }

  /** Resolution succeeds exactly on loaded objects with bounded chains and no empty group below. */
  lemma {:induction false} ResolveSucceeds(g: GroupIndex, id: int, level: nat)
    requires WellIndexed(g) && level <= MAX_ADDR_GROUP_NESTING_LEVEL
    ensures Resolve(g, id, level).Ok? <==> Resolvable(g, id, MAX_ADDR_GROUP_NESTING_LEVEL - level)
    decreases MAX_ADDR_GROUP_NESTING_LEVEL - level
  {
    var n := MAX_ADDR_GROUP_NESTING_LEVEL - level;
    if id !in g.byId {
    } else if !IsGroup(g, id) {
      forall b | Reach(Edges(g), id, b) ensures b == id { LeafHasNoEdges(g, id, b); }
      LeafNoChain(g, id, n + 1);
    } else if n == 0 {
      assert IsWalk(Edges(g), [id]);
    } else {
      forall c | (id, c) in Edges(g) ensures Resolve(g, c, level + 1).Ok? <==> Resolvable(g, c, n - 1) && c in g.byId {
        ResolveSucceeds(g, c, level + 1);
        EdgeIsMember(g, id, c);
      }
      ResolveStep(g, id, level);
      ChainStep(g, id, n);
      NoEmptyStep(g, id);
    }
  }

  lemma LeafNoChain(g: GroupIndex, id: int, n: nat)
    requires WellIndexed(g) && n > 0 && !IsGroup(g, id)
    ensures !GroupChain(g, id, n)
  {
    forall p | IsWalk(Edges(g), p) && p[0] == id && |p| == n ensures !IsGroup(g, p[n - 1]) {
      if n > 1 { EdgeIsMember(g, p[0], p[1]); }
    }
  }

  /** On success the leaves are exactly the loaded non-group objects below. */
  lemma {:induction false} ResolveLeavesExact(g: GroupIndex, id: int, level: nat, o: AddrObject)
    requires WellIndexed(g) && level <= MAX_ADDR_GROUP_NESTING_LEVEL && Resolve(g, id, level).Ok?
    ensures o in Resolve(g, id, level).value <==> LeafBelow(g, id, o)
    decreases MAX_ADDR_GROUP_NESTING_LEVEL - level
  {
    var e := Edges(g);
    if !IsGroup(g, id) {
      ReachSelf(e, id);
      if LeafBelow(g, id, o) { LeafHasNoEdges(g, id, o.id); }
    } else {
      ResolveStep(g, id, level);
      forall c | (id, c) in e ensures o in Resolve(g, c, level + 1).value <==> LeafBelow(g, c, o) {
        ResolveLeavesExact(g, c, level + 1, o);
      }
      if LeafBelow(g, id, o) {
        var c := ReachFirst(e, id, o.id);
        assert LeafBelow(g, c, o);
      }
      forall c | (id, c) in e && LeafBelow(g, c, o) ensures LeafBelow(g, id, o) {
        EdgeReach(e, id, c);
        ReachTransitive(e, id, c, o.id);
      }
    }
  }

  /** On success no group below the root reaches itself again. */
  lemma ResolvedIsAcyclic(g: GroupIndex, id: int, x: int, cycle: seq<int>)
    requires WellIndexed(g) && Resolve(g, id, 0).Ok? && Reach(Edges(g), id, x)
    requires IsWalk(Edges(g), cycle) && |cycle| > 1 && cycle[0] == x
    ensures cycle[|cycle| - 1] != x
  {
    ResolveSucceeds(g, id, 0);
    var bound := MAX_ADDR_GROUP_NESTING_LEVEL + 1;
    forall p | IsWalk(Edges(g), p) && p[0] == id ensures |p| <= bound {
      if |p| > bound {
        assert (p[bound - 1], p[bound]) in Edges(g);
        var q := p[..bound];
        assert IsWalk(Edges(g), q) && IsGroup(g, q[bound - 1]);
      }
    }
    var w :| Joins(Edges(g), w, id, x);
    BoundedWalksAcyclic(Edges(g), id, bound, w, cycle);
  }

  /** A walk over `n` groups from `id` to `last`. */
  ghost predicate ChainEndsAt(g: GroupIndex, id: int, n: nat, last: int) {
    exists p :: IsWalk(Edges(g), p) && |p| == n && p[0] == id && p[n - 1] == last
  }

  /** What an error says of the groups below `id`, when that is resolved at some nesting level. */
  ghost predicate Blames(g: GroupIndex, id: int, level: nat, e: ResolutionError)
    requires level <= MAX_ADDR_GROUP_NESTING_LEVEL
  {
    match e
    case UnknownObject(x) => x == id && id !in g.byId
    case NestingExceeded(x, deep) =>
      && deep == MAX_ADDR_GROUP_NESTING_LEVEL + 1 && IsGroup(g, x)
      && ChainEndsAt(g, id, deep - level, x)
    case NoLoadedChildren(key) =>
      exists b :: Reach(Edges(g), id, b) && IsGroup(g, b) && NamedBy(g.byId[b], key) && ChildrenOf(g, key) == []
    case NoLeafChildren(b) =>
      Reach(Edges(g), id, b) && IsGroup(g, b) && Members(g, b) != [] && !HasOtherChild(g, b)
  }

  lemma BlamesAbove(g: GroupIndex, id: int, c: int, level: nat, e: ResolutionError)
    requires WellIndexed(g) && level < MAX_ADDR_GROUP_NESTING_LEVEL && (id, c) in Edges(g)
    requires Blames(g, c, level + 1, e) && c in g.byId
    ensures Blames(g, id, level, e)
  {
    hide WellIndexed;
    EdgeReach(Edges(g), id, c);
    match e
    case UnknownObject(_) =>
    case NestingExceeded(x, deep) =>
      var n := deep - level - 1;
      var p :| IsWalk(Edges(g), p) && |p| == n && p[0] == c && p[n - 1] == x;
      assert IsWalk(Edges(g), [id, c]);
      JoinWalks(Edges(g), [id, c], p);
      assert ChainEndsAt(g, id, deep - level, x);
    case NoLoadedChildren(key) =>
      var b :| Reach(Edges(g), c, b) && IsGroup(g, b) && NamedBy(g.byId[b], key) && ChildrenOf(g, key) == [];
      ReachTransitive(Edges(g), id, c, b);
    case NoLeafChildren(b) => ReachTransitive(Edges(g), id, c, b);
  }

  /** Every error tells the truth; only the object asked for can be unknown. */
  lemma {:induction false} ResolveErrors(g: GroupIndex, id: int, level: nat)
    requires WellIndexed(g) && level <= MAX_ADDR_GROUP_NESTING_LEVEL && Resolve(g, id, level).Err?
    ensures Blames(g, id, level, Resolve(g, id, level).error)
    decreases MAX_ADDR_GROUP_NESTING_LEVEL - level, 0
  {
    ReachSelf(Edges(g), id);
    if !IsGroup(g, id) {
    } else if level == MAX_ADDR_GROUP_NESTING_LEVEL {
      assert IsWalk(Edges(g), [id]);
      assert ChainEndsAt(g, id, 1, id);
    } else if Members(g, id) == [] {
    } else if ResolveAll(g, id, Members(g, id), level + 1).Err? {
      var k := FirstFailing(g, id, Members(g, id), level + 1);
      var c := Members(g, id)[k];
      assert c in Members(g, id);
      assert (id, c.id) in Edges(g);
      EdgeIsMember(g, id, c.id);
      ResolveErrors(g, c.id, level + 1);
      BlamesAbove(g, id, c.id, level, Resolve(g, id, level).error);
    } else if HasOtherChild(g, id) {
      OtherChildGivesLeaf(g, id, level);
    }
  }

  lemma OtherChildGivesLeaf(g: GroupIndex, id: int, level: nat)
    requires WellIndexed(g) && level < MAX_ADDR_GROUP_NESTING_LEVEL && IsGroup(g, id) && HasOtherChild(g, id)
    requires ResolveAll(g, id, Members(g, id), level + 1).Ok?
    ensures ResolveAll(g, id, Members(g, id), level + 1).value != []
  {
    ResolveAllOutcome(g, id, Members(g, id), level + 1);
    var c :| (id, c) in Edges(g);
    EdgeIsMember(g, id, c);
    var o :| o in Members(g, id) && o.id == c;
    ResolveNonEmpty(g, c, level + 1);
    assert Resolve(g, c, level + 1).value[0] in ResolveAll(g, id, Members(g, id), level + 1).value;
  }

  /** The error is that of the first child, in catalog order, that does not resolve. */
  lemma {:induction false} FirstFailing(
    g: GroupIndex, self: int, children: seq<AddrObject>, level: nat) returns (k: nat)
    requires level <= MAX_ADDR_GROUP_NESTING_LEVEL && ResolveAll(g, self, children, level).Err?
    ensures k < |children| && children[k].id != self
    ensures Resolve(g, children[k].id, level) == ResolveAll(g, self, children, level)
    ensures forall i | 0 <= i < k :: children[i].id == self || Resolve(g, children[i].id, level).Ok?
  {
    if children[0].id != self && Resolve(g, children[0].id, level).Err? {
      k := 0;
    } else {
      k := FirstFailing(g, self, children[1..], level);
      forall i | 0 <= i < k + 1 ensures children[i].id == self || Resolve(g, children[i].id, level).Ok? {
        if i > 0 { assert children[i] == children[1..][i - 1]; }
      }
      k := k + 1;
    }
  }

  // ----- leaf order

  /** The members that resolution descends into, in catalog order. */
  function OtherMembers(self: int, children: seq<AddrObject>): seq<AddrObject> {
    if children == [] then []
    else (if children[0].id == self then [] else [children[0]]) + OtherMembers(self, children[1..])
  }

  /** Leaves come member by member in catalog order, duplicates kept. */
  lemma {:induction false} ResolveInMemberOrder(
      g: GroupIndex, self: int, children: seq<AddrObject>, level: nat, parts: seq<seq<AddrObject>>)
    requires level <= MAX_ADDR_GROUP_NESTING_LEVEL
    requires |parts| == |OtherMembers(self, children)|
    requires forall i :: 0 <= i < |parts| ==> Resolve(g, OtherMembers(self, children)[i].id, level) == Ok(parts[i])
    ensures ResolveAll(g, self, children, level) == Ok(Flatten(parts))
  {
    if children != [] {
      var others := OtherMembers(self, children[1..]);
      if children[0].id == self {
        assert OtherMembers(self, children) == others;
        ResolveInMemberOrder(g, self, children[1..], level, parts);
      } else {
        assert OtherMembers(self, children) == [children[0]] + others;
        assert Resolve(g, OtherMembers(self, children)[0].id, level) == Ok(parts[0]);
        forall i | 0 <= i < |parts| - 1 ensures Resolve(g, others[i].id, level) == Ok(parts[1..][i]) {
          assert others[i] == OtherMembers(self, children)[i + 1];
        }
        ResolveInMemberOrder(g, self, children[1..], level, parts[1..]);
      }
    }
  }

  // ----- building the index from a flat catalog list

  function ObjectId(o: AddrObject): int { o.id }

  /** The objects that name `p` as parent, in catalog order, once per mention. */
  function ListedUnder(objs: seq<AddrObject>, p: int): seq<AddrObject> {
    if objs == [] then []
    else ListedUnder(objs[..|objs| - 1], p) + Copies(objs[|objs| - 1], multiset(objs[|objs| - 1].parents)[p])
  }

  function Copies(o: AddrObject, n: nat): seq<AddrObject> { seq(n, _ => o) }

  function AllParents(objs: seq<AddrObject>): set<int> {
    set o, p | o in objs && p in o.parents :: p
  }

  function BuildIndex(objs: seq<AddrObject>): GroupIndex {
    GroupIndex(ById(ObjectId, objs), map p | p in AllParents(objs) :: ListedUnder(objs, p))
  }

  lemma {:induction false} ListedUnderMeaning(objs: seq<AddrObject>, p: int, o: AddrObject)
    ensures o in ListedUnder(objs, p) <==> o in objs && p in o.parents
  {
    if objs != [] {
      var n := |objs| - 1;
      ListedUnderMeaning(objs[..n], p, o);
      assert objs == objs[..n] + [objs[n]];
      var copies := Copies(objs[n], multiset(objs[n].parents)[p]);
      assert p in objs[n].parents <==> p in multiset(objs[n].parents);
      assert p in objs[n].parents ==> copies[0] == objs[n];
    }
  }

  lemma MembersMeaning(objs: seq<AddrObject>, p: int, o: AddrObject)
    ensures o in ChildrenOf(BuildIndex(objs), p) <==> o in objs && p in o.parents
  {
    ListedUnderMeaning(objs, p, o);
  }

  /** Some object at these catalog positions stands at each place of the list. */
  predicate Picks(list: seq<AddrObject>, objs: seq<AddrObject>, at: seq<nat>) {
    |list| == |at| && forall k :: 0 <= k < |at| ==> at[k] < |objs| && list[k] == objs[at[k]]
  }

  lemma {:induction false} ListedInOrder(objs: seq<AddrObject>, p: int) returns (at: seq<nat>)
    ensures Picks(ListedUnder(objs, p), objs, at)
    ensures forall i, j :: 0 <= i < j < |at| ==> at[i] <= at[j]
    ensures forall i :: 0 <= i < |objs| ==> multiset(at)[i] == multiset(objs[i].parents)[p]
  {
    at := [];
    if objs != [] {
      var n := |objs| - 1;
      var before := ListedInOrder(objs[..n], p);
      var last := RepeatedIndex(n, multiset(objs[n].parents)[p]);
      assert n !in multiset(before) by { if n in before {} }
      at := before + last;
      assert multiset(at) == multiset(before) + multiset(last);
    }
  }

  lemma {:induction false} RepeatedIndex(n: nat, count: nat) returns (r: seq<nat>)
    ensures |r| == count && forall k :: 0 <= k < count ==> r[k] == n
    ensures forall i: nat :: multiset(r)[i] == if i == n then count else 0
  {
    r := [];
    if count > 0 {
      var rest := RepeatedIndex(n, count - 1);
      r := rest + [n];
    }
  }

  /** The children of a parent stand in catalog order, as often as they name the parent. */
  lemma ChildrenInOrder(objs: seq<AddrObject>, p: int) returns (at: seq<nat>)
    ensures Picks(ChildrenOf(BuildIndex(objs), p), objs, at)
    ensures forall i, j :: 0 <= i < j < |at| ==> at[i] <= at[j]
    ensures forall i :: 0 <= i < |objs| ==> multiset(at)[i] == multiset(objs[i].parents)[p]
  {
    at := ListedInOrder(objs, p);
    if p !in AllParents(objs) { NotListed(objs, p); }
  }

  lemma BuildIndexWell(objs: seq<AddrObject>)
    ensures WellIndexed(BuildIndex(objs))
  {
    var g := BuildIndex(objs);
    forall id | id in g.byId ensures g.byId[id].id == id {
      ByIdDenotes(ObjectId, objs, id);
      DenotedIsListed(ObjectId, objs, id, g.byId[id]);
    }
    forall p, c | p in g.children && c in g.children[p] ensures c.id in g.byId {
      MembersMeaning(objs, p, c);
      ByIdDenotes(ObjectId, objs, c.id);
    }
  }

  // ----- the group graph read off the catalog list

  predicate MemberOf(group: AddrObject, o: AddrObject) { exists key :: key in o.parents && NamedBy(group, key) }

  /** From the group that an id denotes to each other object listed as its member. */
  ghost function MemberEdges(objs: seq<AddrObject>): set<(int, int)> {
    set g, o | g in objs && o in objs && Denotes(ObjectId, objs, g.id, g) && MemberOf(g, o) && o.id != g.id ::
      (g.id, o.id)
  }

  ghost predicate DenotesGroup(objs: seq<AddrObject>, id: int) {
    exists g :: Denotes(ObjectId, objs, id, g) && g.body.Group?
  }

  /** A non-group object of the list that membership reaches. */
  ghost predicate LeafOf(objs: seq<AddrObject>, id: int, o: AddrObject) {
    Denotes(ObjectId, objs, o.id, o) && !o.body.Group? && Reach(MemberEdges(objs), id, o.id)
  }

  lemma IndexDenotes(objs: seq<AddrObject>, id: int)
    ensures var g := BuildIndex(objs);
      && (forall x :: id in g.byId && g.byId[id] == x <==> Denotes(ObjectId, objs, id, x))
      && (IsGroup(g, id) <==> DenotesGroup(objs, id))
  {
    ByIdDenotes(ObjectId, objs, id);
    if IsGroup(BuildIndex(objs), id) { assert Denotes(ObjectId, objs, id, BuildIndex(objs).byId[id]); }
  }

  lemma IndexMember(objs: seq<AddrObject>, g: AddrObject, o: AddrObject)
    requires Denotes(ObjectId, objs, g.id, g) && g.body.Group?
    ensures g.id in BuildIndex(objs).byId && BuildIndex(objs).byId[g.id] == g
    ensures o in Members(BuildIndex(objs), g.id) <==> o in objs && MemberOf(g, o)
  {
    IndexDenotes(objs, g.id);
    MembersMeaning(objs, GroupKey(g), o);
  }

  lemma OnlyGroupsHaveMembers(g: AddrObject, o: AddrObject)
    requires MemberOf(g, o)
    ensures g.body.Group?
  {
  }

  /** The edges that resolution walks are the memberships of the list. */
  lemma IndexEdges(objs: seq<AddrObject>)
    ensures Edges(BuildIndex(objs)) == MemberEdges(objs)
  {
    hide BuildIndex, MemberOf, Members, Denotes;
    var index := BuildIndex(objs);
    forall e | e in Edges(index) ensures e in MemberEdges(objs) {
      var o :| IsGroup(index, e.0) && o in Members(index, e.0) && o.id == e.1 && o.id != e.0;
      var g := index.byId[e.0];
      IndexDenotes(objs, e.0);
      DenotedIsListed(ObjectId, objs, e.0, g);
      IndexMember(objs, g, o);
    }
    forall e | e in MemberEdges(objs) ensures e in Edges(index) {
      var g, o :| g in objs && o in objs && Denotes(ObjectId, objs, g.id, g) && MemberOf(g, o) && o.id != g.id
        && e == (g.id, o.id);
      OnlyGroupsHaveMembers(g, o);
      IndexMember(objs, g, o);
    }
  }

  lemma IndexLeaves(objs: seq<AddrObject>, id: int, o: AddrObject)
    ensures LeafBelow(BuildIndex(objs), id, o) <==> LeafOf(objs, id, o)
  {
    IndexEdges(objs);
    IndexDenotes(objs, o.id);
  }

  /** The resolver object: both dictionaries are filled by the constructor. */
  class LeavesResolver {
    var byId: map<int, AddrObject>
    var children: map<int, seq<AddrObject>>

    function Index(): GroupIndex
      reads this
    {
      GroupIndex(byId, children)
    }

    constructor (objects: seq<AddrObject>)
      ensures Index() == BuildIndex(objects)
    {
      byId, children := map[], map[];
      new;
      var i := 0;
      while i < |objects|
        invariant 0 <= i <= |objects|
        invariant Index() == BuildIndex(objects[..i])
      {
        var o := objects[i];
        assert objects[..i + 1] == objects[..i] + [o];
        byId := byId[o.id := o];
        AddUnderParents(o, objects[..i]);
        i := i + 1;
      }
      assert objects[..i] == objects;
    }

    method AddUnderParents(o: AddrObject, ghost before: seq<AddrObject>)
      requires children == BuildIndex(before).children
      modifies this`children
      ensures children == BuildIndex(before + [o]).children
    {
      PartlyStart(before, o);
      var j := 0;
      while j < |o.parents|
        invariant 0 <= j <= |o.parents|
        invariant PartlyListed(children, before, o, j)
      {
        var p := o.parents[j];
        PartlyStep(children, before, o, j);
        children := children[p := ChildrenOf(Index(), p) + [o]];
        j := j + 1;
      }
      PartlyEnd(children, before, o);
    }

    method ResolveLeaves(id: int) returns (r: Leaves)
      ensures r == Resolve(Index(), id, 0)
    {
      r := ResolveAt(id, 0);
    }

    method ResolveAt(id: int, level: nat) returns (r: Leaves)
      requires level <= MAX_ADDR_GROUP_NESTING_LEVEL
      ensures r == Resolve(Index(), id, level)
      decreases MAX_ADDR_GROUP_NESTING_LEVEL - level
    {
      if id !in byId {
        return Err(UnknownObject(id));
      }
      var object_ := byId[id];
      if !object_.body.Group? {
        return Ok([object_]);
      }
      var groupLevel := level + 1;
      if groupLevel > MAX_ADDR_GROUP_NESTING_LEVEL {
        return Err(NestingExceeded(id, groupLevel));
      }
      var members := ChildrenOf(Index(), GroupKey(object_));
      if members == [] {
        return Err(NoLoadedChildren(GroupKey(object_)));
      }
      var leaves: seq<AddrObject> := [];
      ghost var all := ResolveAll(Index(), object_.id, members, groupLevel);
      var i := 0;
      assert members[0..] == members && (all.Ok? ==> [] + all.value == all.value);
      while i < |members|
        invariant 0 <= i <= |members|
        invariant all == Prepend(leaves, ResolveAll(Index(), object_.id, members[i..], groupLevel))
      {
        if members[i].id != object_.id {
          var child := ResolveAt(members[i].id, groupLevel);
          if child.Err? {
            return child;
          }
          PrependTwice(leaves, child.value, ResolveAll(Index(), object_.id, members[i + 1..], groupLevel));
          leaves := leaves + child.value;
        }
        assert members[i..][1..] == members[i + 1..];
        i := i + 1;
      }
      assert members[i..] == [] && leaves + [] == leaves;
      if leaves == [] {
        return Err(NoLeafChildren(object_.id));
      }
      return Ok(leaves);
    }
  }

  ghost function Prepend(done: seq<AddrObject>, r: Leaves): Leaves {
    if r.Ok? then Ok(done + r.value) else r
  }

  lemma PrependTwice(a: seq<AddrObject>, b: seq<AddrObject>, r: Leaves)
    ensures Prepend(a + b, r) == Prepend(a, Prepend(b, r))
  {
    if r.Ok? { assert a + b + r.value == a + (b + r.value); }
  }

  // ----- the children dictionary while one object is being added

  ghost predicate PartlyListed(children: map<int, seq<AddrObject>>, before: seq<AddrObject>, o: AddrObject, j: nat)
    requires j <= |o.parents|
  {
    && (forall p :: p in children <==> p in AllParents(before) || p in o.parents[..j])
    && forall p | p in children :: children[p] == ListedUnder(before, p) + Copies(o, multiset(o.parents[..j])[p])
  }

  lemma PartlyStart(before: seq<AddrObject>, o: AddrObject)
    ensures PartlyListed(BuildIndex(before).children, before, o, 0)
  {
  }

  lemma NotListed(objs: seq<AddrObject>, p: int)
    requires p !in AllParents(objs)
    ensures ListedUnder(objs, p) == []
  {
    if ListedUnder(objs, p) != [] { ListedUnderMeaning(objs, p, ListedUnder(objs, p)[0]); }
  }

  lemma MentionCount(parents: seq<int>, j: nat, p: int)
    requires j < |parents|
    ensures multiset(parents[..j + 1])[p] == multiset(parents[..j])[p] + if p == parents[j] then 1 else 0
    ensures p in parents[..j + 1] <==> p in parents[..j] || p == parents[j]
    ensures p !in parents[..j] ==> multiset(parents[..j])[p] == 0
  {
    assert parents[..j + 1] == parents[..j] + [parents[j]];
  }

  lemma CopiesSnoc(o: AddrObject, n: nat)
    ensures Copies(o, n) + [o] == Copies(o, n + 1)
  {
  }

  lemma PartlyStep(children: map<int, seq<AddrObject>>, before: seq<AddrObject>, o: AddrObject, j: nat)
    requires j < |o.parents| && PartlyListed(children, before, o, j)
    ensures var p := o.parents[j];
      PartlyListed(children[p := (if p in children then children[p] else []) + [o]], before, o, j + 1)
  {
    var p := o.parents[j];
    var next := children[p := (if p in children then children[p] else []) + [o]];
    forall q ensures q in next <==> q in AllParents(before) || q in o.parents[..j + 1] {
      MentionCount(o.parents, j, q);
    }
    forall q | q in next ensures next[q] == ListedUnder(before, q) + Copies(o, multiset(o.parents[..j + 1])[q]) {
      MentionCount(o.parents, j, q);
      if q == p {
        CopiesSnoc(o, multiset(o.parents[..j])[p]);
        if p !in children { NotListed(before, p); }
      }
    }
  }

  lemma ListedSnoc(before: seq<AddrObject>, o: AddrObject, p: int)
    ensures ListedUnder(before + [o], p) == ListedUnder(before, p) + Copies(o, multiset(o.parents)[p])
    ensures p in AllParents(before + [o]) <==> p in AllParents(before) || p in o.parents
  {
    assert (before + [o])[..|before|] == before;
    if p in AllParents(before) {
      var x :| x in before && p in x.parents;
      assert x in before + [o];
    }
    if p in o.parents { assert o in before + [o]; }
  }

  lemma PartlyEnd(children: map<int, seq<AddrObject>>, before: seq<AddrObject>, o: AddrObject)
    requires PartlyListed(children, before, o, |o.parents|)
    ensures children == BuildIndex(before + [o]).children
  {
    assert o.parents[..|o.parents|] == o.parents;
    var target := BuildIndex(before + [o]).children;
    forall p ensures p in children <==> p in target {
      ListedSnoc(before, o, p);
    }
    forall p | p in children ensures children[p] == target[p] {
      ListedSnoc(before, o, p);
    }
  }
}
