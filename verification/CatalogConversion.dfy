/** From loaded rows to catalog objects, and the agreement of the two group expansions. */
module CatalogConversion {
  import opened CatalogModels
  import opened Collections
  import opened Graphs
  import opened ParentQueries
  import opened CatalogLoading
  import opened AddressGroups

  datatype NetworkRow = NetworkRow(networkId: string, net: Option<Net>)

  /** The net of a network id: rows without a net are skipped, the last remaining row counts. */
  function NetOf(networks: seq<NetworkRow>, id: string): Option<Net> {
    if networks == [] then None
    else
      var last := networks[|networks| - 1];
      if last.networkId == id && last.net.Some? then last.net else NetOf(networks[..|networks| - 1], id)
  }

  /** One row as a catalog object; a network reference without a net has none. */
  function ConvertRow(o: RawObject, networks: seq<NetworkRow>): Option<AddrObject> {
    match o.data
    case RawHost(h) => Some(AddrObject(o.id, o.parents, o.name, Host(h)))
    case RawPrefix(n) => Some(AddrObject(o.id, o.parents, o.name, Prefix(n)))
    case RawFqdn(d) => Some(AddrObject(o.id, o.parents, o.name, Fqdn(d)))
    case RawIpRange(f, t) => Some(AddrObject(o.id, o.parents, o.name, IpRange(f, t)))
    case RawNetwork(nid) =>
      var net := NetOf(networks, nid);
      if net.None? then None else Some(AddrObject(o.id, o.parents, o.name, NetworkRef(nid, net.value)))
    case RawGroup(g) => Some(AddrObject(o.id, o.parents, o.name, Group(Some(g))))
  }

  function Converted(rows: seq<RawObject>, networks: seq<NetworkRow>): seq<AddrObject> {
    if rows == [] then []
    else
      var init, last := Converted(rows[..|rows| - 1], networks), ConvertRow(rows[|rows| - 1], networks);
      if last.None? then init else init + [last.value]
  }

  // ----- what a row shows, told from the row and the networks

  /** The net that counts for a network id: that of the last row with this id and a net. */
  ghost predicate NetCounts(networks: seq<NetworkRow>, id: string, n: Net) {
    exists k :: 0 <= k < |networks| && networks[k] == NetworkRow(id, Some(n))
      && forall j :: k < j < |networks| && networks[j].networkId == id ==> networks[j].net.None?
  }

  /** A loaded network reference whose network has no net: conversion drops it silently. */
  predicate Dropped(o: RawObject, networks: seq<NetworkRow>) {
    o.data.RawNetwork? && forall row | row in networks && row.networkId == o.data.networkId :: row.net.None?
  }

  /** The catalog object is the object of this row; the parents may come from another row of it. */
  ghost predicate Shows(o: RawObject, networks: seq<NetworkRow>, x: AddrObject) {
    && x.id == o.id && x.name == o.name
    && match o.data
       case RawPrefix(n) => x.body.Prefix? && x.body.net == n
       case RawNetwork(nid) => x.body.NetworkRef? && x.body.networkId == nid && NetCounts(networks, nid, x.body.network)
       case RawHost(h) => x.body.Host? && x.body.host == h
       case RawFqdn(d) => x.body.Fqdn? && x.body.fqdn == d
       case RawIpRange(f, t) => x.body.IpRange? && x.body.rangeFrom == f && x.body.rangeTo == t
       case RawGroup(g) => x.body.Group? && x.body.addrGroup == Some(g)
  }

  /** The catalog object that conversion makes of this very row. */
  ghost predicate Yields(o: RawObject, networks: seq<NetworkRow>, x: AddrObject) {
    Shows(o, networks, x) && x.parents == o.parents
  }

  lemma {:induction false} NetOfCounts(networks: seq<NetworkRow>, id: string)
    ensures NetOf(networks, id).None? <==> forall row | row in networks && row.networkId == id :: row.net.None?
    ensures forall n :: NetOf(networks, id) == Some(n) <==> NetCounts(networks, id, n)
  {
    if networks != [] {
      var k := |networks| - 1;
      var init, last := networks[..k], networks[k];
      assert networks == init + [last];
      NetOfCounts(init, id);
      if last.networkId == id && last.net.Some? {
        assert NetCounts(networks, id, last.net.value);
      } else {
        forall n ensures NetCounts(networks, id, n) <==> NetCounts(init, id, n) { NetCountsInit(networks, id, n); }
      }
    }
  }

  lemma NetCountsInit(networks: seq<NetworkRow>, id: string, n: Net)
    requires networks != [] && !(networks[|networks| - 1].networkId == id && networks[|networks| - 1].net.Some?)
    ensures NetCounts(networks, id, n) <==> NetCounts(networks[..|networks| - 1], id, n)
  {
    var init := networks[..|networks| - 1];
    assert forall j :: 0 <= j < |init| ==> init[j] == networks[j];
  }

  /** Each row yields one object, or none exactly when its network has no net. */
  lemma RowYields(o: RawObject, networks: seq<NetworkRow>)
    ensures ConvertRow(o, networks).None? <==> Dropped(o, networks)
    ensures forall x :: ConvertRow(o, networks) == Some(x) <==> Yields(o, networks, x)
  {
    if o.data.RawNetwork? { NetOfCounts(networks, o.data.networkId); }
  }

  lemma ShowsKept(o: RawObject, networks: seq<NetworkRow>, x: AddrObject)
    requires Shows(o, networks, x)
    ensures !Dropped(o, networks)
  {
    RowYields(o, networks);
    if o.data.RawNetwork? { NetOfCounts(networks, o.data.networkId); }
  }

  lemma {:induction false} ConvertedMeaning(rows: seq<RawObject>, networks: seq<NetworkRow>, x: AddrObject)
    ensures x in Converted(rows, networks) <==> exists o :: o in rows && Yields(o, networks, x)
  {
    if rows != [] {
      hide Yields, ConvertRow;
      RowYields(rows[|rows| - 1], networks);
      ConvertedMeaning(rows[..|rows| - 1], networks, x);
      assert rows == rows[..|rows| - 1] + [rows[|rows| - 1]];
    }
  }

  /** The kept rows, in order: row `at[k]` yields the `k`-th object, and every row that is not dropped is there. */
  ghost predicate ConvertedFrom(
    objects: seq<AddrObject>, rows: seq<RawObject>, networks: seq<NetworkRow>, at: seq<nat>)
  {
    && |objects| == |at|
    && (forall k :: 0 <= k < |at| ==> at[k] < |rows| && Yields(rows[at[k]], networks, objects[k]))
    && (forall i, j :: 0 <= i < j < |at| ==> at[i] < at[j])
    && (forall i: nat :: i < |rows| ==> (i in at <==> !Dropped(rows[i], networks)))
  }

  lemma {:induction false} ConvertedInOrder(rows: seq<RawObject>, networks: seq<NetworkRow>) returns (at: seq<nat>)
    ensures ConvertedFrom(Converted(rows, networks), rows, networks, at)
  {
    hide Yields, Dropped, ConvertRow;
    at := [];
    if rows != [] {
      var n := |rows| - 1;
      at := ConvertedInOrder(rows[..n], networks);
      RowYields(rows[n], networks);
      assert forall i :: 0 <= i < n ==> rows[..n][i] == rows[i];
      assert n !in at by { if n in at {} }
      if !Dropped(rows[n], networks) { at := at + [n]; }
    }
  }

  method ConvertRows(rows: seq<RawObject>, networks: seq<NetworkRow>) returns (objects: seq<AddrObject>)
    ensures objects == Converted(rows, networks)
    ensures exists at :: ConvertedFrom(objects, rows, networks, at)
  {
    objects := [];
    for i := 0 to |rows|
      invariant objects == Converted(rows[..i], networks)
    {
      hide ConvertedFrom;
      assert rows[..i + 1][..i] == rows[..i];
      var converted := ConvertRow(rows[i], networks);
      if converted.None? {
        continue;
      }
      objects := objects + [converted.value];
    }
    assert rows[..|rows|] == rows;
    ghost var at := ConvertedInOrder(rows, networks);
  }

  // ----- the loaded catalog as a group graph

  /** Rows of one id show one object; only their parents may differ. */
  ghost predicate OneObjectPerId(server: seq<RawObject>) {
    forall a, b | a in server && b in server && a.id == b.id :: a.name == b.name && a.data == b.data
  }

  /** Groups are keyed by their own object id. */
  ghost predicate GroupsKeyed(server: seq<RawObject>) {
    forall o | o in server && o.data.RawGroup? :: o.data.addrGroup == o.id
  }

  /** What a successful load hands over to conversion. */
  ghost predicate Expanded(server: seq<RawObject>, loaded: seq<RawObject>) {
    && OneObjectPerId(server) && GroupsKeyed(server)
    && (forall o | o in loaded :: o in server)
    && ClosedRows(server, loaded) && Shallow(server, loaded)
  }

  lemma LoadIsExpanded(server: seq<RawObject>, ids: Option<seq<int>>)
    requires OneObjectPerId(server) && GroupsKeyed(server) && Load(server, ids).Ok?
    ensures Expanded(server, Load(server, ids).value) && GroupsAgree(server)
  {
    hide Load, ClosedRows, Shallow;
    LoadedShape(server, ids);
  }

  /** The gateway's answer: nothing for an empty list of ids, else the loaded rows, converted. */
  function CatalogObjects(server: seq<RawObject>, networks: seq<NetworkRow>, ids: Option<seq<int>>)
    : Result<seq<AddrObject>, seq<int>>
  {
    match Load(server, ids)
    case Err(groups) => Err(groups)
    case Ok(loaded) => Ok(Converted(loaded, networks))
  }

  /**
   * What the gateway answers: nothing for an empty list of ids; a refusal exactly on four nested groups, naming those
   * that end such a chain; else the objects of rows of the server for exactly the ids that the requested ones reach.
   */
  ghost predicate Answers(
    server: seq<RawObject>, networks: seq<NetworkRow>, ids: Option<seq<int>>, r: Result<seq<AddrObject>, seq<int>>)
  {
    if ids == Some([]) then r == Ok([])
    else
      && (r.Err? <==> TooDeep(server, ids))
      && (r.Err? ==> forall id :: id in r.error <==> EndsRefusedChain(server, ids, id))
      && (r.Ok? ==> exists loaded, at ::
            LoadedExactly(server, ids, loaded) && ConvertedFrom(r.value, loaded, networks, at))
  }

  lemma CatalogAnswers(server: seq<RawObject>, networks: seq<NetworkRow>, ids: Option<seq<int>>)
    requires GroupsAgree(server)
    ensures Answers(server, networks, ids, CatalogObjects(server, networks, ids))
  {
    hide LoadedExactly, ConvertedFrom, EndsRefusedChain, LoadExpanded, GroupsAgree;
    LoadsExactly(server, ids);
    if ids != Some([]) && LoadExpanded(server, ids).Ok? {
      var at := ConvertedInOrder(LoadExpanded(server, ids).value, networks);
    }
  }

  method GetCatalogObjects(server: seq<RawObject>, networks: seq<NetworkRow>, ids: Option<seq<int>>)
    returns (r: Result<seq<AddrObject>, seq<int>>)
    ensures r == CatalogObjects(server, networks, ids)
    ensures GroupsAgree(server) ==> Answers(server, networks, ids, r)
  {
    if GroupsAgree(server) { CatalogAnswers(server, networks, ids); }
    hide Answers;
    if ids == Some([]) {
      return Ok([]);
    }
    var loaded := LoadExpandedGroups(server, ids);
    if loaded.Err? {
      return Err(loaded.error);
    }
    var objects := ConvertRows(loaded.value, networks);
    return Ok(objects);
  }

  function IndexOf(loaded: seq<RawObject>, networks: seq<NetworkRow>): GroupIndex {
    BuildIndex(Converted(loaded, networks))
  }

  ghost predicate Kept(rows: seq<RawObject>, networks: seq<NetworkRow>, id: int) {
    exists o :: o in rows && o.id == id && !Dropped(o, networks)
  }

  lemma SameObjectShows(server: seq<RawObject>, networks: seq<NetworkRow>, o: RawObject, r: RawObject, x: AddrObject)
    requires OneObjectPerId(server) && o in server && r in server && o.id == r.id
    ensures Shows(o, networks, x) <==> Shows(r, networks, x)
    ensures Dropped(o, networks) <==> Dropped(r, networks)
  {
  }

  /** The index holds each kept loaded row under its id. */
  lemma IndexedRow(server: seq<RawObject>, loaded: seq<RawObject>, networks: seq<NetworkRow>, o: RawObject)
    requires Expanded(server, loaded) && o in server && o.id in IdsOf(loaded)
    ensures var g := IndexOf(loaded, networks);
      (o.id in g.byId <==> !Dropped(o, networks)) && (o.id in g.byId ==> Shows(o, networks, g.byId[o.id]))
  {
    hide Converted, AllParents, ListedUnder, Shallow, ClosedRows, Shows, Denotes, ById;
    var objs := Converted(loaded, networks);
    ByIdDenotes(ObjectId, objs, o.id);
    if !Dropped(o, networks) { KeptRowConverted(server, loaded, networks, o); }
    forall x | Denotes(ObjectId, objs, o.id, x) ensures Shows(o, networks, x) && !Dropped(o, networks) {
      DenotedIsListed(ObjectId, objs, o.id, x);
      ConvertedShows(server, loaded, networks, o, x);
      ShowsKept(o, networks, x);
    }
    assert o.id in ById(ObjectId, objs) ==> Denotes(ObjectId, objs, o.id, ById(ObjectId, objs)[o.id]);
  }

  lemma KeptRowConverted(server: seq<RawObject>, loaded: seq<RawObject>, networks: seq<NetworkRow>, o: RawObject)
    requires OneObjectPerId(server) && (forall r | r in loaded :: r in server)
    requires o in server && o.id in IdsOf(loaded) && !Dropped(o, networks)
    ensures exists x :: x in Converted(loaded, networks) && ObjectId(x) == o.id
  {
    hide Converted;
    var r :| r in loaded && r.id == o.id;
    assert r in server;
    RowYields(r, networks);
    var x := ConvertRow(r, networks).value;
    ConvertedMeaning(loaded, networks, x);
    assert x in Converted(loaded, networks) && ObjectId(x) == o.id;
  }

  lemma ConvertedShows(
    server: seq<RawObject>, loaded: seq<RawObject>, networks: seq<NetworkRow>, o: RawObject, x: AddrObject)
    requires OneObjectPerId(server) && o in server && forall r | r in loaded :: r in server
    requires x in Converted(loaded, networks) && x.id == o.id
    ensures Shows(o, networks, x)
  {
    ConvertedMeaning(loaded, networks, x);
    var r :| r in loaded && Yields(r, networks, x);
    SameObjectShows(server, networks, o, r, x);
  }

  lemma IndexedId(server: seq<RawObject>, loaded: seq<RawObject>, networks: seq<NetworkRow>, id: int)
      returns (o: RawObject)
    requires Expanded(server, loaded) && id in IndexOf(loaded, networks).byId
    ensures o in loaded && o in server && o.id == id && !Dropped(o, networks)
    ensures Shows(o, networks, IndexOf(loaded, networks).byId[id])
  {
    hide Shallow, ClosedRows;
    var objs := Converted(loaded, networks);
    ByIdDenotes(ObjectId, objs, id);
    var x :| x in objs && x.id == id;
    ConvertedMeaning(loaded, networks, x);
    o :| o in loaded && Yields(o, networks, x);
    RowYields(o, networks);
    IndexedRow(server, loaded, networks, o);
  }

  /** Edges of the catalog: the loaded edges between different objects, without dropped children. */
  lemma LoadedEdge(server: seq<RawObject>, loaded: seq<RawObject>, networks: seq<NetworkRow>, a: int, b: int)
    requires Expanded(server, loaded)
    ensures (a, b) in Edges(IndexOf(loaded, networks)) <==>
      a != b && (a, b) in EdgesIn(loaded) && Kept(loaded, networks, b)
  {
    if (a, b) in Edges(IndexOf(loaded, networks)) {
      EdgeToRows(server, loaded, networks, a, b);
    }
    if a != b && (a, b) in EdgesIn(loaded) && Kept(loaded, networks, b) {
      EdgeOfRows(server, loaded, networks, a, b);
    }
  }

  /** A listed member of a group, as a loaded row that names the group as parent. */
  lemma MemberRow(loaded: seq<RawObject>, networks: seq<NetworkRow>, p: int, c: AddrObject)
    ensures c in ChildrenOf(IndexOf(loaded, networks), p) <==>
      p in c.parents && exists r :: r in loaded && Yields(r, networks, c)
  {
    MembersMeaning(Converted(loaded, networks), p, c);
    ConvertedMeaning(loaded, networks, c);
  }

  lemma EdgeMember(server: seq<RawObject>, loaded: seq<RawObject>, networks: seq<NetworkRow>, a: int, b: int)
      returns (oa: RawObject, c: AddrObject)
    requires Expanded(server, loaded) && (a, b) in Edges(IndexOf(loaded, networks))
    ensures a != b && oa in loaded && oa.id == a && oa.data.RawGroup?
    ensures c.id == b && c in ChildrenOf(IndexOf(loaded, networks), a)
  {
    var g := IndexOf(loaded, networks);
    IndexWell(loaded, networks);
    hide IndexOf, OneObjectPerId, WellIndexed, Shallow, ClosedRows;
    EdgeIsMember(g, a, b);
    oa := IndexedId(server, loaded, networks, a);
    assert GroupKey(g.byId[a]) == a;
    c :| c in Members(g, a) && c.id == b;
  }

  lemma EdgeToRows(server: seq<RawObject>, loaded: seq<RawObject>, networks: seq<NetworkRow>, a: int, b: int)
    requires Expanded(server, loaded) && (a, b) in Edges(IndexOf(loaded, networks))
    ensures a != b && (a, b) in EdgesIn(loaded) && Kept(loaded, networks, b)
  {
    hide Edges, IndexOf, Expanded, EdgesIn, ChildrenOf;
    var oa, c := EdgeMember(server, loaded, networks, a, b);
    MemberRow(loaded, networks, a, c);
    var rc :| rc in loaded && Yields(rc, networks, c);
    RowYields(rc, networks);
    EdgeFrom(loaded, a, rc);
    assert !Dropped(rc, networks);
  }

  lemma EdgeOfRows(server: seq<RawObject>, loaded: seq<RawObject>, networks: seq<NetworkRow>, a: int, b: int)
    requires Expanded(server, loaded) && a != b && (a, b) in EdgesIn(loaded) && Kept(loaded, networks, b)
    ensures (a, b) in Edges(IndexOf(loaded, networks))
  {
    hide Edges, IndexOf, EdgesIn, WellIndexed, Shallow, ClosedRows;
    var g := IndexOf(loaded, networks);
    IndexWell(loaded, networks);
    var rc := EdgeRow(loaded, (a, b));
    var kept :| kept in loaded && kept.id == b && !Dropped(kept, networks);
    RowYields(kept, networks);
    SameObjectShows(server, networks, rc, kept, ConvertRow(kept, networks).value);
    var oa :| oa in loaded && oa.data.RawGroup? && oa.id == a;
    GroupMember(server, loaded, networks, oa, rc);
    EdgeIsMember(g, a, b);
  }

  lemma GroupMember(
    server: seq<RawObject>, loaded: seq<RawObject>, networks: seq<NetworkRow>, oa: RawObject, rc: RawObject)
    requires Expanded(server, loaded) && oa in loaded && oa.data.RawGroup?
    requires rc in loaded && oa.id in rc.parents && !Dropped(rc, networks)
    ensures var g := IndexOf(loaded, networks);
      IsGroup(g, oa.id) && exists c :: c in Members(g, oa.id) && c.id == rc.id
  {
    hide IndexOf, Shallow, ClosedRows;
    var g := IndexOf(loaded, networks);
    IndexedRow(server, loaded, networks, oa);
    assert GroupKey(g.byId[oa.id]) == oa.id;
    RowYields(rc, networks);
    MemberRow(loaded, networks, oa.id, ConvertRow(rc, networks).value);
    assert ConvertRow(rc, networks).value in Members(g, oa.id);
  }

  lemma {:induction false} WalkMonotone(e: set<(int, int)>, f: set<(int, int)>, p: seq<int>)
    requires IsWalk(e, p) && e <= f
    ensures IsWalk(f, p)
  {
  }

  lemma ReachMonotone(e: set<(int, int)>, f: set<(int, int)>, a: int, b: int)
    requires e <= f && Reach(e, a, b)
    ensures Reach(f, a, b)
  {
    var p :| Joins(e, p, a, b);
    WalkMonotone(e, f, p);
    assert Joins(f, p, a, b);
  }

  lemma CatalogEdgesAreLoaded(server: seq<RawObject>, loaded: seq<RawObject>, networks: seq<NetworkRow>)
    requires Expanded(server, loaded)
    ensures Edges(IndexOf(loaded, networks)) <= EdgesIn(loaded) <= EdgesIn(server)
  {
    hide Edges, IndexOf, EdgesIn;
    RowEdges(loaded, server);
    forall x | x in Edges(IndexOf(loaded, networks)) ensures x in EdgesIn(loaded) {
      LoadedEdge(server, loaded, networks, x.0, x.1);
      assert x == (x.0, x.1);
    }
  }

  /** Up to kept objects, reachability in the catalog is reachability over the loaded edges. */
  lemma ReachAgrees(server: seq<RawObject>, loaded: seq<RawObject>, networks: seq<NetworkRow>, a: int, b: int)
    requires Expanded(server, loaded) && Kept(loaded, networks, b)
    ensures Reach(Edges(IndexOf(loaded, networks)), a, b) <==> Reach(EdgesIn(loaded), a, b)
  {
    hide Expanded, EdgesIn, IndexOf, Edges;
    var e, f := Edges(IndexOf(loaded, networks)), EdgesIn(loaded);
    CatalogEdgesAreLoaded(server, loaded, networks);
    if Reach(e, a, b) { ReachMonotone(e, f, a, b); }
    if Reach(f, a, b) {
      var s := set x | x in Nodes(f, a) && (Kept(loaded, networks, x) ==> Reach(e, a, x));
      ReachSelf(e, a);
      forall x | x in f && x.0 in s ensures x.1 in s {
        StepAgrees(server, loaded, networks, a, x.0, x.1);
        assert x == (x.0, x.1);
      }
      ReachInClosed(f, s, a, b);
    }
  }

  ghost function Nodes(edges: set<(int, int)>, a: int): set<int> { {a} + set x | x in edges :: x.1 }

  lemma StepAgrees(
    server: seq<RawObject>, loaded: seq<RawObject>, networks: seq<NetworkRow>, a: int, x: int, y: int)
    requires Expanded(server, loaded) && (x, y) in EdgesIn(loaded)
    requires Kept(loaded, networks, x) ==> Reach(Edges(IndexOf(loaded, networks)), a, x)
    ensures Kept(loaded, networks, y) ==> Reach(Edges(IndexOf(loaded, networks)), a, y)
  {
    var g :| g in loaded && g.id == x && g.data.RawGroup?;
    assert !Dropped(g, networks);
    assert Kept(loaded, networks, x);
    if Kept(loaded, networks, y) && x != y {
      hide Expanded, EdgesIn, IndexOf, Edges, Kept;
      LoadedEdge(server, loaded, networks, x, y);
      ReachStep(Edges(IndexOf(loaded, networks)), a, x, y);
    }
  }

  // ----- agreement of the two expansions

  /** After a successful load the resolver never raises the nesting error, whatever id it is asked for. */
  lemma NestingNeverExceeded(server: seq<RawObject>, loaded: seq<RawObject>, networks: seq<NetworkRow>, id: int)
    requires Expanded(server, loaded)
    ensures !GroupChain(IndexOf(loaded, networks), id, MAX_ADDR_GROUP_NESTING_LEVEL + 1)
    ensures Resolve(IndexOf(loaded, networks), id, 0).Err? ==>
      !Resolve(IndexOf(loaded, networks), id, 0).error.NestingExceeded?
  {
    hide IndexOf, Resolve;
    var g := IndexOf(loaded, networks);
    IndexWell(loaded, networks);
    if GroupChain(g, id, REFUSED_CHAIN) {
      NoDeepChain(server, loaded, networks, id);
    }
    if Resolve(g, id, 0).Err? { ResolveErrors(g, id, 0); }
  }

  lemma NoDeepChain(server: seq<RawObject>, loaded: seq<RawObject>, networks: seq<NetworkRow>, id: int)
    requires Expanded(server, loaded)
    ensures !GroupChain(IndexOf(loaded, networks), id, REFUSED_CHAIN)
  {
    hide IndexOf, Edges, EdgesIn, OneObjectPerId;
    var g := IndexOf(loaded, networks);
    forall p | IsWalk(Edges(g), p) && p[0] == id && |p| == REFUSED_CHAIN ensures !IsGroup(g, p[REFUSED_CHAIN - 1]) {
      CatalogEdgesAreLoaded(server, loaded, networks);
      WalkMonotone(Edges(g), EdgesIn(server), p);
      LoadedEdge(server, loaded, networks, p[0], p[1]);
      var c := EdgeRow(loaded, (p[0], p[1]));
      if IsGroup(g, p[REFUSED_CHAIN - 1]) {
        var o := IndexedId(server, loaded, networks, p[REFUSED_CHAIN - 1]);
      }
    }
  }

  /** A row for a non-group object that the edges among `rows` reach from `id`. */
  ghost predicate LeafRow(rows: seq<RawObject>, id: int, o: RawObject) {
    o in rows && !o.data.RawGroup? && Reach(EdgesIn(rows), id, o.id)
  }

  /** A server row whose object is shown, and reached along shown edges. */
  ghost predicate FoundLeaf(server: seq<RawObject>, shown: Graph, id: int, o: RawObject) {
    o in server && !o.data.RawGroup? && o.id in shown.nodes && Reach(shown.edges, id, o.id)
  }

  /** Below an id, the catalog shows exactly the kept objects that the loaded edges reach. */
  lemma LeafBelowShown(
    server: seq<RawObject>, loaded: seq<RawObject>, networks: seq<NetworkRow>, id: int, o: RawObject)
    requires Expanded(server, loaded) && o in server
    ensures (exists x :: LeafBelow(IndexOf(loaded, networks), id, x) && Shows(o, networks, x)) <==>
      FoundLeaf(server, GraphOf(loaded), id, o) && !Dropped(o, networks)
  {
    hide Edges, EdgesIn, IndexOf;
    var g := IndexOf(loaded, networks);
    forall x | LeafBelow(g, id, x) && Shows(o, networks, x)
      ensures FoundLeaf(server, GraphOf(loaded), id, o) && !Dropped(o, networks)
    {
      var r := IndexedId(server, loaded, networks, x.id);
      assert Kept(loaded, networks, x.id);
      ReachAgrees(server, loaded, networks, id, x.id);
    }
    if FoundLeaf(server, GraphOf(loaded), id, o) && !Dropped(o, networks) {
      IndexedRow(server, loaded, networks, o);
      var r := IndexedId(server, loaded, networks, o.id);
      assert Kept(loaded, networks, o.id);
      ReachAgrees(server, loaded, networks, id, o.id);
      assert LeafBelow(g, id, g.byId[o.id]);
    }
  }

  /** Each leaf of the catalog comes from some kept row of the server. */
  lemma LeafHasRow(server: seq<RawObject>, loaded: seq<RawObject>, networks: seq<NetworkRow>, id: int, x: AddrObject)
      returns (o: RawObject)
    requires Expanded(server, loaded) && LeafBelow(IndexOf(loaded, networks), id, x)
    ensures FoundLeaf(server, GraphOf(loaded), id, o) && !Dropped(o, networks) && Shows(o, networks, x)
  {
    hide Edges, EdgesIn, IndexOf;
    o := IndexedId(server, loaded, networks, x.id);
    LeafBelowShown(server, loaded, networks, id, o);
  }

  lemma FoundIsLeaf(server: seq<RawObject>, loaded: seq<RawObject>, id: int, o: RawObject)
    requires FoundLeaf(server, GraphOf(loaded), id, o) && forall r | r in loaded :: r in server
    ensures LeafRow(server, id, o)
  {
    hide EdgesIn;
    RowEdges(loaded, server);
    ReachMonotone(EdgesIn(loaded), EdgesIn(server), id, o.id);
  }

  /** Some resolved leaf shows the object of the row. */
  ghost predicate HasLeaf(leaves: seq<AddrObject>, networks: seq<NetworkRow>, o: RawObject) {
    exists x :: x in leaves && Shows(o, networks, x)
  }

  /** The leaves of an object: the kept non-group objects that the loaded edges reach. */
  lemma LeavesMatchLoaded(
    server: seq<RawObject>, loaded: seq<RawObject>, networks: seq<NetworkRow>, id: int, o: RawObject)
    requires Expanded(server, loaded) && o in server && Resolve(IndexOf(loaded, networks), id, 0).Ok?
    ensures HasLeaf(Resolve(IndexOf(loaded, networks), id, 0).value, networks, o) <==>
      FoundLeaf(server, GraphOf(loaded), id, o) && !Dropped(o, networks)
  {
    hide Expanded, IndexOf, Resolve, LeafBelow, Shows, FoundLeaf, WellIndexed;
    var g := IndexOf(loaded, networks);
    IndexWell(loaded, networks);
    forall x ensures x in Resolve(g, id, 0).value <==> LeafBelow(g, id, x) { ResolveLeavesExact(g, id, 0, x); }
    LeafBelowShown(server, loaded, networks, id, o);
  }

  /** Every kept non-group object that the server lists below `id` is among the leaves. */
  ghost predicate LeavesComplete(
    server: seq<RawObject>, networks: seq<NetworkRow>, id: int, leaves: seq<AddrObject>)
  {
    forall o | LeafRow(server, id, o) && !Dropped(o, networks) :: HasLeaf(leaves, networks, o)
  }

  /** Whatever lies below an edge of the server that is not shown is still reached along shown edges. */
  ghost predicate LostEdgesHarmless(server: seq<RawObject>, shown: Graph, networks: seq<NetworkRow>, id: int) {
    forall e, o |
      e in EdgesIn(server) && e !in shown.edges && Reach(shown.edges, id, e.0)
      && LeafRow(server, e.1, o) && !Dropped(o, networks) ::
      Reach(shown.edges, id, o.id)
  }

  /** A leaf is reached along loaded edges, or some lost edge on the way is first. */
  lemma {:induction false} FirstLost(e: set<(int, int)>, f: set<(int, int)>, p: seq<int>) returns (lost: (int, int))
    requires IsWalk(f, p) && e <= f && !Reach(e, p[0], p[|p| - 1])
    ensures lost in f && lost !in e && Reach(e, p[0], lost.0) && Reach(f, lost.1, p[|p| - 1])
    decreases |p|
  {
    ReachSelf(e, p[0]);
    var rest := p[1..];
    assert IsWalk(f, rest);
    if (p[0], p[1]) in e {
      EdgeReach(e, p[0], p[1]);
      if Reach(e, p[1], p[|p| - 1]) { ReachTransitive(e, p[0], p[1], p[|p| - 1]); }
      lost := FirstLost(e, f, rest);
      ReachTransitive(e, p[0], p[1], lost.0);
    } else {
      lost := (p[0], p[1]);
      assert Joins(f, rest, p[1], p[|p| - 1]);
    }
  }

  lemma LeavesMatchEdges(server: seq<RawObject>, loaded: seq<RawObject>, networks: seq<NetworkRow>, id: int)
    requires Expanded(server, loaded) && Resolve(IndexOf(loaded, networks), id, 0).Ok?
    ensures var leaves := Resolve(IndexOf(loaded, networks), id, 0).value;
      && (forall o | o in server && HasLeaf(leaves, networks, o) :: LeafRow(server, id, o))
      && (LeavesComplete(server, networks, id, leaves) <==> LostEdgesHarmless(server, GraphOf(loaded), networks, id))
  {
    hide IndexOf, Resolve, EdgesIn, HasLeaf, OneObjectPerId, Shallow, Dropped;
    var g, leaves := IndexOf(loaded, networks), Resolve(IndexOf(loaded, networks), id, 0).value;
    IndexWell(loaded, networks);
    RowEdges(loaded, server);
    var e, f := EdgesIn(loaded), EdgesIn(server);
    forall o | o in server
      ensures HasLeaf(leaves, networks, o) <==> FoundLeaf(server, GraphOf(loaded), id, o) && !Dropped(o, networks)
    {
      LeavesMatchLoaded(server, loaded, networks, id, o);
    }
    forall o | o in server && HasLeaf(leaves, networks, o) ensures LeafRow(server, id, o) {
      FoundIsLeaf(server, loaded, id, o);
    }
    ResolvedIsLoaded(server, loaded, networks, id);
    if LeavesComplete(server, networks, id, leaves) {
      forall x, o | x in f && x !in e && Reach(e, id, x.0) && LeafRow(server, x.1, o) && !Dropped(o, networks)
        ensures Reach(e, id, o.id)
      {
        ReachMonotone(e, f, id, x.0);
        assert x == (x.0, x.1);
        ReachStep(f, id, x.0, x.1);
        ReachTransitive(f, id, x.1, o.id);
        assert LeafRow(server, id, o);
      }
    }
    if LostEdgesHarmless(server, GraphOf(loaded), networks, id) {
      forall o | LeafRow(server, id, o) && !Dropped(o, networks) ensures HasLeaf(leaves, networks, o) {
        BelowLoaded(server, loaded, id, o.id);
        if !Reach(e, id, o.id) {
          var p :| Joins(f, p, id, o.id);
          var lost := FirstLost(e, f, p);
        }
      }
    }
  }

  /** These rows are what the gateway loads for these ids. */
  ghost predicate LoadedFor(server: seq<RawObject>, ids: Option<seq<int>>, loaded: seq<RawObject>) {
    OneObjectPerId(server) && GroupsKeyed(server) && Load(server, ids) == Ok(loaded)
  }

  lemma LoadedForShows(server: seq<RawObject>, ids: Option<seq<int>>, loaded: seq<RawObject>)
    requires LoadedFor(server, ids, loaded)
    ensures Expanded(server, loaded) && GraphOf(loaded) == Surviving(server, ids)
  {
    hide Load, Expanded;
    LoadIsExpanded(server, ids);
    LoadShowsSurviving(server, ids, loaded);
  }

  /**
   * The leaves equal the server's exactly when no lost edge hides a leaf; which edges are lost is told from the
   * server's rows and the requested ids.
   */
  lemma LeavesMatchServer(
    server: seq<RawObject>, ids: Option<seq<int>>, loaded: seq<RawObject>, networks: seq<NetworkRow>, id: int)
    requires LoadedFor(server, ids, loaded) && Resolve(IndexOf(loaded, networks), id, 0).Ok?
    ensures var leaves := Resolve(IndexOf(loaded, networks), id, 0).value;
      && (forall o | o in server && HasLeaf(leaves, networks, o) :: LeafRow(server, id, o))
      && (LeavesComplete(server, networks, id, leaves) <==>
          LostEdgesHarmless(server, Surviving(server, ids), networks, id))
  {
    hide LoadedFor, Expanded, IndexOf, Resolve, LostEdgesHarmless, LeavesComplete, LeafRow, HasLeaf;
    LoadedForShows(server, ids, loaded);
    LeavesMatchEdges(server, loaded, networks, id);
  }

  lemma BelowLoaded(server: seq<RawObject>, loaded: seq<RawObject>, a: int, b: int)
    requires ClosedRows(server, loaded) && a in IdsOf(loaded) && Reach(EdgesIn(server), a, b)
    ensures b in IdsOf(loaded)
  {
    ReachInClosed(EdgesIn(server), IdsOf(loaded), a, b);
  }

  lemma ResolvedIsLoaded(server: seq<RawObject>, loaded: seq<RawObject>, networks: seq<NetworkRow>, id: int)
    requires Expanded(server, loaded) && Resolve(IndexOf(loaded, networks), id, 0).Ok?
    ensures id in IdsOf(loaded)
  {
    hide Expanded, IndexOf;
    var o := IndexedId(server, loaded, networks, id);
  }

  /** With one row per id on the server, the loaded edges reach all the server's edges reach from a loaded object. */
  lemma SingleRowsReach(server: seq<RawObject>, loaded: seq<RawObject>, a: int, b: int)
    requires Expanded(server, loaded) && OneRowPerId(server) && a in IdsOf(loaded)
    requires Reach(EdgesIn(server), a, b)
    ensures b in IdsOf(loaded) && Reach(EdgesIn(loaded), a, b)
  {
    hide EdgesIn, OneObjectPerId, Shallow, OneRowPerId, IdsOf, GroupsKeyed;
    RowEdges(loaded, server);
    BelowLoaded(server, loaded, a, b);
    if !Reach(EdgesIn(loaded), a, b) {
      var p :| Joins(EdgesIn(server), p, a, b);
      var lost := FirstLost(EdgesIn(loaded), EdgesIn(server), p);
      ReachMonotone(EdgesIn(loaded), EdgesIn(server), a, lost.0);
      BelowLoaded(server, loaded, a, lost.0);
      SingleRowsKeepEdges(server, loaded, lost);
    }
  }

  /** Some other kept object is listed under group `b` in a loaded row. */
  ghost predicate HasUsableMember(loaded: seq<RawObject>, networks: seq<NetworkRow>, b: int) {
    exists c :: c != b && (b, c) in EdgesIn(loaded) && Kept(loaded, networks, c)
  }

  /** An object resolves exactly when it was loaded and kept and every group below it keeps some member. */
  lemma ResolvesIffUsable(server: seq<RawObject>, loaded: seq<RawObject>, networks: seq<NetworkRow>, id: int)
    requires Expanded(server, loaded)
    ensures Resolve(IndexOf(loaded, networks), id, 0).Ok? <==>
      Kept(loaded, networks, id) &&
      forall b | Reach(EdgesIn(loaded), id, b) && b in GroupsIn(loaded) :: HasUsableMember(loaded, networks, b)
  {
    hide Expanded, Edges, EdgesIn, GroupsIn, HasUsableMember, HasOtherChild, GroupChain, IndexOf, Kept, WellIndexed;
    var g := IndexOf(loaded, networks);
    IndexWell(loaded, networks);
    NestingNeverExceeded(server, loaded, networks, id);
    ResolveSucceeds(g, id, 0);
    KeptIffIndexed(server, loaded, networks, id);
    forall b
      ensures Reach(Edges(g), id, b) && IsGroup(g, b) <==> Reach(EdgesIn(loaded), id, b) && b in GroupsIn(loaded)
    {
      GroupBelowAgrees(server, loaded, networks, id, b);
    }
    forall b ensures HasOtherChild(g, b) <==> HasUsableMember(loaded, networks, b) {
      UsableMemberAgrees(server, loaded, networks, b);
    }
  }

  lemma IndexWell(loaded: seq<RawObject>, networks: seq<NetworkRow>)
    ensures WellIndexed(IndexOf(loaded, networks))
  {
    BuildIndexWell(Converted(loaded, networks));
  }

  lemma KeptIffIndexed(server: seq<RawObject>, loaded: seq<RawObject>, networks: seq<NetworkRow>, id: int)
    requires Expanded(server, loaded)
    ensures id in IndexOf(loaded, networks).byId <==> Kept(loaded, networks, id)
    ensures IsGroup(IndexOf(loaded, networks), id) <==> id in GroupsIn(loaded)
  {
    hide IndexOf, ClosedRows, Shallow, OneObjectPerId, GroupsKeyed;
    if id in IndexOf(loaded, networks).byId {
      var r := IndexedId(server, loaded, networks, id);
      assert Kept(loaded, networks, id);
    }
    forall o | o in loaded && o.id == id
      ensures !Dropped(o, networks) ==> id in IndexOf(loaded, networks).byId
      ensures o.data.RawGroup? ==> IsGroup(IndexOf(loaded, networks), id)
    {
      IndexedRow(server, loaded, networks, o);
    }
  }

  lemma GroupBelowAgrees(server: seq<RawObject>, loaded: seq<RawObject>, networks: seq<NetworkRow>, id: int, b: int)
    requires Expanded(server, loaded)
    ensures Reach(Edges(IndexOf(loaded, networks)), id, b) && IsGroup(IndexOf(loaded, networks), b) <==>
      Reach(EdgesIn(loaded), id, b) && b in GroupsIn(loaded)
  {
    hide Expanded, Edges, EdgesIn, IndexOf;
    KeptIffIndexed(server, loaded, networks, b);
    if b in GroupsIn(loaded) {
      ReachAgrees(server, loaded, networks, id, b);
    }
  }

  lemma UsableMemberAgrees(server: seq<RawObject>, loaded: seq<RawObject>, networks: seq<NetworkRow>, b: int)
    requires Expanded(server, loaded)
    ensures HasOtherChild(IndexOf(loaded, networks), b) <==> HasUsableMember(loaded, networks, b)
  {
    hide Expanded, Edges, EdgesIn, IndexOf, Kept;
    forall c ensures (b, c) in Edges(IndexOf(loaded, networks)) <==>
      b != c && (b, c) in EdgesIn(loaded) && Kept(loaded, networks, c)
    {
      LoadedEdge(server, loaded, networks, b, c);
    }
  }

  /** A group that loses its only extra member: unequal on the server, equal once loaded. */
  lemma DroppedNetworkShrinksGroup()
    ensures var server := [RawObject(1, [], "g", RawGroup(1)), RawObject(2, [1], "h", RawHost(7)),
                           RawObject(3, [1], "n", RawNetwork("net"))];
      var networks := [NetworkRow("net", None)];
      && LeafRow(server, 1, server[2]) && Dropped(server[2], networks)
      && Converted(server, networks) == [AddrObject(1, [], "g", Group(Some(1))), AddrObject(2, [1], "h", Host(7))]
  {
    var server := [
      RawObject(1, [], "g", RawGroup(1)), RawObject(2, [1], "h", RawHost(7)),
      RawObject(3, [1], "n", RawNetwork("net"))];
    var networks := [NetworkRow("net", None)];
    assert server[0].id in GroupsIn(server);
    EdgeFrom(server, 1, server[2]);
    EdgeReach(EdgesIn(server), 1, 3);
    assert networks[..0] == [];
    assert server[..2][..1] == server[..1] && server[..1][..0] == [];
    assert Converted(server[..1], networks) == [AddrObject(1, [], "g", Group(Some(1)))];
    assert Converted(server[..2], networks) ==
      [AddrObject(1, [], "g", Group(Some(1)))] + [AddrObject(2, [1], "h", Host(7))];
  }
}
