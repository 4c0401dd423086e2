/** An EXACT verdict for a draft that reaches more than the matched rule: a network of its group has no net. */
module MisleadingMatch {
  import opened CatalogModels
  import opened Collections
  import opened Graphs
  import opened ParentQueries
  import opened CatalogLoading
  import opened AddressGroups
  import opened CatalogConversion
  import opened RuleValues
  import opened Rules
  import opened Coverage
  import opened ExactSignature
  import opened Comparer
  import opened PolicyCatalog
  import opened ServerMeaning

  const GROUP := RawObject(1, [], "g", RawGroup(1))
  const HOST := RawObject(2, [1], "h", RawHost(7))
  const NETWORK := RawObject(3, [1], "n", RawNetwork("net"))
  const SERVER := [GROUP, HOST, NETWORK]
  const NETWORKS := [NetworkRow("net", None)]
  const GROUP_OBJECT := AddrObject(1, [], "g", Group(Some(1)))
  const HOST_OBJECT := AddrObject(2, [1], "h", Host(7))

  function Listing(operand: int): RuleBody { RuleBody(Accept, [], [], [operand], [], []) }

  const LISTED := LoadedAs([], [], SERVER, NETWORKS)

  // ----- the catalog that is loaded for the draft and the rule

  lemma LoadsAll()
    ensures Load(SERVER, Some([1, 2])) == Ok(SERVER)
  {
    hide FilterIds, PutRows, GroupIds, ByParents, Fetched, MergeById;
    Requested();
    assert GetAddrObjects(SERVER, Some([1, 2]), None) == [GROUP, HOST];
    Batches(GROUP, HOST);
    PutTwo(GROUP, HOST);
    Children();
    assert Distinct([1]) == [1] by { assert [1][..0] == []; }
    OneChunk(SERVER, [1]);
    MergeDistinct();
    assert GetAddrObjects(SERVER, None, Some([1])) == [HOST, NETWORK];
    SecondBatch();
    Batches(HOST, NETWORK);
    assert ExpandFrom(SERVER, SERVER, [], 2) == Ok(SERVER);
    assert ExpandFrom(SERVER, [GROUP, HOST], [1], 1) == Ok(SERVER);
    assert GroupIds([GROUP, HOST]) == [1];
    assert LoadExpanded(SERVER, Some([1, 2])) == Ok(SERVER);
    var ids: seq<int> := [1, 2];
    assert ids != [] && Some(ids) != Some([]);
  }

  lemma Requested()
    ensures FilterIds(SERVER, [1, 2]) == [GROUP, HOST]
  {
    assert SERVER[1..] == [HOST, NETWORK] && [HOST, NETWORK][1..] == [NETWORK] && [NETWORK][1..] == [];
    assert FilterIds([NETWORK], [1, 2]) == [];
    assert FilterIds([HOST, NETWORK], [1, 2]) == [HOST];
  }

  lemma Children()
    ensures ByParents(SERVER, [1]) == [HOST, NETWORK]
  {
    assert 1 in HOST.parents && 1 in NETWORK.parents && 1 in [1];
    assert SERVER[1..] == [HOST, NETWORK] && [HOST, NETWORK][1..] == [NETWORK] && [NETWORK][1..] == [];
    assert ByParents([NETWORK], [1]) == [NETWORK];
    assert ByParents([HOST, NETWORK], [1]) == [HOST, NETWORK];
  }

  lemma MergeDistinct()
    ensures MergeById([HOST, NETWORK]) == [HOST, NETWORK]
  {
    assert [HOST, NETWORK][..1] == [HOST] && [HOST][..0] == [];
    assert MergeById([HOST]) == [HOST];
    assert [HOST][1..] == [] && PutById([HOST], NETWORK) == [HOST] + PutById([], NETWORK);
  }

  lemma SecondBatch()
    ensures PutRows([GROUP, HOST], [HOST, NETWORK]) == SERVER
  {
    assert [HOST, NETWORK][..1] == [HOST] && [HOST][..0] == [];
    assert [GROUP, HOST][1..] == [HOST] && [HOST][1..] == [];
    assert PutRow([GROUP, HOST], HOST) == [GROUP] + PutRow([HOST], HOST);
    assert PutRows([GROUP, HOST], [HOST]) == [GROUP, HOST];
    assert PutRow([HOST], NETWORK) == [HOST] + PutRow([], NETWORK);
    assert PutRow([GROUP, HOST], NETWORK) == [GROUP] + PutRow([HOST], NETWORK);
  }

  // ----- both operands resolve to the host

  lemma Objects()
    ensures Converted(SERVER, NETWORKS) == [GROUP_OBJECT, HOST_OBJECT] && CatalogChecked(LISTED)
  {
    DroppedNetworkShrinksGroup();
  }

  lemma Index()
    ensures var g := IndexOf(SERVER, NETWORKS);
      && g.byId == map[1 := GROUP_OBJECT, 2 := HOST_OBJECT]
      && ChildrenOf(g, 1) == [HOST_OBJECT]
  {
    Objects();
    var objs := [GROUP_OBJECT, HOST_OBJECT];
    assert objs[..1] == [GROUP_OBJECT] && [GROUP_OBJECT][..0] == [];
    assert ById(ObjectId, [GROUP_OBJECT]) == map[1 := GROUP_OBJECT];
    assert ListedUnder([GROUP_OBJECT], 1) == [];
    assert ListedUnder(objs, 1) == Copies(HOST_OBJECT, 1);
    assert HOST_OBJECT in objs && 1 in HOST_OBJECT.parents;
    assert 1 in AllParents(objs);
  }

  lemma SameLeaves()
    ensures var g := IndexOf(SERVER, NETWORKS);
      Resolve(g, 1, 0) == Ok([HOST_OBJECT]) && Resolve(g, 2, 0) == Ok([HOST_OBJECT])
  {
    hide IndexOf;
    Index();
    var g := IndexOf(SERVER, NETWORKS);
    assert Members(g, 1) == [HOST_OBJECT] && [HOST_OBJECT][1..] == [];
    assert ResolveAll(g, 1, [], 1) == Ok([]);
    assert Resolve(g, 2, 1) == Ok([HOST_OBJECT]) && [HOST_OBJECT] + [] == [HOST_OBJECT];
    assert ResolveAll(g, 1, [HOST_OBJECT], 1) == Ok([HOST_OBJECT]);
  }

  lemma SameValues(prim: Primitives, g: GroupIndex, operand: int)
    requires IndexChecked(g) && Resolve(g, operand, 0) == Ok([HOST_OBJECT])
    ensures AddressValues(prim, g, [operand]) == LeafValues(prim, [HOST_OBJECT])
    ensures LeafValues(prim, [HOST_OBJECT]).Ok?
  {
    assert [operand][..0] == [] && [HOST_OBJECT][..0] == [];
    LeavesChecked(g, operand);
    assert LeafValues(prim, []) == Ok([]) && LeafValue(prim, HOST_OBJECT) == Ok(Span(7, 7));
    var values := LeafValues(prim, [HOST_OBJECT]);
    assert values.Ok? && [] + values.value == values.value;
  }

  lemma SameResolution(prim: Primitives)
    requires CatalogChecked(LISTED)
    ensures ResolveIn(prim, LISTED, Listing(1)) == ResolveIn(prim, LISTED, Listing(2))
    ensures ResolveIn(prim, LISTED, Listing(2)).Ok?
  {
    hide IndexChecked, DistinctValues, LeafValues, CatalogChecked;
    LookupOfChecked(LISTED);
    SameLeaves();
    SameValues(prim, IndexOf(SERVER, NETWORKS), 1);
    SameValues(prim, IndexOf(SERVER, NETWORKS), 2);
  }

  // ----- the traffic differs

  lemma HostHasNoMembers(o: RawObject)
    requires BelowAny(SERVER, [2], o)
    ensures o == HOST
  {
    var id :| id in [2] && LeafRow(SERVER, id, o);
    if o.id != 2 {
      var c := ReachFirst(EdgesIn(SERVER), 2, o.id);
      var r := EdgeRow(SERVER, (2, c));
    }
  }

  lemma NetworkBelowGroup()
    ensures DroppedBelow(SERVER, NETWORKS, [1], "net") && !DroppedBelow(SERVER, NETWORKS, [2], "net")
  {
    assert SERVER[0] in SERVER && SERVER[2] in SERVER;
    assert GROUP.id in GroupsIn(SERVER);
    EdgeFrom(SERVER, 1, NETWORK);
    EdgeReach(EdgesIn(SERVER), 1, 3);
    assert 1 in [1] && LeafRow(SERVER, 1, NETWORK);
    assert NETWORKS[..0] == [];
    assert BelowAny(SERVER, [1], NETWORK) && Dropped(NETWORK, NETWORKS);
    forall o | BelowAny(SERVER, [2], o) ensures !Dropped(o, NETWORKS) { HostHasNoMembers(o); }
  }

  lemma ConditionFails(prim: Primitives, shown: Graph)
    ensures !FieldsKept(prim, SERVER, shown, NETWORKS, Listing(1), Listing(2))
  {
    NetworkBelowGroup();
    forall o | BelowAny(SERVER, [2], o) ensures !RowKnown(prim, NETWORKS, o, IpPoint(9)) { HostHasNoMembers(o); }
    assert Ipv4(9) && !KnownOnServer(prim, SERVER, NETWORKS, [2], IpPoint(9));
  }

  /** The loaded catalog gives EXACT, although on the server the draft may match what the rule does not. */
  lemma ExactButWider(prim: Primitives, ruleId: int)
    ensures Load(SERVER, Some([1, 2])) == Ok(SERVER) && CatalogChecked(LISTED)
    ensures Compare(prim, LISTED, [SdwanRule(ruleId, Listing(2))], Listing(1)) == ExactMatch(ruleId)
    ensures !ContainsOnServer(prim, LISTED, SERVER, NETWORKS, Listing(2), Listing(1))
  {
    hide Load, ResolveIn, FieldsKept, ContainsOnServer, LoadedFor, CatalogChecked, RuleWithin;
    LoadsAll();
    ServerIsLoaded();
    Objects();
    SameResolution(prim);
    OnlyRuleIsExact(prim, ruleId);
    var n := ResolveIn(prim, LISTED, Listing(2)).value.normalized;
    CoverageIsPreorder(n, n, n);
    CoveredIsWithin(prim, LISTED, Listing(2), Listing(1));
    RulesKeptExactly(prim, [], [], SERVER, Some([1, 2]), SERVER, NETWORKS, Listing(2), Listing(1));
    ConditionFails(prim, Surviving(SERVER, Some([1, 2])));
  }

  lemma ServerIsLoaded()
    requires Load(SERVER, Some([1, 2])) == Ok(SERVER)
    ensures LoadedFor(SERVER, Some([1, 2]), SERVER)
  {
    hide Load;
  }

  lemma OnlyRuleIsExact(prim: Primitives, ruleId: int)
    requires CatalogChecked(LISTED)
    requires ResolveIn(prim, LISTED, Listing(1)) == ResolveIn(prim, LISTED, Listing(2))
    requires ResolveIn(prim, LISTED, Listing(2)).Ok?
    ensures Compare(prim, LISTED, [SdwanRule(ruleId, Listing(2))], Listing(1)) == ExactMatch(ruleId)
  {
    hide ResolveIn, CatalogChecked, ExactSignatureOf, FirstCover, ResolvedRules, AnalyzeCoverage;
    var entry := OnlyResolved(prim, ruleId);
    assert [entry][..0] == [];
    assert WithSignature(prim, [entry], SignatureOfRule(prim, entry)) == [entry];
  }

  lemma OnlyResolved(prim: Primitives, ruleId: int) returns (entry: ResolvedRule)
    requires CatalogChecked(LISTED) && ResolveIn(prim, LISTED, Listing(2)).Ok?
    ensures ResolvedRules(prim, LISTED, [SdwanRule(ruleId, Listing(2))]) == [entry]
    ensures entry.rule.id == ruleId && entry.values == ResolveIn(prim, LISTED, Listing(2)).value
  {
    hide ResolveIn, CatalogChecked;
    var rule := SdwanRule(ruleId, Listing(2));
    OneMoreRule(prim, LISTED, [], rule);
    assert [] + [rule] == [rule];
    entry := ResolvedRule(rule, ResolveIn(prim, LISTED, Listing(2)).value);
  }
}
