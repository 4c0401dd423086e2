/** What a verdict means for the server's own objects, when loading lost edges or networks have no net. */
module ServerMeaning {
  import opened CatalogModels
  import opened ParentQueries
  import opened CatalogLoading
  import opened AddressGroups
  import opened CatalogConversion
  import opened RuleValues
  import opened Rules
  import opened RuleMeaning
  import opened Coverage
  import opened ExactSignature
  import opened Comparer
  import opened PolicyCatalog

  // ----- one address list on the server; `hidden` gives the nets the server does not report

  ghost predicate NetsChecked(hidden: string -> Net) {
    forall network :: NetChecked(hidden(network))
  }

  predicate InNet(n: Net, p: Point) {
    NetChecked(n) && p.IpPoint? && n.base <= p.address < n.base + Pow2(32 - n.prefixLen)
  }

  /** The addresses or names that a row of the server stands for; a network stands for the net that counts. */
  ghost predicate RowKnown(prim: Primitives, networks: seq<NetworkRow>, o: RawObject, p: Point) {
    match o.data
    case RawPrefix(n) => InNet(n, p)
    case RawNetwork(nid) => exists n :: NetCounts(networks, nid, n) && InNet(n, p)
    case RawHost(h) => Ipv4(h) && p == IpPoint(h)
    case RawFqdn(d) => p == NamePoint(prim.normDomain(d))
    case RawIpRange(f, t) => Ipv4(f) && Ipv4(t) && p.IpPoint? && f <= p.address <= t
    case RawGroup(_) => false
  }

  /** The same with the hidden net where the server reports none. */
  ghost predicate RowStandsFor(
    prim: Primitives, networks: seq<NetworkRow>, hidden: string -> Net, o: RawObject, p: Point)
  {
    RowKnown(prim, networks, o, p) || (Dropped(o, networks) && InNet(hidden(o.data.networkId), p))
  }

  ghost predicate BelowAny(server: seq<RawObject>, operands: seq<int>, o: RawObject) {
    exists id :: id in operands && LeafRow(server, id, o)
  }

  ghost predicate FoundAny(server: seq<RawObject>, shown: Graph, operands: seq<int>, o: RawObject) {
    exists id :: id in operands && FoundLeaf(server, shown, id, o)
  }

  ghost predicate AddressOnServer(
    prim: Primitives, server: seq<RawObject>, networks: seq<NetworkRow>, hidden: string -> Net,
    operands: seq<int>, p: Point)
  {
    exists o :: BelowAny(server, operands, o) && RowStandsFor(prim, networks, hidden, o, p)
  }

  /** The addresses the server shows below the operands, whatever the hidden nets are. */
  ghost predicate KnownOnServer(
    prim: Primitives, server: seq<RawObject>, networks: seq<NetworkRow>, operands: seq<int>, p: Point)
  {
    exists o :: BelowAny(server, operands, o) && RowKnown(prim, networks, o, p)
  }

  /** A network without a net lies below the operands. */
  ghost predicate DroppedBelow(
    server: seq<RawObject>, networks: seq<NetworkRow>, operands: seq<int>, network: string)
  {
    exists o :: BelowAny(server, operands, o) && Dropped(o, networks) && o.data.networkId == network
  }

  /** An object below the operands that the shown edges do not reach. */
  ghost predicate LostBelow(
    server: seq<RawObject>, shown: Graph, networks: seq<NetworkRow>, operands: seq<int>, o: RawObject)
  {
    BelowAny(server, operands, o) && !Dropped(o, networks) && !FoundAny(server, shown, operands, o)
  }

  /** A catalog object stands for what its row stands for. */
  lemma ShowsStands(prim: Primitives, o: RawObject, networks: seq<NetworkRow>, x: AddrObject, p: Point)
    requires Shows(o, networks, x)
    ensures StandsFor(prim, x, p) <==> RowKnown(prim, networks, o, p)
  {
    if o.data.RawNetwork? { CountsOne(networks, o.data.networkId); }
  }

  lemma CountsOne(networks: seq<NetworkRow>, id: string)
    ensures forall m, n :: NetCounts(networks, id, m) && NetCounts(networks, id, n) ==> m == n
  {
    NetOfCounts(networks, id);
  }

  lemma KnownIsKept(prim: Primitives, o: RawObject, networks: seq<NetworkRow>, p: Point)
    requires RowKnown(prim, networks, o, p)
    ensures !Dropped(o, networks)
  {
    if o.data.RawNetwork? { NetOfCounts(networks, o.data.networkId); }
  }

  lemma IndexLists(prim: Primitives, loaded: seq<RawObject>, networks: seq<NetworkRow>, operands: seq<int>, p: Point)
    ensures AddressIndexed(prim, IndexOf(loaded, networks), operands, p) <==>
      AddressListed(prim, Converted(loaded, networks), operands, p)
  {
    hide Converted;
    IndexedIsListed(prim, Converted(loaded, networks), operands, p);
  }

  /** Loaded operands stand for exactly the kept objects that the loaded edges reach. */
  lemma ListedIsFound(
    prim: Primitives, server: seq<RawObject>, loaded: seq<RawObject>, networks: seq<NetworkRow>,
    operands: seq<int>, p: Point)
    requires Expanded(server, loaded)
    ensures AddressListed(prim, Converted(loaded, networks), operands, p) <==>
      exists o :: FoundAny(server, GraphOf(loaded), operands, o) && RowKnown(prim, networks, o, p)
  {
    hide Expanded, IndexOf, LeafBelow, StandsFor, Shows, FoundLeaf, RowKnown, AddressListed, Converted;
    var g := IndexOf(loaded, networks);
    IndexLists(prim, loaded, networks, operands, p);
    if AddressIndexed(prim, g, operands, p) {
      var id, x :| id in operands && LeafBelow(g, id, x) && StandsFor(prim, x, p);
      var o := LeafHasRow(server, loaded, networks, id, x);
      ShowsStands(prim, o, networks, x, p);
      assert FoundAny(server, GraphOf(loaded), operands, o);
    }
    forall o | FoundAny(server, GraphOf(loaded), operands, o) && RowKnown(prim, networks, o, p)
      ensures AddressIndexed(prim, g, operands, p)
    {
      var id :| id in operands && FoundLeaf(server, GraphOf(loaded), id, o);
      FoundIsServerRow(server, loaded, id, o);
      KnownIsKept(prim, o, networks, p);
      LeafBelowShown(server, loaded, networks, id, o);
      var x :| LeafBelow(g, id, x) && Shows(o, networks, x);
      ShowsStands(prim, o, networks, x, p);
    }
  }

  lemma FoundIsServerRow(server: seq<RawObject>, loaded: seq<RawObject>, id: int, o: RawObject)
    requires FoundLeaf(server, GraphOf(loaded), id, o)
    ensures o in server
  {
  }

  lemma FoundIsBelow(server: seq<RawObject>, loaded: seq<RawObject>, operands: seq<int>, o: RawObject)
    requires Expanded(server, loaded) && FoundAny(server, GraphOf(loaded), operands, o)
    ensures BelowAny(server, operands, o)
  {
    hide FoundLeaf, LeafRow;
    var id :| id in operands && FoundLeaf(server, GraphOf(loaded), id, o);
    FoundIsLeaf(server, loaded, id, o);
  }

  /** What the server shows below the operands: the loaded operands and the lost objects. */
  lemma KnownIsListedOrLost(
    prim: Primitives, server: seq<RawObject>, loaded: seq<RawObject>, networks: seq<NetworkRow>,
    operands: seq<int>, p: Point)
    requires Expanded(server, loaded)
    ensures KnownOnServer(prim, server, networks, operands, p) <==>
      || AddressListed(prim, Converted(loaded, networks), operands, p)
      || exists o :: LostBelow(server, GraphOf(loaded), networks, operands, o) && RowKnown(prim, networks, o, p)
  {
    hide Expanded, AddressListed, BelowAny, FoundAny, RowKnown, Dropped;
    ListedIsFound(prim, server, loaded, networks, operands, p);
    forall o | FoundAny(server, GraphOf(loaded), operands, o) ensures BelowAny(server, operands, o) {
      FoundIsBelow(server, loaded, operands, o);
    }
    forall o | BelowAny(server, operands, o) && RowKnown(prim, networks, o, p)
      ensures FoundAny(server, GraphOf(loaded), operands, o)
        || LostBelow(server, GraphOf(loaded), networks, operands, o)
    {
      KnownIsKept(prim, o, networks, p);
    }
  }

  /** A list on the server: what the server shows, and the hidden nets of the dropped networks. */
  lemma OnServerIsKnownOrHidden(
    prim: Primitives, server: seq<RawObject>, networks: seq<NetworkRow>, hidden: string -> Net,
    operands: seq<int>, p: Point)
    ensures AddressOnServer(prim, server, networks, hidden, operands, p) <==>
      || KnownOnServer(prim, server, networks, operands, p)
      || exists network :: DroppedBelow(server, networks, operands, network) && InNet(hidden(network), p)
  {
    hide BelowAny, InNet, RowKnown;
    forall o | BelowAny(server, operands, o) && Dropped(o, networks) && InNet(hidden(o.data.networkId), p)
      ensures exists network :: DroppedBelow(server, networks, operands, network) && InNet(hidden(network), p)
    {
      assert DroppedBelow(server, networks, operands, o.data.networkId);
    }
  }

  // ----- one field of two rules

  ghost predicate ListContained(
    prim: Primitives, loaded: seq<RawObject>, networks: seq<NetworkRow>, inner: seq<int>, outer: seq<int>)
  {
    forall p | AddressListed(prim, Converted(loaded, networks), inner, p) ::
      AddressListed(prim, Converted(loaded, networks), outer, p)
  }

  /** Containment on the server, whatever the hidden nets are. */
  ghost predicate FieldContained(
    prim: Primitives, server: seq<RawObject>, networks: seq<NetworkRow>, inner: seq<int>, outer: seq<int>)
  {
    forall hidden, p | NetsChecked(hidden) && AddressOnServer(prim, server, networks, hidden, inner, p) ::
      AddressOnServer(prim, server, networks, hidden, outer, p)
  }

  /**
   * Each network dropped below the inner list is dropped below the outer list too, unless the outer list shows every
   * IPv4 address, and what was lost below the inner list the outer list shows.
   */
  ghost predicate FieldKept(
    prim: Primitives, server: seq<RawObject>, shown: Graph, networks: seq<NetworkRow>,
    inner: seq<int>, outer: seq<int>)
  {
    && (forall network |
          DroppedBelow(server, networks, inner, network) && !DroppedBelow(server, networks, outer, network) ::
          ShowsAllAddresses(prim, server, networks, outer))
    && (forall o, p | LostBelow(server, shown, networks, inner, o) && RowKnown(prim, networks, o, p) ::
          KnownOnServer(prim, server, networks, outer, p))
  }

  ghost predicate ShowsAllAddresses(
    prim: Primitives, server: seq<RawObject>, networks: seq<NetworkRow>, operands: seq<int>)
  {
    forall address | Ipv4(address) :: KnownOnServer(prim, server, networks, operands, IpPoint(address))
  }

  lemma SingleAddress(a: int, p: Point)
    requires Ipv4(a)
    ensures NetChecked(Net(a, 32)) && (InNet(Net(a, 32), p) <==> p == IpPoint(a))
  {
  }

  /** All nets hidden away from one address. */
  function Elsewhere(a: int): Net { if a == 0 then Net(1, 32) else Net(0, 32) }

  lemma ElsewhereIsNotHere(a: int)
    ensures NetChecked(Elsewhere(a)) && !InNet(Elsewhere(a), IpPoint(a))
  {
    SingleAddress(if a == 0 then 1 else 0, IpPoint(a));
  }

  lemma DroppedMustBeShared(
    prim: Primitives, server: seq<RawObject>, networks: seq<NetworkRow>, inner: seq<int>, outer: seq<int>,
    network: string, address: int)
    requires FieldContained(prim, server, networks, inner, outer) && Ipv4(address)
    requires DroppedBelow(server, networks, inner, network) && !DroppedBelow(server, networks, outer, network)
    ensures KnownOnServer(prim, server, networks, outer, IpPoint(address))
  {
    hide DroppedBelow, KnownOnServer, AddressOnServer, NetChecked, InNet, Elsewhere;
    var p := IpPoint(address);
    var hidden := (n: string) => if n == network then Net(address, 32) else Elsewhere(address);
    SingleAddress(address, p);
    ElsewhereIsNotHere(address);
    assert NetsChecked(hidden);
    OnServerIsKnownOrHidden(prim, server, networks, hidden, inner, p);
    OnServerIsKnownOrHidden(prim, server, networks, hidden, outer, p);
    assert InNet(hidden(network), p);
  }

  lemma LostMustBeShown(
    prim: Primitives, server: seq<RawObject>, loaded: seq<RawObject>, networks: seq<NetworkRow>,
    inner: seq<int>, outer: seq<int>, o: RawObject, p: Point)
    requires Expanded(server, loaded) && FieldContained(prim, server, networks, inner, outer)
    requires LostBelow(server, GraphOf(loaded), networks, inner, o) && RowKnown(prim, networks, o, p)
    ensures KnownOnServer(prim, server, networks, outer, p)
  {
    hide Expanded, DroppedBelow, KnownOnServer, AddressOnServer, NetChecked, Elsewhere, RowKnown;
    var address := if p.IpPoint? then p.address else 0;
    var hidden := (n: string) => Elsewhere(address);
    ElsewhereIsNotHere(address);
    assert NetsChecked(hidden);
    KnownIsListedOrLost(prim, server, loaded, networks, inner, p);
    OnServerIsKnownOrHidden(prim, server, networks, hidden, inner, p);
    OnServerIsKnownOrHidden(prim, server, networks, hidden, outer, p);
    assert AddressOnServer(prim, server, networks, hidden, inner, p);
  }

  lemma InNetIsAddress(n: Net, p: Point)
    requires InNet(n, p)
    ensures p.IpPoint? && Ipv4(p.address)
  {
    BroadcastInSpace(n);
  }

  lemma KeptContains(
    prim: Primitives, server: seq<RawObject>, loaded: seq<RawObject>, networks: seq<NetworkRow>,
    inner: seq<int>, outer: seq<int>, hidden: string -> Net, p: Point)
    requires Expanded(server, loaded) && ListContained(prim, loaded, networks, inner, outer)
    requires FieldKept(prim, server, GraphOf(loaded), networks, inner, outer)
    requires NetsChecked(hidden) && AddressOnServer(prim, server, networks, hidden, inner, p)
    ensures AddressOnServer(prim, server, networks, hidden, outer, p)
  {
    hide Expanded, DroppedBelow, KnownOnServer, AddressOnServer, NetChecked, RowKnown, InNet, LostBelow;
    OnServerIsKnownOrHidden(prim, server, networks, hidden, inner, p);
    OnServerIsKnownOrHidden(prim, server, networks, hidden, outer, p);
    KnownIsListedOrLost(prim, server, loaded, networks, inner, p);
    KnownIsListedOrLost(prim, server, loaded, networks, outer, p);
    if !KnownOnServer(prim, server, networks, inner, p) {
      var network :| DroppedBelow(server, networks, inner, network) && InNet(hidden(network), p);
      InNetIsAddress(hidden(network), p);
      if !DroppedBelow(server, networks, outer, network) {
        assert p == IpPoint(p.address);
      }
    }
  }

  /** Given containment in the catalog, containment on the server holds exactly under the stated condition. */
  lemma FieldKeptForLoaded(
    prim: Primitives, server: seq<RawObject>, loaded: seq<RawObject>, networks: seq<NetworkRow>,
    inner: seq<int>, outer: seq<int>)
    requires Expanded(server, loaded) && ListContained(prim, loaded, networks, inner, outer)
    ensures FieldContained(prim, server, networks, inner, outer) <==>
      FieldKept(prim, server, GraphOf(loaded), networks, inner, outer)
  {
    hide Expanded, ListContained, DroppedBelow, KnownOnServer, AddressOnServer, NetsChecked, RowKnown, LostBelow;
    if FieldContained(prim, server, networks, inner, outer) {
      forall network, address |
        DroppedBelow(server, networks, inner, network) && !DroppedBelow(server, networks, outer, network) &&
          Ipv4(address)
        ensures KnownOnServer(prim, server, networks, outer, IpPoint(address))
      {
        DroppedMustBeShared(prim, server, networks, inner, outer, network, address);
      }
      forall o, p | LostBelow(server, GraphOf(loaded), networks, inner, o) && RowKnown(prim, networks, o, p)
        ensures KnownOnServer(prim, server, networks, outer, p)
      {
        LostMustBeShown(prim, server, loaded, networks, inner, outer, o, p);
      }
    }
    if FieldKept(prim, server, GraphOf(loaded), networks, inner, outer) {
      forall hidden, p | NetsChecked(hidden) && AddressOnServer(prim, server, networks, hidden, inner, p)
        ensures AddressOnServer(prim, server, networks, hidden, outer, p)
      {
        KeptContains(prim, server, loaded, networks, inner, outer, hidden, p);
      }
    }
  }

  /** The same with the condition told from the server's rows and the requested ids. */
  lemma FieldKeptExactly(
    prim: Primitives, server: seq<RawObject>, ids: Option<seq<int>>, loaded: seq<RawObject>,
    networks: seq<NetworkRow>, inner: seq<int>, outer: seq<int>)
    requires LoadedFor(server, ids, loaded) && ListContained(prim, loaded, networks, inner, outer)
    ensures FieldContained(prim, server, networks, inner, outer) <==>
      FieldKept(prim, server, Surviving(server, ids), networks, inner, outer)
  {
    hide LoadedFor, Expanded, ListContained, FieldContained, FieldKept;
    LoadedForShows(server, ids, loaded);
    FieldKeptForLoaded(prim, server, loaded, networks, inner, outer);
  }

  /** With one row per id, nothing is lost below loaded operands. */
  lemma NothingLost(
    server: seq<RawObject>, ids: Option<seq<int>>, loaded: seq<RawObject>, networks: seq<NetworkRow>,
    operands: seq<int>, o: RawObject)
    requires LoadedFor(server, ids, loaded) && OneRowPerId(server)
    requires forall id | id in operands :: id in Surviving(server, ids).nodes
    ensures !LostBelow(server, Surviving(server, ids), networks, operands, o)
  {
    hide LoadedFor, Expanded, EdgesIn, OneRowPerId, Dropped, IdsOf;
    LoadedForShows(server, ids, loaded);
    if LostBelow(server, GraphOf(loaded), networks, operands, o) {
      var id :| id in operands && LeafRow(server, id, o);
      SingleRowsReach(server, loaded, id, o.id);
    }
  }

  // ----- rules and verdicts on the server

  /** The tuples a rule matches, with addresses read off the server's own group graph. */
  ghost predicate RuleMatchesOnServer(
    prim: Primitives, c: Catalog, server: seq<RawObject>, networks: seq<NetworkRow>, hidden: string -> Net,
    emptyIsAny: bool, r: RuleBody, t: Traffic)
  {
    && ((emptyIsAny && r.srcZones == []) || ZoneListed(prim, c, r.srcZones, t.srcZone))
    && ((emptyIsAny && r.dstZones == []) || ZoneListed(prim, c, r.dstZones, t.dstZone))
    && ((emptyIsAny && r.srcAddrs == []) || AddressOnServer(prim, server, networks, hidden, r.srcAddrs, t.src))
    && ((emptyIsAny && r.dstAddrs == []) || AddressOnServer(prim, server, networks, hidden, r.dstAddrs, t.dst))
    && ((emptyIsAny && r.services == []) || ServiceListed(prim, c, r.services, t.service))
  }

  /** The first rule matches on the server whatever the second one matches, for all hidden nets. */
  ghost predicate ContainsOnServer(
    prim: Primitives, c: Catalog, server: seq<RawObject>, networks: seq<NetworkRow>, rule: RuleBody, draft: RuleBody)
  {
    forall hidden, emptyIsAny, t |
      NetsChecked(hidden) && RuleMatchesOnServer(prim, c, server, networks, hidden, emptyIsAny, draft, t) ::
      RuleMatchesOnServer(prim, c, server, networks, hidden, emptyIsAny, rule, t)
  }

  /** The exact condition, field by field. */
  ghost predicate FieldsKept(
    prim: Primitives, server: seq<RawObject>, shown: Graph, networks: seq<NetworkRow>, draft: RuleBody, rule: RuleBody)
  {
    && FieldKept(prim, server, shown, networks, draft.srcAddrs, rule.srcAddrs)
    && FieldKept(prim, server, shown, networks, draft.dstAddrs, rule.dstAddrs)
  }

  /** One list is contained in the other, both are empty together, and a non-empty list matches something. */
  ghost predicate AddressesWithin(prim: Primitives, objs: seq<AddrObject>, inner: seq<int>, outer: seq<int>) {
    && (inner == [] <==> outer == [])
    && (forall p | AddressListed(prim, objs, inner, p) :: AddressListed(prim, objs, outer, p))
    && (inner != [] ==> exists p :: AddressListed(prim, objs, inner, p))
  }

  ghost predicate ServicesWithin(prim: Primitives, c: Catalog, inner: seq<int>, outer: seq<int>) {
    && (inner == [] <==> outer == [])
    && (forall p | ServiceListed(prim, c, inner, p) :: ServiceListed(prim, c, outer, p))
    && (inner != [] ==> exists p :: ServiceListed(prim, c, inner, p))
  }

  ghost predicate ZonesWithin(prim: Primitives, c: Catalog, inner: seq<int>, outer: seq<int>) {
    && (inner == [] <==> outer == [])
    && (forall n | ZoneListed(prim, c, inner, n) :: ZoneListed(prim, c, outer, n))
    && (inner != [] ==> exists n :: ZoneListed(prim, c, inner, n))
  }

  lemma ValidMatchesSome(v: Value) returns (p: Point)
    requires Valid(v)
    ensures Matches(v, p)
  {
    match v
    case Span(s, e) => p := IpPoint(s);
    case Domain(d) => p := NamePoint(d);
    case AnyService => p := IpIpPoint;
    case Ports(tcp, s, e) => p := if tcp then TcpPoint(s) else UdpPoint(s);
    case IcmpCodes(codes) => var code :| code in codes; p := IcmpPoint(code);
    case IpIpService => p := IpIpPoint;
  }

  lemma SomeMatches(values: seq<Resolved>) returns (p: Point)
    requires AllValid(values) && values != []
    ensures AnyMatches(values, p)
  {
    assert values[0] in values;
    p := ValidMatchesSome(values[0].value);
  }

  lemma AddressesCovered(prim: Primitives, objs: seq<AddrObject>, inner: seq<int>, outer: seq<int>)
    requires IndexChecked(BuildIndex(objs))
    requires AddressValues(prim, BuildIndex(objs), inner).Ok? && AddressValues(prim, BuildIndex(objs), outer).Ok?
    requires CoveredBySingles(
      ValueSet(DistinctValues(AddressValues(prim, BuildIndex(objs), outer).value)),
      ValueSet(DistinctValues(AddressValues(prim, BuildIndex(objs), inner).value)))
    ensures AddressesWithin(prim, objs, inner, outer)
  {
    hide IndexChecked, AddressListed, AddressIndexed, DistinctValues, ValueSet, AnyMatches, AllValid, SetMatches,
      CoveredBySingles, AddressValues, BuildIndex;
    var g := BuildIndex(objs);
    var a, b := AddressValues(prim, g, inner).value, AddressValues(prim, g, outer).value;
    forall p
      ensures AnyMatches(a, p) <==> AddressListed(prim, objs, inner, p)
      ensures AnyMatches(b, p) <==> AddressListed(prim, objs, outer, p)
      ensures AnyMatches(a, p) ==> AnyMatches(b, p)
    {
      AddressValuesMeaning(prim, g, inner, p);
      AddressValuesMeaning(prim, g, outer, p);
      IndexedIsListed(prim, objs, inner, p);
      IndexedIsListed(prim, objs, outer, p);
      CoveredMatches(b, a, p);
    }
    AddressValuesMeaning(prim, g, inner, IpIpPoint);
    AddressValuesMeaning(prim, g, outer, IpIpPoint);
    EmptyTogether(a, b);
    if inner != [] { var p := SomeMatches(a); assert AddressListed(prim, objs, inner, p); }
  }

  lemma EmptyTogether(planned: seq<Resolved>, existing: seq<Resolved>)
    requires CoveredBySingles(ValueSet(DistinctValues(existing)), ValueSet(DistinctValues(planned)))
    ensures planned == [] <==> existing == []
  {
    hide ValueSet, DistinctValues;
    DistinctMatches(existing, IpIpPoint);
    DistinctMatches(planned, IpIpPoint);
  }

  lemma CoveredMatches(existing: seq<Resolved>, planned: seq<Resolved>, p: Point)
    requires CoveredBySingles(ValueSet(DistinctValues(existing)), ValueSet(DistinctValues(planned)))
    ensures AnyMatches(planned, p) ==> AnyMatches(existing, p)
  {
    hide CoveredBySingles, ValueSet, DistinctValues, AnyMatches, SetMatches;
    DistinctMatches(existing, p);
    DistinctMatches(planned, p);
    if AnyMatches(planned, p) {
      SinglesInclude(ValueSet(DistinctValues(existing)), ValueSet(DistinctValues(planned)), p);
    }
  }

  lemma ServicesCovered(prim: Primitives, c: Catalog, inner: seq<int>, outer: seq<int>)
    requires CatalogChecked(c)
    requires AllServiceValues(prim, ServicesById(c.services), inner).Ok?
    requires AllServiceValues(prim, ServicesById(c.services), outer).Ok?
    requires CoveredBySingles(
      ValueSet(DistinctValues(AllServiceValues(prim, ServicesById(c.services), outer).value)),
      ValueSet(DistinctValues(AllServiceValues(prim, ServicesById(c.services), inner).value)))
    ensures ServicesWithin(prim, c, inner, outer)
  {
    hide CatalogChecked, ServiceListed, DistinctValues, ValueSet, AnyMatches, AllValid, SetMatches, AllServiceValues,
      CoveredBySingles;
    var a := AllServiceValues(prim, ServicesById(c.services), inner).value;
    var b := AllServiceValues(prim, ServicesById(c.services), outer).value;
    forall p
      ensures AnyMatches(a, p) <==> ServiceListed(prim, c, inner, p)
      ensures AnyMatches(b, p) <==> ServiceListed(prim, c, outer, p)
      ensures AnyMatches(a, p) ==> AnyMatches(b, p)
    {
      AllServiceValuesMeaning(prim, c, inner, p);
      AllServiceValuesMeaning(prim, c, outer, p);
      CoveredMatches(b, a, p);
    }
    AllServiceValuesMeaning(prim, c, inner, IpIpPoint);
    AllServiceValuesMeaning(prim, c, outer, IpIpPoint);
    EmptyTogether(a, b);
    if inner != [] { var p := SomeMatches(a); assert ServiceListed(prim, c, inner, p); }
  }

  lemma ZonesCovered(prim: Primitives, c: Catalog, inner: seq<int>, outer: seq<int>)
    requires ZoneNames(prim, ZonesById(c.zones), inner).Ok? && ZoneNames(prim, ZonesById(c.zones), outer).Ok?
    requires ZoneNames(prim, ZonesById(c.zones), inner).value <= ZoneNames(prim, ZonesById(c.zones), outer).value
    requires ZoneNames(prim, ZonesById(c.zones), inner).value == {} <==>
      ZoneNames(prim, ZonesById(c.zones), outer).value == {}
    ensures ZonesWithin(prim, c, inner, outer)
  {
    hide ZoneListed;
    ZoneNamesMeaning(prim, c, inner);
    ZoneNamesMeaning(prim, c, outer);
    hide ZoneNames;
    if inner != [] {
      var n :| n in ZoneNames(prim, ZonesById(c.zones), inner).value;
      assert ZoneListed(prim, c, inner, n);
    }
  }

  /** A covered draft lies within the rule field by field, and each of its fields matches something. */
  ghost predicate RuleWithin(prim: Primitives, c: Catalog, rule: RuleBody, draft: RuleBody) {
    && ZonesWithin(prim, c, draft.srcZones, rule.srcZones)
    && ZonesWithin(prim, c, draft.dstZones, rule.dstZones)
    && AddressesWithin(prim, c.objects, draft.srcAddrs, rule.srcAddrs)
    && AddressesWithin(prim, c.objects, draft.dstAddrs, rule.dstAddrs)
    && ServicesWithin(prim, c, draft.services, rule.services)
  }

  lemma CoveredIsWithin(prim: Primitives, c: Catalog, rule: RuleBody, draft: RuleBody)
    requires CatalogChecked(c) && ResolveIn(prim, c, rule).Ok? && ResolveIn(prim, c, draft).Ok?
    requires RuleCovered(ResolveIn(prim, c, rule).value.normalized, ResolveIn(prim, c, draft).value.normalized)
    ensures RuleWithin(prim, c, rule, draft)
  {
    hide IndexChecked, AddressesWithin, ServicesWithin, ZonesWithin, AddressValues, AllServiceValues, ZoneNames,
      DistinctValues, ValueSet, CoveredBySingles;
    LookupOfChecked(c);
    ZonesCovered(prim, c, draft.srcZones, rule.srcZones);
    ZonesCovered(prim, c, draft.dstZones, rule.dstZones);
    AddressesCovered(prim, c.objects, draft.srcAddrs, rule.srcAddrs);
    AddressesCovered(prim, c.objects, draft.dstAddrs, rule.dstAddrs);
    ServicesCovered(prim, c, draft.services, rule.services);
  }

  lemma ListedOnServer(
    prim: Primitives, server: seq<RawObject>, loaded: seq<RawObject>, networks: seq<NetworkRow>,
    hidden: string -> Net, operands: seq<int>, p: Point)
    requires Expanded(server, loaded) && NetsChecked(hidden)
    requires AddressListed(prim, Converted(loaded, networks), operands, p)
    ensures AddressOnServer(prim, server, networks, hidden, operands, p)
  {
    hide Expanded, AddressListed, AddressOnServer, KnownOnServer;
    KnownIsListedOrLost(prim, server, loaded, networks, operands, p);
    OnServerIsKnownOrHidden(prim, server, networks, hidden, operands, p);
  }

  /** A point for one address field of the draft, for the given hidden nets. */
  lemma FieldPoint(
    prim: Primitives, server: seq<RawObject>, loaded: seq<RawObject>, networks: seq<NetworkRow>,
    hidden: string -> Net, inner: seq<int>, outer: seq<int>) returns (p: Point)
    requires Expanded(server, loaded) && NetsChecked(hidden)
    requires AddressesWithin(prim, Converted(loaded, networks), inner, outer)
    ensures inner == [] || AddressOnServer(prim, server, networks, hidden, inner, p)
  {
    hide Expanded, AddressListed, AddressOnServer;
    if inner == [] {
      p := IpIpPoint;
    } else {
      p :| AddressListed(prim, Converted(loaded, networks), inner, p);
      ListedOnServer(prim, server, loaded, networks, hidden, inner, p);
    }
  }

  lemma ZonePoint(prim: Primitives, c: Catalog, inner: seq<int>, outer: seq<int>) returns (n: string)
    requires ZonesWithin(prim, c, inner, outer)
    ensures inner == [] || ZoneListed(prim, c, inner, n)
  {
    n := "";
    if inner != [] { n :| ZoneListed(prim, c, inner, n); }
  }

  lemma ServicePoint(prim: Primitives, c: Catalog, inner: seq<int>, outer: seq<int>) returns (p: Point)
    requires ServicesWithin(prim, c, inner, outer)
    ensures inner == [] || ServiceListed(prim, c, inner, p)
  {
    p := IpIpPoint;
    if inner != [] { p :| ServiceListed(prim, c, inner, p); }
  }

  /** Traffic that the draft matches on the server when empty lists match everything. */
  lemma DraftTraffic(
    prim: Primitives, zones: seq<Zone>, services: seq<Service>, server: seq<RawObject>, loaded: seq<RawObject>,
    networks: seq<NetworkRow>, hidden: string -> Net, rule: RuleBody, draft: RuleBody) returns (t: Traffic)
    requires Expanded(server, loaded) && NetsChecked(hidden)
    requires RuleWithin(prim, LoadedAs(zones, services, loaded, networks), rule, draft)
    ensures RuleMatchesOnServer(
      prim, LoadedAs(zones, services, loaded, networks), server, networks, hidden, true, draft, t)
  {
    hide Expanded, AddressesWithin, ServicesWithin, ZonesWithin, AddressOnServer, ZoneListed, ServiceListed,
      NetsChecked;
    var c := LoadedAs(zones, services, loaded, networks);
    var srcZone := ZonePoint(prim, c, draft.srcZones, rule.srcZones);
    var dstZone := ZonePoint(prim, c, draft.dstZones, rule.dstZones);
    var src := FieldPoint(prim, server, loaded, networks, hidden, draft.srcAddrs, rule.srcAddrs);
    var dst := FieldPoint(prim, server, loaded, networks, hidden, draft.dstAddrs, rule.dstAddrs);
    var service := ServicePoint(prim, c, draft.services, rule.services);
    t := Traffic(srcZone, dstZone, src, dst, service);
  }

  lemma WithinIsContained(
    prim: Primitives, loaded: seq<RawObject>, networks: seq<NetworkRow>, inner: seq<int>, outer: seq<int>)
    requires AddressesWithin(prim, Converted(loaded, networks), inner, outer)
    ensures ListContained(prim, loaded, networks, inner, outer) && (inner == [] <==> outer == [])
  {
  }

  lemma ContainsAt(
    prim: Primitives, c: Catalog, server: seq<RawObject>, networks: seq<NetworkRow>, rule: RuleBody, draft: RuleBody,
    hidden: string -> Net, t: Traffic)
    requires ContainsOnServer(prim, c, server, networks, rule, draft) && NetsChecked(hidden)
    requires RuleMatchesOnServer(prim, c, server, networks, hidden, true, draft, t)
    ensures RuleMatchesOnServer(prim, c, server, networks, hidden, true, rule, t)
  {
    hide RuleMatchesOnServer;
  }

  lemma FieldsFromRules(
    prim: Primitives, zones: seq<Zone>, services: seq<Service>, server: seq<RawObject>, loaded: seq<RawObject>,
    networks: seq<NetworkRow>, rule: RuleBody, draft: RuleBody, hidden: string -> Net, p: Point)
    requires Expanded(server, loaded) && NetsChecked(hidden)
    requires RuleWithin(prim, LoadedAs(zones, services, loaded, networks), rule, draft)
    requires ContainsOnServer(prim, LoadedAs(zones, services, loaded, networks), server, networks, rule, draft)
    ensures AddressOnServer(prim, server, networks, hidden, draft.srcAddrs, p) ==>
      AddressOnServer(prim, server, networks, hidden, rule.srcAddrs, p)
    ensures AddressOnServer(prim, server, networks, hidden, draft.dstAddrs, p) ==>
      AddressOnServer(prim, server, networks, hidden, rule.dstAddrs, p)
  {
    hide Expanded, AddressOnServer, ZoneListed, ServiceListed, RuleWithin, NetsChecked, ContainsOnServer, LoadedAs;
    var c := LoadedAs(zones, services, loaded, networks);
    NoOperandNothing(prim, server, networks, hidden, p);
    EmptyTogetherInRules(prim, c, rule, draft);
    var t := DraftTraffic(prim, zones, services, server, loaded, networks, hidden, rule, draft);
    if AddressOnServer(prim, server, networks, hidden, draft.srcAddrs, p) {
      ContainsAt(prim, c, server, networks, rule, draft, hidden, t.(src := p));
    }
    if AddressOnServer(prim, server, networks, hidden, draft.dstAddrs, p) {
      ContainsAt(prim, c, server, networks, rule, draft, hidden, t.(dst := p));
    }
  }

  lemma EmptyTogetherInRules(prim: Primitives, c: Catalog, rule: RuleBody, draft: RuleBody)
    requires RuleWithin(prim, c, rule, draft)
    ensures (draft.srcAddrs == [] <==> rule.srcAddrs == []) && (draft.dstAddrs == [] <==> rule.dstAddrs == [])
  {
  }

  lemma NoOperandNothing(
    prim: Primitives, server: seq<RawObject>, networks: seq<NetworkRow>, hidden: string -> Net, p: Point)
    ensures !AddressOnServer(prim, server, networks, hidden, [], p)
  {
  }

  /** The condition is exact for whole rules too. */
  lemma RulesKeptForLoaded(
    prim: Primitives, zones: seq<Zone>, services: seq<Service>, server: seq<RawObject>, loaded: seq<RawObject>,
    networks: seq<NetworkRow>, rule: RuleBody, draft: RuleBody)
    requires Expanded(server, loaded) && RuleWithin(prim, LoadedAs(zones, services, loaded, networks), rule, draft)
    ensures ContainsOnServer(prim, LoadedAs(zones, services, loaded, networks), server, networks, rule, draft) <==>
      FieldsKept(prim, server, GraphOf(loaded), networks, draft, rule)
  {
    var c := LoadedAs(zones, services, loaded, networks);
    WithinIsContained(prim, loaded, networks, draft.srcAddrs, rule.srcAddrs);
    WithinIsContained(prim, loaded, networks, draft.dstAddrs, rule.dstAddrs);
    FieldKeptForLoaded(prim, server, loaded, networks, draft.srcAddrs, rule.srcAddrs);
    FieldKeptForLoaded(prim, server, loaded, networks, draft.dstAddrs, rule.dstAddrs);
    hide Expanded, AddressOnServer, NetsChecked, ListContained, FieldKept;
    if ContainsOnServer(prim, c, server, networks, rule, draft) {
      hide RuleWithin, ContainsOnServer;
      forall hidden, p | NetsChecked(hidden)
        ensures AddressOnServer(prim, server, networks, hidden, draft.srcAddrs, p) ==>
          AddressOnServer(prim, server, networks, hidden, rule.srcAddrs, p)
        ensures AddressOnServer(prim, server, networks, hidden, draft.dstAddrs, p) ==>
          AddressOnServer(prim, server, networks, hidden, rule.dstAddrs, p)
      {
        FieldsFromRules(prim, zones, services, server, loaded, networks, rule, draft, hidden, p);
      }
    }
    if FieldsKept(prim, server, GraphOf(loaded), networks, draft, rule) {
      hide AddressListed, ZoneListed, ServiceListed;
    }
  }

  lemma RulesKeptExactly(
    prim: Primitives, zones: seq<Zone>, services: seq<Service>, server: seq<RawObject>, ids: Option<seq<int>>,
    loaded: seq<RawObject>, networks: seq<NetworkRow>, rule: RuleBody, draft: RuleBody)
    requires LoadedFor(server, ids, loaded)
    requires RuleWithin(prim, LoadedAs(zones, services, loaded, networks), rule, draft)
    ensures ContainsOnServer(prim, LoadedAs(zones, services, loaded, networks), server, networks, rule, draft) <==>
      FieldsKept(prim, server, Surviving(server, ids), networks, draft, rule)
  {
    hide LoadedFor, Expanded, RuleWithin, ContainsOnServer, FieldsKept;
    LoadedForShows(server, ids, loaded);
    RulesKeptForLoaded(prim, zones, services, server, loaded, networks, rule, draft);
  }

  /** COVERED: containment on the server holds exactly when dropped and lost objects do no harm. */
  lemma CoveredOnServer(
    prim: Primitives, zones: seq<Zone>, services: seq<Service>, server: seq<RawObject>, ids: Option<seq<int>>,
    loaded: seq<RawObject>, networks: seq<NetworkRow>, rules: seq<SdwanRule>, draft: RuleBody) returns (k: nat)
    requires LoadedFor(server, ids, loaded) && CatalogChecked(LoadedAs(zones, services, loaded, networks))
    requires Compare(prim, LoadedAs(zones, services, loaded, networks), rules, draft).CoveredMatch?
    ensures var c := LoadedAs(zones, services, loaded, networks);
      && k < |rules| && rules[k].id == Compare(prim, c, rules, draft).coveringId
      && NormalizeAction(rules[k].body.action) == NormalizeAction(draft.action)
      && (ContainsOnServer(prim, c, server, networks, rules[k].body, draft) <==>
          FieldsKept(prim, server, Surviving(server, ids), networks, draft, rules[k].body))
  {
    hide LoadedFor, ResolveIn, AnalyzeCoverage, ExactSignatureOf, LoadedAs, CatalogChecked;
    hide ContainsOnServer, FieldsKept, RuleWithin;
    var c := LoadedAs(zones, services, loaded, networks);
    ResolveWell(prim, c, draft);
    k := CoveringRules(prim, c, rules, ResolveIn(prim, c, draft).value);
    ResolveWell(prim, c, rules[k].body);
    CoveredIsWithin(prim, c, rules[k].body, draft);
    RulesKeptExactly(prim, zones, services, server, ids, loaded, networks, rules[k].body, draft);
  }

  /** EXACT: equal traffic on the server holds exactly when the condition holds in both directions. */
  lemma ExactOnServer(
    prim: Primitives, zones: seq<Zone>, services: seq<Service>, server: seq<RawObject>, ids: Option<seq<int>>,
    loaded: seq<RawObject>, networks: seq<NetworkRow>, rules: seq<SdwanRule>, draft: RuleBody) returns (k: nat)
    requires Faithful(prim) && LoadedFor(server, ids, loaded)
    requires CatalogChecked(LoadedAs(zones, services, loaded, networks))
    requires Compare(prim, LoadedAs(zones, services, loaded, networks), rules, draft).ExactMatch?
    ensures var c := LoadedAs(zones, services, loaded, networks);
      && k < |rules| && rules[k].id == Compare(prim, c, rules, draft).id
      && NormalizeAction(rules[k].body.action) == NormalizeAction(draft.action)
      && (ContainsOnServer(prim, c, server, networks, rules[k].body, draft) <==>
          FieldsKept(prim, server, Surviving(server, ids), networks, draft, rules[k].body))
      && (ContainsOnServer(prim, c, server, networks, draft, rules[k].body) <==>
          FieldsKept(prim, server, Surviving(server, ids), networks, rules[k].body, draft))
  {
    hide LoadedFor, ResolveIn, ExactSignatureOf, LoadedAs, CatalogChecked, Faithful, RuleCovered;
    hide ContainsOnServer, FieldsKept, RuleWithin;
    var c := LoadedAs(zones, services, loaded, networks);
    var n := ResolveIn(prim, c, draft).value.normalized;
    k := SignedRules(prim, c, rules, n);
    ResolveWell(prim, c, draft);
    ResolveWell(prim, c, rules[k].body);
    CoverageIsPreorder(n, n, n);
    CoveredIsWithin(prim, c, rules[k].body, draft);
    CoveredIsWithin(prim, c, draft, rules[k].body);
    RulesKeptExactly(prim, zones, services, server, ids, loaded, networks, rules[k].body, draft);
    RulesKeptExactly(prim, zones, services, server, ids, loaded, networks, draft, rules[k].body);
  }
}
