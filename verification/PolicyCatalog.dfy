/** The runtime catalog of one comparison: which ids it asks for, and which errors cannot arise. */
module PolicyCatalog {
  import opened CatalogModels
  import opened Collections
  import opened ParentQueries
  import opened CatalogLoading
  import opened AddressGroups
  import opened CatalogConversion
  import opened Rules
  import opened PolicyGateway

  function AddressOperands(p: Policy): seq<int> { p.request.srcAddress + p.request.dstAddress }

  function ZoneOperands(p: Policy): seq<int> { p.request.ingressZone + p.request.egressZone }

  function ServiceOperands(p: Policy): seq<int> { p.request.service }

  /** The ids the policies mention in some field. */
  ghost function Mentioned(policies: seq<Policy>, field: Policy -> seq<int>): set<int> {
    set p, id | p in policies && id in field(p) :: id
  }

  lemma MentionedNext(policies: seq<Policy>, field: Policy -> seq<int>, i: nat)
    requires i < |policies|
    ensures Mentioned(policies[..i + 1], field) == Mentioned(policies[..i], field) + SetOf(field(policies[i]))
  {
    assert policies[..i + 1] == policies[..i] + [policies[i]];
    forall id | id in SetOf(field(policies[i])) ensures id in Mentioned(policies[..i + 1], field) {
      assert policies[i] in policies[..i + 1];
    }
    forall id | id in Mentioned(policies[..i], field) ensures id in Mentioned(policies[..i + 1], field) {
      var p :| p in policies[..i] && id in field(p);
      assert p in policies[..i + 1];
    }
  }

  /** Some existing rule lists the zone, the service or the address object. */
  ghost predicate RuleListsZone(policies: seq<Policy>, id: int) {
    exists p :: p in policies && (id in RuleOf(p).body.srcZones || id in RuleOf(p).body.dstZones)
  }

  ghost predicate RuleListsService(policies: seq<Policy>, id: int) {
    exists p :: p in policies && id in RuleOf(p).body.services
  }

  ghost predicate RuleListsAddress(policies: seq<Policy>, id: int) {
    exists p :: p in policies && (id in RuleOf(p).body.srcAddrs || id in RuleOf(p).body.dstAddrs)
  }

  /** What is mentioned in the policies is what the rules made of them list. */
  lemma MentionedIsListed(policies: seq<Policy>, id: int)
    ensures id in Mentioned(policies, ZoneOperands) <==> RuleListsZone(policies, id)
    ensures id in Mentioned(policies, ServiceOperands) <==> RuleListsService(policies, id)
    ensures id in Mentioned(policies, AddressOperands) <==> RuleListsAddress(policies, id)
  {
    forall p | p in policies
      ensures id in ZoneOperands(p) <==> id in RuleOf(p).body.srcZones || id in RuleOf(p).body.dstZones
      ensures id in ServiceOperands(p) <==> id in RuleOf(p).body.services
      ensures id in AddressOperands(p) <==> id in RuleOf(p).body.srcAddrs || id in RuleOf(p).body.dstAddrs
    {
    }
  }

  /** Id sets are updated policy by policy, on top of the ids the drafts mention. */
  method CollectIds(policies: seq<Policy>, extraZones: set<int>, extraServices: set<int>, extraAddresses: set<int>)
    returns (zones: set<int>, services: set<int>, addresses: set<int>)
    ensures forall id :: id in zones <==> id in extraZones || RuleListsZone(policies, id)
    ensures forall id :: id in services <==> id in extraServices || RuleListsService(policies, id)
    ensures forall id :: id in addresses <==> id in extraAddresses || RuleListsAddress(policies, id)
  {
    zones, services, addresses := extraZones, extraServices, extraAddresses;
    for i := 0 to |policies|
      invariant zones == extraZones + Mentioned(policies[..i], ZoneOperands)
      invariant services == extraServices + Mentioned(policies[..i], ServiceOperands)
      invariant addresses == extraAddresses + Mentioned(policies[..i], AddressOperands)
    {
      hide Mentioned;
      MentionedNext(policies, ZoneOperands, i);
      MentionedNext(policies, ServiceOperands, i);
      MentionedNext(policies, AddressOperands, i);
      zones := zones + SetOf(ZoneOperands(policies[i]));
      services := services + SetOf(ServiceOperands(policies[i]));
      addresses := addresses + SetOf(AddressOperands(policies[i]));
    }
    assert policies[..|policies|] == policies;
    forall id
      ensures id in Mentioned(policies, ZoneOperands) <==> RuleListsZone(policies, id)
      ensures id in Mentioned(policies, ServiceOperands) <==> RuleListsService(policies, id)
      ensures id in Mentioned(policies, AddressOperands) <==> RuleListsAddress(policies, id)
    {
      MentionedIsListed(policies, id);
    }
  }

  /** The zones, services and address objects that a rule lists are among the ids asked for. */
  ghost predicate OperandsRequested(zones: set<int>, services: set<int>, addresses: set<int>, r: RuleBody) {
    && (forall id | id in r.srcZones || id in r.dstZones :: id in zones)
    && (forall id | id in r.services :: id in services)
    && (forall id | id in r.srcAddrs || id in r.dstAddrs :: id in addresses)
  }

  /** The collected ids cover the operands of every existing rule. */
  lemma CollectedIdsCoverRules(
    policies: seq<Policy>, zones: set<int>, services: set<int>, addresses: set<int>, p: Policy)
    requires forall id | RuleListsZone(policies, id) :: id in zones
    requires forall id | RuleListsService(policies, id) :: id in services
    requires forall id | RuleListsAddress(policies, id) :: id in addresses
    requires p in policies
    ensures OperandsRequested(zones, services, addresses, RuleOf(p).body)
  {
    var r := RuleOf(p).body;
    forall id | id in r.srcZones || id in r.dstZones ensures id in zones { assert RuleListsZone(policies, id); }
    forall id | id in r.services ensures id in services { assert RuleListsService(policies, id); }
    forall id | id in r.srcAddrs || id in r.dstAddrs ensures id in addresses { assert RuleListsAddress(policies, id); }
  }

  function LoadedAs(
    zones: seq<Zone>, services: seq<Service>, loaded: seq<RawObject>, networks: seq<NetworkRow>): Catalog
  {
    Catalog(zones, services, Converted(loaded, networks))
  }

  // ----- no rule fails for nesting

  /** A requested operand is unknown exactly when the server lacks it or its network was dropped. */
  lemma UnknownMeansAbsent(server: seq<RawObject>, ids: Option<seq<int>>, networks: seq<NetworkRow>, id: int)
    requires OneObjectPerId(server) && GroupsKeyed(server) && Load(server, ids).Ok?
    requires ids.None? || id in ids.value
    ensures var g := IndexOf(Load(server, ids).value, networks);
      id in g.byId <==> Kept(server, networks, id)
  {
    hide IndexOf, Load, Shallow, ClosedRows, GroupsKeyed;
    var loaded := Load(server, ids).value;
    LoadIsExpanded(server, ids);
    RequestedIsLoaded(server, ids, id);
    if Kept(server, networks, id) {
      var o :| o in server && o.id == id && !Dropped(o, networks);
      IndexedRow(server, loaded, networks, o);
    }
    if id in IndexOf(loaded, networks).byId {
      var o := IndexedId(server, loaded, networks, id);
    }
  }

  ghost predicate NestingFree(r: Result<seq<Resolved>, NormalizationError>) {
    r.Err? && r.error.Unresolved? ==> !r.error.error.NestingExceeded?
  }

  lemma {:induction false} AddressesNestingFree(
    prim: Primitives, server: seq<RawObject>, loaded: seq<RawObject>, networks: seq<NetworkRow>, operands: seq<int>)
    requires Expanded(server, loaded) && IndexChecked(IndexOf(loaded, networks))
    ensures NestingFree(AddressValues(prim, IndexOf(loaded, networks), operands))
  {
    hide IndexOf, Expanded, IndexChecked, Kept;
    if operands != [] {
      var init, id := operands[..|operands| - 1], operands[|operands| - 1];
      AddressesNestingFree(prim, server, loaded, networks, init);
      if Resolve(IndexOf(loaded, networks), id, 0).Err? {
        NestingNeverExceeded(server, loaded, networks, id);
      } else {
        LeavesChecked(IndexOf(loaded, networks), id);
        LeafErrors(prim, Resolve(IndexOf(loaded, networks), id, 0).value);
      }
    }
  }

  lemma {:induction false} LeafErrors(prim: Primitives, leaves: seq<AddrObject>)
    requires forall o | o in leaves :: AddrChecked(o)
    ensures LeafValues(prim, leaves).Err? ==> !LeafValues(prim, leaves).error.Unresolved?
  {
    if leaves != [] {
      assert forall o | o in leaves[..|leaves| - 1] :: o in leaves;
      LeafErrors(prim, leaves[..|leaves| - 1]);
    }
  }

  lemma {:induction false} ServiceErrors(prim: Primitives, byId: map<int, Service>, operands: seq<int>)
    ensures AllServiceValues(prim, byId, operands).Err? ==> !AllServiceValues(prim, byId, operands).error.Unresolved?
  {
    if operands != [] {
      ServiceErrors(prim, byId, operands[..|operands| - 1]);
      var id := operands[|operands| - 1];
      if id in byId && byId[id].ranges.Some? {
        PortErrors(byId[id].id, byId[id].proto.Tcp?, byId[id].ranges.value);
      }
    }
  }

  lemma {:induction false} PortErrors(id: int, tcp: bool, ranges: seq<(int, int)>)
    ensures PortValues(id, tcp, ranges).Err? ==> PortValues(id, tcp, ranges).error.BadPortRange?
  {
    if ranges != [] { PortErrors(id, tcp, ranges[..|ranges| - 1]); }
  }

  lemma {:induction false} ZoneErrors(prim: Primitives, byId: map<int, Zone>, operands: seq<int>)
    ensures ZoneNames(prim, byId, operands).Err? ==> ZoneNames(prim, byId, operands).error.UnknownZone?
  {
    if operands != [] { ZoneErrors(prim, byId, operands[..|operands| - 1]); }
  }

  /** If the objects loaded, no existing rule is excluded and no draft rejected for group nesting. */
  lemma NoRuleFailsForNesting(
    prim: Primitives, zones: seq<Zone>, services: seq<Service>,
    server: seq<RawObject>, loaded: seq<RawObject>, networks: seq<NetworkRow>, r: RuleBody)
    requires Expanded(server, loaded) && CatalogChecked(LoadedAs(zones, services, loaded, networks))
    ensures var result := ResolveIn(prim, LoadedAs(zones, services, loaded, networks), r);
      result.Err? && result.error.Unresolved? ==> !result.error.error.NestingExceeded?
  {
    hide Expanded, IndexChecked, AddressValues, AllServiceValues, ZoneNames;
    var c := LoadedAs(zones, services, loaded, networks);
    LookupOfChecked(c);
    AddressesNestingFree(prim, server, loaded, networks, r.srcAddrs);
    AddressesNestingFree(prim, server, loaded, networks, r.dstAddrs);
    ServiceErrors(prim, LookupOf(c).services, r.services);
    ZoneErrors(prim, LookupOf(c).zones, r.srcZones);
    ZoneErrors(prim, LookupOf(c).zones, r.dstZones);
  }
}
