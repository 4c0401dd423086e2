/** Exactly which rules resolve: the condition behind excluded rules and match errors. */
module RuleErrors {
  import opened CatalogModels
  import opened Collections
  import opened Graphs
  import opened AddressGroups
  import opened RuleValues
  import opened Rules
  import opened RuleMeaning
  import opened Comparer

  /** `n` groups in a row, from an object of the list. */
  ghost predicate DeepGroups(objs: seq<AddrObject>, id: int, n: nat) {
    exists p :: IsWalk(MemberEdges(objs), p) && p[0] == id && |p| == n && DenotesGroup(objs, p[n - 1])
  }

  /** Every group below an object has another member. */
  ghost predicate GroupsFilled(objs: seq<AddrObject>, id: int) {
    forall b | Reach(MemberEdges(objs), id, b) && DenotesGroup(objs, b) :: HasMember(objs, b)
  }

  ghost predicate HasMember(objs: seq<AddrObject>, b: int) { exists c :: (b, c) in MemberEdges(objs) }

  ghost predicate ReversedRange(o: AddrObject) { o.body.IpRange? && o.body.rangeFrom > o.body.rangeTo }

  /** A loaded object, all groups below it non-empty and nested in bounds, no reversed range below it. */
  ghost predicate UsableAddress(objs: seq<AddrObject>, id: int) {
    && (exists o :: o in objs && o.id == id)
    && !DeepGroups(objs, id, MAX_ADDR_GROUP_NESTING_LEVEL + 1) && GroupsFilled(objs, id)
    && forall o | LeafOf(objs, id, o) :: !ReversedRange(o)
  }

  predicate UsableRange(r: (int, int)) { 0 <= r.0 <= r.1 <= MAX_PORT }

  /** All its port ranges lie in order within the port space; other protocols are always usable. */
  ghost predicate UsablePorts(s: Service) {
    s.proto.Tcp? || s.proto.Udp? ==>
      s.ranges.Some? && s.ranges.value != [] && forall r | r in s.ranges.value :: UsableRange(r)
  }

  ghost predicate UsableService(services: seq<Service>, id: int) {
    exists s :: Denotes(ServiceId, services, id, s) && UsablePorts(s)
  }

  ghost predicate KnownZone(zones: seq<Zone>, id: int) { exists z :: z in zones && z.id == id }

  ghost predicate UsableAddresses(objs: seq<AddrObject>, ids: seq<int>) {
    forall id | id in ids :: UsableAddress(objs, id)
  }

  ghost predicate UsableServices(services: seq<Service>, ids: seq<int>) {
    forall id | id in ids :: UsableService(services, id)
  }

  ghost predicate KnownZones(zones: seq<Zone>, ids: seq<int>) { forall id | id in ids :: KnownZone(zones, id) }

  ghost predicate UsableRule(c: Catalog, r: RuleBody) {
    && UsableAddresses(c.objects, r.srcAddrs) && UsableAddresses(c.objects, r.dstAddrs)
    && UsableServices(c.services, r.services)
    && KnownZones(c.zones, r.srcZones) && KnownZones(c.zones, r.dstZones)
  }

  lemma {:induction false} LeafValuesOk(prim: Primitives, leaves: seq<AddrObject>)
    requires forall o | o in leaves :: AddrChecked(o)
    ensures LeafValues(prim, leaves).Ok? <==> forall o | o in leaves :: LeafValue(prim, o).Ok?
  {
    hide LeafValue, AddrChecked;
    if leaves != [] {
      var init, last := leaves[..|leaves| - 1], leaves[|leaves| - 1];
      assert leaves == init + [last];
      LeafValuesOk(prim, init);
    }
  }

  lemma IndexResolvable(objs: seq<AddrObject>, id: int)
    ensures Resolvable(BuildIndex(objs), id, MAX_ADDR_GROUP_NESTING_LEVEL) <==>
      (exists o :: o in objs && o.id == id)
      && !DeepGroups(objs, id, MAX_ADDR_GROUP_NESTING_LEVEL + 1) && GroupsFilled(objs, id)
  {
    hide BuildIndex, MemberEdges, Edges, DenotesGroup, Denotes, IsGroup;
    var g := BuildIndex(objs);
    IndexEdges(objs);
    ByIdDenotes(ObjectId, objs, id);
    BuiltById(objs);
    forall b ensures IsGroup(g, b) <==> DenotesGroup(objs, b) { IndexDenotes(objs, b); }
    forall b ensures HasOtherChild(g, b) <==> HasMember(objs, b) {}
  }

  lemma BuiltById(objs: seq<AddrObject>)
    ensures BuildIndex(objs).byId == ById(ObjectId, objs)
  {
  }

  lemma AddressOk(prim: Primitives, objs: seq<AddrObject>, id: int)
    requires IndexChecked(BuildIndex(objs))
    ensures var g := BuildIndex(objs);
      UsableAddress(objs, id) <==>
        Resolve(g, id, 0).Ok? && (LeavesChecked(g, id); LeafValues(prim, Resolve(g, id, 0).value).Ok?)
  {
    hide BuildIndex, LeafOf, LeafBelow, DeepGroups, GroupsFilled, Resolvable, ReversedRange;
    var g := BuildIndex(objs);
    ResolveSucceeds(g, id, 0);
    IndexResolvable(objs, id);
    if Resolve(g, id, 0).Ok? {
      var leaves := Resolve(g, id, 0).value;
      LeavesChecked(g, id);
      forall o ensures o in leaves <==> LeafOf(objs, id, o) {
        ResolveLeavesExact(g, id, 0, o);
        IndexLeaves(objs, id, o);
      }
      LeafValuesOk(prim, leaves);
      forall o | o in leaves ensures LeafValue(prim, o).Ok? <==> !ReversedRange(o) { LeafOk(prim, objs, id, o); }
    }
  }

  lemma LeafOk(prim: Primitives, objs: seq<AddrObject>, id: int, o: AddrObject)
    requires AddrChecked(o) && LeafOf(objs, id, o)
    ensures LeafValue(prim, o).Ok? <==> !ReversedRange(o)
    ensures LeafValue(prim, o).Err? ==> LeafValue(prim, o).error == BadIpRange(o.id)
  {
  }

  lemma {:induction false} AddressesOk(prim: Primitives, objs: seq<AddrObject>, ids: seq<int>)
    requires IndexChecked(BuildIndex(objs))
    ensures AddressValues(prim, BuildIndex(objs), ids).Ok? <==> UsableAddresses(objs, ids)
  {
    hide UsableAddress, IndexChecked, LeafValues, Resolve, BuildIndex;
    if ids != [] {
      var init, last := ids[..|ids| - 1], ids[|ids| - 1];
      assert ids == init + [last];
      AddressesOk(prim, objs, init);
      AddressOk(prim, objs, last);
    }
  }

  lemma {:induction false} PortsOk(id: int, tcp: bool, ranges: seq<(int, int)>)
    ensures PortValues(id, tcp, ranges).Ok? <==> forall r | r in ranges :: UsableRange(r)
  {
    if ranges != [] {
      var init, last := ranges[..|ranges| - 1], ranges[|ranges| - 1];
      assert ranges == init + [last];
      PortsOk(id, tcp, init);
      assert (forall r | r in ranges :: UsableRange(r)) <==>
        (forall r | r in init :: UsableRange(r)) && UsableRange(last);
    }
  }

  lemma ServiceOk(prim: Primitives, services: seq<Service>, id: int)
    ensures var byId := ServicesById(services);
      UsableService(services, id) <==> id in byId && ServiceValues(prim, byId[id]).Ok?
  {
    ByIdDenotes(ServiceId, services, id);
    hide Denotes;
    if id in ServicesById(services) { OneServiceOk(prim, ServicesById(services)[id]); }
  }

  lemma OneServiceOk(prim: Primitives, s: Service)
    ensures ServiceValues(prim, s).Ok? <==> UsablePorts(s)
  {
    if s.ranges.Some? { PortsOk(s.id, s.proto.Tcp?, s.ranges.value); }
  }

  lemma {:induction false} ServicesOk(prim: Primitives, services: seq<Service>, ids: seq<int>)
    ensures AllServiceValues(prim, ServicesById(services), ids).Ok? <==> UsableServices(services, ids)
  {
    hide UsableService, ServiceValues, ServicesById;
    if ids != [] {
      var init, last := ids[..|ids| - 1], ids[|ids| - 1];
      assert ids == init + [last];
      ServicesOk(prim, services, init);
      ServiceOk(prim, services, last);
    }
  }

  lemma {:induction false} ZonesOk(prim: Primitives, zones: seq<Zone>, ids: seq<int>)
    ensures ZoneNames(prim, ZonesById(zones), ids).Ok? <==> KnownZones(zones, ids)
  {
    hide KnownZone;
    if ids != [] {
      var init, last := ids[..|ids| - 1], ids[|ids| - 1];
      assert ids == init + [last];
      ZonesOk(prim, zones, init);
      ZoneOk(zones, last);
    }
  }

  lemma ZoneOk(zones: seq<Zone>, id: int)
    ensures id in ZonesById(zones) <==> KnownZone(zones, id)
  {
    ByIdDenotes(ZoneId, zones, id);
  }

  lemma IndexOfLookup(c: Catalog)
    requires CatalogChecked(c)
    ensures IndexChecked(BuildIndex(c.objects))
  {
    LookupOfChecked(c);
  }

  /** A rule resolves exactly when every operand it lists is usable. */
  lemma ResolvesExactly(prim: Primitives, c: Catalog, r: RuleBody)
    requires CatalogChecked(c)
    ensures ResolveIn(prim, c, r).Ok? <==> UsableRule(c, r)
  {
    hide UsableAddresses, UsableServices, KnownZones, IndexChecked, AddressValues, AllServiceValues, ZoneNames,
      DistinctValues, ValueSet;
    IndexOfLookup(c);
    AddressesOk(prim, c.objects, r.srcAddrs);
    AddressesOk(prim, c.objects, r.dstAddrs);
    ServicesOk(prim, c.services, r.services);
    ZonesOk(prim, c.zones, r.srcZones);
    ZonesOk(prim, c.zones, r.dstZones);
  }

  /** A draft is a match error, whatever rules exist, exactly when some operand of it is unusable. */
  lemma MatchErrorExactly(prim: Primitives, c: Catalog, rules: seq<SdwanRule>, draft: RuleBody)
    requires CatalogChecked(c)
    ensures Compare(prim, c, rules, draft).MatchError? <==> !UsableRule(c, draft)
  {
    hide ResolveIn, UsableRule;
    ResolvesExactly(prim, c, draft);
  }

  // ----- which operand an error names

  /** What an error says of one address operand. */
  ghost predicate OperandBlamed(objs: seq<AddrObject>, id: int, e: NormalizationError) {
    match e
    case Unresolved(error) => Blames(BuildIndex(objs), id, 0, error)
    case BadIpRange(x) => exists o :: LeafOf(objs, id, o) && o.id == x && ReversedRange(o)
    case _ => false
  }

  /** The error of an address list is that of its first unusable operand. */
  ghost predicate AddressBlamed(objs: seq<AddrObject>, ids: seq<int>, e: NormalizationError) {
    exists k: nat :: k < |ids| && UsableAddresses(objs, ids[..k]) && !UsableAddress(objs, ids[k])
      && OperandBlamed(objs, ids[k], e)
  }

  ghost predicate ServiceBlamed(services: seq<Service>, ids: seq<int>, e: NormalizationError) {
    exists k: nat :: k < |ids| && UsableServices(services, ids[..k]) && BadService(services, ids[k], e)
  }

  ghost predicate BadService(services: seq<Service>, id: int, e: NormalizationError) {
    match e
    case UnknownService(x) => x == id && forall s | s in services :: s.id != id
    case BadPortRange(x) => x == id && exists s :: Denotes(ServiceId, services, id, s) && !UsablePorts(s)
    case _ => false
  }

  ghost predicate ZoneBlamed(zones: seq<Zone>, ids: seq<int>, e: NormalizationError) {
    exists k: nat :: k < |ids| && KnownZones(zones, ids[..k]) && !KnownZone(zones, ids[k]) && e == UnknownZone(ids[k])
  }

  lemma LeafErrorBlamed(prim: Primitives, objs: seq<AddrObject>, id: int, leaves: seq<AddrObject>)
    requires forall o | o in leaves :: AddrChecked(o) && LeafOf(objs, id, o)
    requires LeafValues(prim, leaves).Err?
    ensures OperandBlamed(objs, id, LeafValues(prim, leaves).error)
  {
    hide LeafOf, AddrChecked, LeafValue, ReversedRange;
    var init, last := leaves[..|leaves| - 1], leaves[|leaves| - 1];
    assert leaves == init + [last];
    if LeafValues(prim, init).Err? {
      LeafErrorBlamed(prim, objs, id, init);
    } else {
      LeafOk(prim, objs, id, last);
    }
  }

  lemma OperandErrorBlamed(prim: Primitives, objs: seq<AddrObject>, id: int)
    requires IndexChecked(BuildIndex(objs)) && !UsableAddress(objs, id)
    ensures var g := BuildIndex(objs);
      if Resolve(g, id, 0).Err? then OperandBlamed(objs, id, Unresolved(Resolve(g, id, 0).error))
      else (LeavesChecked(g, id);
        LeafValues(prim, Resolve(g, id, 0).value).Err?
          && OperandBlamed(objs, id, LeafValues(prim, Resolve(g, id, 0).value).error))
  {
    hide BuildIndex, LeafOf, LeafBelow, Resolve, LeafValues, UsableAddress, OperandBlamed;
    var g := BuildIndex(objs);
    AddressOk(prim, objs, id);
    if Resolve(g, id, 0).Err? {
      ResolveErrors(g, id, 0);
      ErrorIsBlamed(objs, id, Resolve(g, id, 0).error);
    } else {
      LeavesChecked(g, id);
      forall o | o in Resolve(g, id, 0).value ensures LeafOf(objs, id, o) {
        ResolveLeavesExact(g, id, 0, o);
        IndexLeaves(objs, id, o);
      }
      LeafErrorBlamed(prim, objs, id, Resolve(g, id, 0).value);
    }
  }

  lemma ErrorIsBlamed(objs: seq<AddrObject>, id: int, error: ResolutionError)
    requires Blames(BuildIndex(objs), id, 0, error)
    ensures OperandBlamed(objs, id, Unresolved(error))
  {
  }

  lemma {:induction false} AddressErrorBlamed(prim: Primitives, objs: seq<AddrObject>, ids: seq<int>)
    requires IndexChecked(BuildIndex(objs)) && AddressValues(prim, BuildIndex(objs), ids).Err?
    ensures AddressBlamed(objs, ids, AddressValues(prim, BuildIndex(objs), ids).error)
  {
    hide IndexChecked, BuildIndex, Resolve, LeafValues, UsableAddress, OperandBlamed;
    var n := |ids| - 1;
    AddressesOk(prim, objs, ids[..n]);
    if AddressValues(prim, BuildIndex(objs), ids[..n]).Err? {
      AddressErrorBlamed(prim, objs, ids[..n]);
      var e := AddressValues(prim, BuildIndex(objs), ids).error;
      var k: nat :| k < n && UsableAddresses(objs, ids[..n][..k]) && !UsableAddress(objs, ids[..n][k])
        && OperandBlamed(objs, ids[..n][k], e);
      assert ids[..n][..k] == ids[..k];
    } else {
      AddressOk(prim, objs, ids[n]);
      OperandErrorBlamed(prim, objs, ids[n]);
    }
  }

  lemma {:induction false} PortErrorNames(id: int, tcp: bool, ranges: seq<(int, int)>)
    requires PortValues(id, tcp, ranges).Err?
    ensures PortValues(id, tcp, ranges).error == BadPortRange(id)
  {
    if PortValues(id, tcp, ranges[..|ranges| - 1]).Err? { PortErrorNames(id, tcp, ranges[..|ranges| - 1]); }
  }

  lemma OneServiceBlamed(prim: Primitives, c: Catalog, id: int)
    requires CatalogChecked(c) && id in ServicesById(c.services)
    requires ServiceValues(prim, ServicesById(c.services)[id]).Err?
    ensures BadService(c.services, id, ServiceValues(prim, ServicesById(c.services)[id]).error)
  {
    hide ServicesById;
    DenotedService(c, id);
    var s := ServicesById(c.services)[id];
    DenotedIsListed(ServiceId, c.services, id, s);
    OneServiceOk(prim, s);
    PortErrorNames(s.id, s.proto.Tcp?, s.ranges.value);
  }

  lemma {:induction false} ServiceErrorBlamed(prim: Primitives, c: Catalog, ids: seq<int>)
    requires CatalogChecked(c) && AllServiceValues(prim, ServicesById(c.services), ids).Err?
    ensures ServiceBlamed(c.services, ids, AllServiceValues(prim, ServicesById(c.services), ids).error)
  {
    hide UsableService, ServiceValues, ServicesById, BadService, CatalogChecked;
    var n := |ids| - 1;
    ServicesOk(prim, c.services, ids[..n]);
    if AllServiceValues(prim, ServicesById(c.services), ids[..n]).Err? {
      ServiceErrorBlamed(prim, c, ids[..n]);
      var e := AllServiceValues(prim, ServicesById(c.services), ids).error;
      var k: nat :| k < n && UsableServices(c.services, ids[..n][..k]) && BadService(c.services, ids[..n][k], e);
      assert ids[..n][..k] == ids[..k];
    } else if ids[n] in ServicesById(c.services) {
      OneServiceBlamed(prim, c, ids[n]);
    } else {
      UnknownIsBad(c.services, ids[n]);
    }
  }

  lemma UnknownIsBad(services: seq<Service>, id: int)
    requires id !in ServicesById(services)
    ensures BadService(services, id, UnknownService(id))
  {
    ByIdDenotes(ServiceId, services, id);
  }

  lemma {:induction false} ZoneErrorBlamed(prim: Primitives, zones: seq<Zone>, ids: seq<int>)
    requires ZoneNames(prim, ZonesById(zones), ids).Err?
    ensures ZoneBlamed(zones, ids, ZoneNames(prim, ZonesById(zones), ids).error)
  {
    hide KnownZone, ZonesById;
    var n := |ids| - 1;
    ZonesOk(prim, zones, ids[..n]);
    ZoneOk(zones, ids[n]);
    if ZoneNames(prim, ZonesById(zones), ids[..n]).Err? {
      ZoneErrorBlamed(prim, zones, ids[..n]);
      var e := ZoneNames(prim, ZonesById(zones), ids).error;
      var k: nat :| k < n && KnownZones(zones, ids[..n][..k]) && !KnownZone(zones, ids[..n][k])
        && e == UnknownZone(ids[..n][k]);
      assert ids[..n][..k] == ids[..k];
    }
  }

  /** Sources, destinations, services, then zones: the error is that of the first operand that is not usable. */
  lemma ErrorNamesFirstUnusable(prim: Primitives, c: Catalog, r: RuleBody)
    requires CatalogChecked(c) && ResolveIn(prim, c, r).Err?
    ensures var e := ResolveIn(prim, c, r).error;
      if !UsableAddresses(c.objects, r.srcAddrs) then AddressBlamed(c.objects, r.srcAddrs, e)
      else if !UsableAddresses(c.objects, r.dstAddrs) then AddressBlamed(c.objects, r.dstAddrs, e)
      else if !UsableServices(c.services, r.services) then ServiceBlamed(c.services, r.services, e)
      else if !KnownZones(c.zones, r.srcZones) then ZoneBlamed(c.zones, r.srcZones, e)
      else ZoneBlamed(c.zones, r.dstZones, e)
  {
    hide UsableAddresses, UsableServices, KnownZones, IndexChecked, AddressValues, AllServiceValues, ZoneNames,
      DistinctValues, ValueSet, AddressBlamed, ServiceBlamed, ZoneBlamed;
    IndexOfLookup(c);
    AddressesOk(prim, c.objects, r.srcAddrs);
    AddressesOk(prim, c.objects, r.dstAddrs);
    ServicesOk(prim, c.services, r.services);
    ZonesOk(prim, c.zones, r.srcZones);
    ZonesOk(prim, c.zones, r.dstZones);
    if !UsableAddresses(c.objects, r.srcAddrs) { AddressErrorBlamed(prim, c.objects, r.srcAddrs); }
    else if !UsableAddresses(c.objects, r.dstAddrs) { AddressErrorBlamed(prim, c.objects, r.dstAddrs); }
    else if !UsableServices(c.services, r.services) { ServiceErrorBlamed(prim, c, r.services); }
    else if !KnownZones(c.zones, r.srcZones) { ZoneErrorBlamed(prim, c.zones, r.srcZones); }
    else { ZoneErrorBlamed(prim, c.zones, r.dstZones); }
  }
}
