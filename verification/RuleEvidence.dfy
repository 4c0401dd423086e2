/** Which catalog object each resolved value names, and how coverage evidence is laid out by field. */
module RuleEvidence {
  import opened CatalogModels
  import opened Collections
  import opened AddressGroups
  import opened RuleValues
  import opened Rules
  import opened RuleMeaning
  import opened Coverage

  /** The entry for a leaf object: a value for exactly its points, under its own id, name and display text. */
  ghost predicate NamesObject(prim: Primitives, o: AddrObject, r: Resolved) {
    && Valid(r.value) && (forall p :: Matches(r.value, p) <==> StandsFor(prim, o, p))
    && r.evidence == Evidence(o.id, o.name, prim.display(r.value))
  }

  lemma SamePoints(v: Value, w: Value)
    requires Valid(v) && Valid(w) && forall p :: Matches(v, p) <==> Matches(w, p)
    ensures v == w
  {
    CoversIsInclusion(v, w);
    CoversIsInclusion(w, v);
    CoversAntisymmetric(v, w);
  }

  /** The entries of a list of leaves: one per leaf, in order, and each names its leaf alone. */
  lemma {:induction false} LeafEntries(prim: Primitives, leaves: seq<AddrObject>)
    requires (forall o | o in leaves :: AddrChecked(o)) && LeafValues(prim, leaves).Ok?
    ensures |LeafValues(prim, leaves).value| == |leaves|
    ensures forall i :: 0 <= i < |leaves| ==> NamesObject(prim, leaves[i], LeafValues(prim, leaves).value[i])
  {
    if leaves != [] {
      var init, last := leaves[..|leaves| - 1], leaves[|leaves| - 1];
      assert leaves == init + [last];
      LeafEntries(prim, init);
      LeafValueMeaning(prim, last);
    }
  }

  ghost predicate NamesOneOf(prim: Primitives, leaves: seq<AddrObject>, r: Resolved) {
    exists o :: o in leaves && NamesObject(prim, o, r)
  }

  lemma LeafEvidence(prim: Primitives, leaves: seq<AddrObject>, r: Resolved)
    requires (forall o | o in leaves :: AddrChecked(o)) && LeafValues(prim, leaves).Ok?
    ensures r in LeafValues(prim, leaves).value <==> NamesOneOf(prim, leaves, r)
  {
    hide NamesObject, AddrChecked, LeafValues;
    var entries := LeafValues(prim, leaves).value;
    LeafEntries(prim, leaves);
    if r in entries {
      var i :| 0 <= i < |entries| && entries[i] == r;
      assert leaves[i] in leaves && NamesObject(prim, leaves[i], r);
    }
    if NamesOneOf(prim, leaves, r) {
      var o :| o in leaves && NamesObject(prim, o, r);
      var i :| 0 <= i < |leaves| && leaves[i] == o;
      NamesOnce(prim, o, r, entries[i]);
    }
  }

  lemma NamesOnce(prim: Primitives, o: AddrObject, r: Resolved, s: Resolved)
    requires NamesObject(prim, o, r) && NamesObject(prim, o, s)
    ensures r == s
  {
    forall p ensures Matches(r.value, p) <==> Matches(s.value, p) {
      assert Matches(r.value, p) <==> StandsFor(prim, o, p);
    }
    SamePoints(r.value, s.value);
  }

  /** Some listed object, or some leaf below a listed group, is the one the entry names. */
  ghost predicate NamesLeafOf(prim: Primitives, objs: seq<AddrObject>, ids: seq<int>, r: Resolved) {
    exists id, o :: id in ids && LeafOf(objs, id, o) && NamesObject(prim, o, r)
  }

  lemma NamesLeafSnoc(prim: Primitives, objs: seq<AddrObject>, ids: seq<int>, id: int, r: Resolved)
    requires IndexChecked(BuildIndex(objs)) && Resolve(BuildIndex(objs), id, 0).Ok?
    ensures NamesLeafOf(prim, objs, ids + [id], r) <==>
      NamesLeafOf(prim, objs, ids, r) || NamesOneOf(prim, Resolve(BuildIndex(objs), id, 0).value, r)
  {
    hide LeafBelow, LeafOf, NamesObject, Resolve, BuildIndex;
    var g := BuildIndex(objs);
    forall o ensures o in Resolve(g, id, 0).value <==> LeafOf(objs, id, o) {
      ResolveLeavesExact(g, id, 0, o);
      IndexLeaves(objs, id, o);
    }
    assert forall i :: i in ids + [id] <==> i in ids || i == id;
  }

  /** The entries of an address operand list are exactly those of the leaves below its operands. */
  lemma {:induction false} AddressEvidence(prim: Primitives, objs: seq<AddrObject>, ids: seq<int>, r: Resolved)
    requires IndexChecked(BuildIndex(objs)) && AddressValues(prim, BuildIndex(objs), ids).Ok?
    ensures r in AddressValues(prim, BuildIndex(objs), ids).value <==> NamesLeafOf(prim, objs, ids, r)
  {
    if ids != [] {
      hide NamesLeafOf, NamesOneOf, IndexChecked, LeafValues, Resolve, BuildIndex;
      var init, id := ids[..|ids| - 1], ids[|ids| - 1];
      assert ids == init + [id];
      AddressEvidence(prim, objs, init, r);
      LeavesChecked(BuildIndex(objs), id);
      LeafEvidence(prim, Resolve(BuildIndex(objs), id, 0).value, r);
      NamesLeafSnoc(prim, objs, init, id, r);
    }
  }

  /** Operand by operand: the entries of the first operands come first, then those of the leaves of the last one. */
  lemma AddressesInOrder(prim: Primitives, g: GroupIndex, ids: seq<int>, id: int)
    requires IndexChecked(g) && AddressValues(prim, g, ids + [id]).Ok?
    ensures Resolve(g, id, 0).Ok? && AddressValues(prim, g, ids).Ok?
    ensures var leaves, before := Resolve(g, id, 0).value, AddressValues(prim, g, ids).value;
      && |AddressValues(prim, g, ids + [id]).value| == |before| + |leaves|
      && before <= AddressValues(prim, g, ids + [id]).value
      && forall i :: 0 <= i < |leaves| ==>
        NamesObject(prim, leaves[i], AddressValues(prim, g, ids + [id]).value[|before| + i])
  {
    hide NamesObject, LeafValues, Resolve, IndexChecked;
    assert (ids + [id])[..|ids|] == ids;
    LeavesChecked(g, id);
    LeafEntries(prim, Resolve(g, id, 0).value);
  }

  /** A value of a service: one of its port ranges, its set of codes, or the protocol as such. */
  ghost predicate ServicePart(prim: Primitives, s: Service, v: Value) {
    match s.proto
    case Tcp => v.Ports? && v.tcp && s.ranges.Some? && (v.portStart, v.portEnd) in s.ranges.value
    case Udp => v.Ports? && !v.tcp && s.ranges.Some? && (v.portStart, v.portEnd) in s.ranges.value
    case Icmp => v.IcmpCodes? && s.codes.Some? &&
      forall code :: code in v.codes <==> exists c :: c in s.codes.value && prim.normText(c) == code
    case AnyProto => v == AnyService
    case IpIp => v == IpIpService
  }

  /** The entry for a service: one of its values, under its own id, name and display text. */
  ghost predicate NamesService(prim: Primitives, s: Service, r: Resolved) {
    ServicePart(prim, s, r.value) && r.evidence == Evidence(s.id, s.name, prim.display(r.value))
  }

  lemma ServiceParts(prim: Primitives, s: Service, v: Value)
    requires ServiceChecked(s) && ServiceValues(prim, s).Ok?
    ensures v in ServiceValues(prim, s).value <==> ServicePart(prim, s, v)
  {
    var values := ServiceValues(prim, s).value;
    if s.proto.Tcp? || s.proto.Udp? {
      var ranges := s.ranges.value;
      PortValuesMeaning(s.id, s.proto.Tcp?, ranges);
      if ServicePart(prim, s, v) {
        var i :| 0 <= i < |ranges| && ranges[i] == (v.portStart, v.portEnd);
        assert values[i] == v;
      }
      if v in values {
        var i :| 0 <= i < |values| && values[i] == v;
        assert ranges[i] == (v.portStart, v.portEnd);
      }
    } else if s.proto.Icmp? {
      var codes := set c | c in s.codes.value :: prim.normText(c);
      assert values == [IcmpCodes(codes)];
      if ServicePart(prim, s, v) { assert v.codes == codes; }
    }
  }

  lemma ServiceEntries(prim: Primitives, s: Service, r: Resolved)
    requires ServiceChecked(s) && ServiceValues(prim, s).Ok?
    ensures r in WithEvidence(prim, s, ServiceValues(prim, s).value) <==> NamesService(prim, s, r)
  {
    hide ServiceValues, ServicePart;
    var values := ServiceValues(prim, s).value;
    var entries := WithEvidence(prim, s, values);
    ServiceParts(prim, s, r.value);
    if NamesService(prim, s, r) {
      var i :| 0 <= i < |values| && values[i] == r.value;
      assert entries[i] == r;
    }
  }

  ghost predicate NamesListedService(prim: Primitives, c: Catalog, ids: seq<int>, r: Resolved) {
    exists id, s :: id in ids && Denotes(ServiceId, c.services, id, s) && NamesService(prim, s, r)
  }

  /** The entries of a service operand list are exactly those of the services it denotes. */
  lemma {:induction false} ServiceEvidence(prim: Primitives, c: Catalog, ids: seq<int>, r: Resolved)
    requires CatalogChecked(c) && AllServiceValues(prim, ServicesById(c.services), ids).Ok?
    ensures r in AllServiceValues(prim, ServicesById(c.services), ids).value <==> NamesListedService(prim, c, ids, r)
  {
    if ids != [] {
      hide NamesService, ServiceValues, WithEvidence, ServicesById, Denotes;
      var byId, init, id := ServicesById(c.services), ids[..|ids| - 1], ids[|ids| - 1];
      assert ids == init + [id];
      ServiceEvidence(prim, c, init, r);
      DenotedService(c, id);
      ServiceEntries(prim, byId[id], r);
      ListedServiceSplit(prim, c, init, id, byId[id], r);
    }
  }

  lemma ListedServiceSplit(prim: Primitives, c: Catalog, ids: seq<int>, id: int, s: Service, r: Resolved)
    requires Denotes(ServiceId, c.services, id, s)
    ensures NamesListedService(prim, c, ids + [id], r) <==>
      NamesListedService(prim, c, ids, r) || NamesService(prim, s, r)
  {
    hide Denotes, NamesService;
    assert forall i :: i in ids + [id] <==> i in ids || i == id;
    forall x | Denotes(ServiceId, c.services, id, x) ensures x == s { DenotesOne(ServiceId, c.services, id, x, s); }
  }

  /** Service by service, and within a TCP or UDP service range by range. */
  lemma ServicesInOrder(prim: Primitives, c: Catalog, ids: seq<int>, id: int)
    requires CatalogChecked(c) && AllServiceValues(prim, ServicesById(c.services), ids + [id]).Ok?
    ensures id in ServicesById(c.services) && AllServiceValues(prim, ServicesById(c.services), ids).Ok?
    ensures var s := ServicesById(c.services)[id];
      var all := AllServiceValues(prim, ServicesById(c.services), ids + [id]).value;
      var before := AllServiceValues(prim, ServicesById(c.services), ids).value;
      var own := all[|before|..];
      && before <= all && own != [] && (forall r | r in own :: NamesService(prim, s, r))
      && (s.proto.Tcp? || s.proto.Udp? ==>
            |own| == |s.ranges.value| && forall i :: 0 <= i < |own| ==>
              own[i].value == Ports(s.proto.Tcp?, s.ranges.value[i].0, s.ranges.value[i].1))
  {
    hide ServicesById, NamesService;
    assert (ids + [id])[..|ids|] == ids;
    DenotedService(c, id);
    var s := ServicesById(c.services)[id];
    var values := ServiceValues(prim, s).value;
    forall r | r in WithEvidence(prim, s, values) ensures NamesService(prim, s, r) { ServiceEntries(prim, s, r); }
    if s.proto.Tcp? || s.proto.Udp? { PortValuesMeaning(s.id, s.proto.Tcp?, s.ranges.value); }
  }

  /** The details reported for one field, as covering groups. */
  function DetailsOf(details: seq<CoverageDetail>, field: CoverageField): seq<CoverGroup> {
    if details == [] then []
    else (if details[0].field == field
      then [CoverGroup(details[0].covering, details[0].covered)] else []) + DetailsOf(details[1..], field)
  }

  lemma DetailsOfHead(details: seq<CoverageDetail>, field: CoverageField) returns (head: seq<CoverGroup>)
    requires details != []
    ensures head ==
      if details[0].field == field then [CoverGroup(details[0].covering, details[0].covered)] else []
    ensures DetailsOf(details, field) == head + DetailsOf(details[1..], field)
  {
    head := if details[0].field == field then [CoverGroup(details[0].covering, details[0].covered)] else [];
  }

  lemma {:induction false} DetailsOfConcat(a: seq<CoverageDetail>, b: seq<CoverageDetail>, field: CoverageField)
    ensures DetailsOf(a + b, field) == DetailsOf(a, field) + DetailsOf(b, field)
  {
    if a == [] {
      assert a + b == b;
    } else {
      hide DetailsOf;
      var whole := a + b;
      assert whole[0] == a[0] && whole[1..] == a[1..] + b;
      var head := DetailsOfHead(a, field);
      var first := DetailsOfHead(whole, field);
      DetailsOfConcat(a[1..], b, field);
    }
  }

  lemma {:induction false} DetailsOfField(field: CoverageField, groups: seq<CoverGroup>, other: CoverageField)
    ensures DetailsOf(Details(field, groups), other) == if field == other then groups else []
  {
    if groups != [] {
      assert Details(field, groups)[1..] == Details(field, groups[1..]);
      DetailsOfField(field, groups[1..], other);
    }
  }

  /** The evidence of each field is that of its own value lists; without coverage nothing is reported. */
  lemma EvidenceByField(existing: ResolvedValues, planned: ResolvedValues)
    ensures var a := AnalyzeCoverage(existing, planned);
      && (!a.isCovered ==> a.details == [])
      && (a.isCovered ==>
            && Some(DetailsOf(a.details, SrcAddrObjects)) == AnalyzeValues(existing.srcAddrs, planned.srcAddrs)
            && Some(DetailsOf(a.details, DstAddrObjects)) == AnalyzeValues(existing.dstAddrs, planned.dstAddrs)
            && Some(DetailsOf(a.details, ServicesField)) == AnalyzeValues(existing.services, planned.services))
  {
    hide AnalyzeValues, Details, DetailsOf, StrSetCovers;
    if AnalyzeCoverage(existing, planned).isCovered {
      ThreeFields(AnalyzeValues(existing.srcAddrs, planned.srcAddrs).value,
                  AnalyzeValues(existing.dstAddrs, planned.dstAddrs).value,
                  AnalyzeValues(existing.services, planned.services).value);
    }
  }

  lemma ThreeFields(src: seq<CoverGroup>, dst: seq<CoverGroup>, services: seq<CoverGroup>)
    ensures var all := Details(SrcAddrObjects, src) + Details(DstAddrObjects, dst) + Details(ServicesField, services);
      DetailsOf(all, SrcAddrObjects) == src && DetailsOf(all, DstAddrObjects) == dst &&
        DetailsOf(all, ServicesField) == services
  {
    hide Details, DetailsOf;
    var a, b, c := Details(SrcAddrObjects, src), Details(DstAddrObjects, dst), Details(ServicesField, services);
    forall field ensures DetailsOf(a + b + c, field) ==
      (if field == SrcAddrObjects then src else []) + (if field == DstAddrObjects then dst else [])
      + (if field == ServicesField then services else [])
    {
      DetailsOfConcat(a + b, c, field);
      DetailsOfConcat(a, b, field);
      DetailsOfField(SrcAddrObjects, src, field);
      DetailsOfField(DstAddrObjects, dst, field);
      DetailsOfField(ServicesField, services, field);
    }
  }

  /** REJECT and DROP count as one action, and nothing else is identified. */
  lemma ActionsIdentified(a: Action, b: Action)
    ensures NormalizeAction(a) == NormalizeAction(b) <==> a == b || (!a.Accept? && !b.Accept?)
    ensures NormalizeAction(a).Accept? <==> a.Accept?
  {
  }
}
