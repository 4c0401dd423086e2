/** Normalised values mean exactly the traffic the rule matches in the catalog. */
module RuleMeaning {
  import opened CatalogModels
  import opened Collections
  import opened AddressGroups
  import opened RuleValues
  import opened Rules

  ghost predicate AnyMatches(values: seq<Resolved>, p: Point) {
    exists r :: r in values && Matches(r.value, p)
  }

  ghost predicate SetMatches(values: set<Value>, p: Point) {
    exists v :: v in values && Matches(v, p)
  }

  ghost predicate AllValid(values: seq<Resolved>) {
    forall r | r in values :: Valid(r.value)
  }

  /** The same as `AddressListed`, over the resolver's dictionaries. */
  ghost predicate AddressIndexed(prim: Primitives, g: GroupIndex, ids: seq<int>, p: Point) {
    exists id, o :: id in ids && LeafBelow(g, id, o) && StandsFor(prim, o, p)
  }

  lemma IndexedIsListed(prim: Primitives, objs: seq<AddrObject>, ids: seq<int>, p: Point)
    ensures AddressIndexed(prim, BuildIndex(objs), ids, p) <==> AddressListed(prim, objs, ids, p)
  {
    hide LeafBelow, LeafOf, StandsFor, BuildIndex;
    forall id, o ensures LeafBelow(BuildIndex(objs), id, o) <==> LeafOf(objs, id, o) { IndexLeaves(objs, id, o); }
  }

  /** The traffic a normalised rule stands for. */
  ghost predicate ValuesMatch(emptyIsAny: bool, n: NormalizedValues, t: Traffic) {
    && ((emptyIsAny && n.srcZones == {}) || t.srcZone in n.srcZones)
    && ((emptyIsAny && n.dstZones == {}) || t.dstZone in n.dstZones)
    && ((emptyIsAny && n.srcAddrs == {}) || SetMatches(n.srcAddrs, t.src))
    && ((emptyIsAny && n.dstAddrs == {}) || SetMatches(n.dstAddrs, t.dst))
    && ((emptyIsAny && n.services == {}) || SetMatches(n.services, t.service))
  }

  lemma LeafValueMeaning(prim: Primitives, o: AddrObject)
    requires AddrChecked(o) && LeafValue(prim, o).Ok?
    ensures Valid(LeafValue(prim, o).value)
    ensures forall p :: Matches(LeafValue(prim, o).value, p) <==> StandsFor(prim, o, p)
  {
    match o.body
    case Prefix(n) => BroadcastInSpace(n);
    case NetworkRef(_, n) => BroadcastInSpace(n);
    case _ =>
  }

  lemma AppendMatches(a: seq<Resolved>, b: seq<Resolved>, p: Point)
    ensures AnyMatches(a + b, p) <==> AnyMatches(a, p) || AnyMatches(b, p)
  {
    if AnyMatches(a, p) {
      var r :| r in a && Matches(r.value, p);
      assert r in a + b;
    }
    if AnyMatches(b, p) {
      var r :| r in b && Matches(r.value, p);
      assert r in a + b;
    }
  }

  lemma MatchesAlone(v: Resolved, p: Point)
    ensures AnyMatches([v], p) <==> Matches(v.value, p)
  {
    assert v in [v];
  }

  ghost predicate SomeStandsFor(prim: Primitives, objs: seq<AddrObject>, p: Point) {
    exists o :: o in objs && StandsFor(prim, o, p)
  }

  lemma SomeStandsForSplit(prim: Primitives, objs: seq<AddrObject>, last: AddrObject, p: Point)
    ensures SomeStandsFor(prim, objs + [last], p) <==> SomeStandsFor(prim, objs, p) || StandsFor(prim, last, p)
  {
    hide StandsFor;
    if SomeStandsFor(prim, objs, p) {
      var o :| o in objs && StandsFor(prim, o, p);
      assert o in objs + [last];
    }
    if StandsFor(prim, last, p) { assert last in objs + [last]; }
  }

  lemma LeafValuesSnoc(prim: Primitives, leaves: seq<AddrObject>) returns (r: Resolved)
    requires leaves != [] && (forall o | o in leaves :: AddrChecked(o)) && LeafValues(prim, leaves).Ok?
    ensures var init, last := leaves[..|leaves| - 1], leaves[|leaves| - 1];
      && LeafValues(prim, init).Ok? && LeafValues(prim, leaves).value == LeafValues(prim, init).value + [r]
      && LeafValue(prim, last) == Ok(r.value)
  {
    hide LeafValue, AddrChecked;
    r := LeafValues(prim, leaves).value[|LeafValues(prim, leaves).value| - 1];
  }

  lemma {:induction false} LeafValuesMeaning(prim: Primitives, leaves: seq<AddrObject>, p: Point)
    requires (forall o | o in leaves :: AddrChecked(o)) && LeafValues(prim, leaves).Ok?
    ensures |LeafValues(prim, leaves).value| == |leaves| && AllValid(LeafValues(prim, leaves).value)
    ensures AnyMatches(LeafValues(prim, leaves).value, p) <==> SomeStandsFor(prim, leaves, p)
  {
    if leaves != [] {
      hide StandsFor, AnyMatches, LeafValue, LeafValues, SomeStandsFor, AddrChecked, Matches;
      var init, last := leaves[..|leaves| - 1], leaves[|leaves| - 1];
      assert leaves == init + [last];
      assert forall o | o in init :: o in leaves;
      var r := LeafValuesSnoc(prim, leaves);
      LeafValuesMeaning(prim, init, p);
      LeafValueMeaning(prim, last);
      AppendMatches(LeafValues(prim, init).value, [r], p);
      MatchesAlone(r, p);
      SomeStandsForSplit(prim, init, last, p);
    }
  }

  lemma ResolvedLeaves(prim: Primitives, g: GroupIndex, id: int, p: Point)
    requires IndexChecked(g) && Resolve(g, id, 0).Ok?
    ensures SomeStandsFor(prim, Resolve(g, id, 0).value, p) <==> AddressIndexed(prim, g, [id], p)
  {
    hide LeafBelow, StandsFor;
    forall o ensures o in Resolve(g, id, 0).value <==> LeafBelow(g, id, o) { ResolveLeavesExact(g, id, 0, o); }
    assert id in [id];
  }

  lemma AddressIndexedSplit(prim: Primitives, g: GroupIndex, ids: seq<int>, id: int, p: Point)
    ensures AddressIndexed(prim, g, ids + [id], p) <==>
      AddressIndexed(prim, g, ids, p) || AddressIndexed(prim, g, [id], p)
  {
    hide LeafBelow, StandsFor;
    assert forall i :: i in ids + [id] <==> i in ids || i in [id];
  }

  /** Address operands mean the leaves below them; no operand resolves to nothing. */
  lemma {:induction false} AddressValuesMeaning(prim: Primitives, g: GroupIndex, ids: seq<int>, p: Point)
    requires IndexChecked(g) && AddressValues(prim, g, ids).Ok?
    ensures AllValid(AddressValues(prim, g, ids).value)
    ensures AddressValues(prim, g, ids).value == [] <==> ids == []
    ensures AnyMatches(AddressValues(prim, g, ids).value, p) <==> AddressIndexed(prim, g, ids, p)
  {
    if ids != [] {
      hide LeafBelow, AddressIndexed, AnyMatches, StandsFor, IndexChecked;
      var init, id := ids[..|ids| - 1], ids[|ids| - 1];
      assert ids == init + [id];
      AddressValuesMeaning(prim, g, init, p);
      LeavesChecked(g, id);
      var leaves := Resolve(g, id, 0).value;
      LeafValuesMeaning(prim, leaves, p);
      ResolvedLeaves(prim, g, id, p);
      ResolveNonEmpty(g, id, 0);
      AppendMatches(AddressValues(prim, g, init).value, LeafValues(prim, leaves).value, p);
      AddressIndexedSplit(prim, g, init, id, p);
    } else {
      assert !AnyMatches([], p) && !AddressIndexed(prim, g, [], p);
    }
  }

  lemma {:induction false} PortValuesMeaning(id: int, tcp: bool, ranges: seq<(int, int)>)
    requires PortValues(id, tcp, ranges).Ok?
    ensures |PortValues(id, tcp, ranges).value| == |ranges|
    ensures forall i :: 0 <= i < |ranges| ==>
      PortValues(id, tcp, ranges).value[i] == Ports(tcp, ranges[i].0, ranges[i].1) &&
        Valid(PortValues(id, tcp, ranges).value[i])
  {
    if ranges != [] {
      PortValuesMeaning(id, tcp, ranges[..|ranges| - 1]);
    }
  }

  lemma ServiceValuesMeaning(prim: Primitives, s: Service, p: Point)
    requires ServiceChecked(s) && ServiceValues(prim, s).Ok?
    ensures ServiceValues(prim, s).value != [] && forall v | v in ServiceValues(prim, s).value :: Valid(v)
    ensures (exists v :: v in ServiceValues(prim, s).value && Matches(v, p)) <==> ServiceMatches(prim, s, p)
  {
    var values := ServiceValues(prim, s).value;
    if s.proto.Tcp? || s.proto.Udp? {
      var ranges := s.ranges.value;
      PortValuesMeaning(s.id, s.proto.Tcp?, ranges);
      if ServiceMatches(prim, s, p) {
        var port := if p.TcpPoint? then p.tcpPort else p.udpPort;
        var r :| r in ranges && r.0 <= port <= r.1;
        var i :| 0 <= i < |ranges| && ranges[i] == r;
        assert values[i] in values && Matches(values[i], p);
      }
      forall v | v in values && Matches(v, p) ensures ServiceMatches(prim, s, p) {
        var i :| 0 <= i < |values| && values[i] == v;
        assert ranges[i] in ranges;
      }
    } else {
      assert values[0] in values;
      if s.proto.Icmp? { assert prim.normText(s.codes.value[0]) in values[0].codes; }
    }
  }

  lemma WithEvidenceMeaning(prim: Primitives, s: Service, values: seq<Value>, p: Point)
    ensures AnyMatches(WithEvidence(prim, s, values), p) <==> exists v :: v in values && Matches(v, p)
    ensures AllValid(WithEvidence(prim, s, values)) <==> forall v | v in values :: Valid(v)
  {
    var rs := WithEvidence(prim, s, values);
    forall v | v in values ensures exists r :: r in rs && r.value == v {
      var i :| 0 <= i < |values| && values[i] == v;
      assert rs[i] in rs;
    }
    forall r | r in rs ensures r.value in values {}
  }

  lemma DenotedService(c: Catalog, id: int)
    requires CatalogChecked(c) && id in ServicesById(c.services)
    ensures Denotes(ServiceId, c.services, id, ServicesById(c.services)[id])
    ensures ServiceChecked(ServicesById(c.services)[id])
  {
    ByIdDenotes(ServiceId, c.services, id);
    DenotedIsListed(ServiceId, c.services, id, ServicesById(c.services)[id]);
  }

  lemma ServiceListedSplit(prim: Primitives, c: Catalog, ids: seq<int>, id: int, s: Service, p: Point)
    requires Denotes(ServiceId, c.services, id, s)
    ensures ServiceListed(prim, c, ids + [id], p) <==> ServiceListed(prim, c, ids, p) || ServiceMatches(prim, s, p)
  {
    hide Denotes, ServiceMatches;
    assert forall i :: i in ids + [id] <==> i in ids || i == id;
    forall x | Denotes(ServiceId, c.services, id, x) ensures x == s { DenotesOne(ServiceId, c.services, id, x, s); }
  }

  lemma ZoneListedSplit(prim: Primitives, c: Catalog, ids: seq<int>, id: int, z: Zone, name: string)
    requires Denotes(ZoneId, c.zones, id, z)
    ensures ZoneListed(prim, c, ids + [id], name) <==> ZoneListed(prim, c, ids, name) || prim.normText(z.name) == name
  {
    hide Denotes;
    assert forall i :: i in ids + [id] <==> i in ids || i == id;
    forall x | Denotes(ZoneId, c.zones, id, x) ensures x == z { DenotesOne(ZoneId, c.zones, id, x, z); }
  }

  lemma {:induction false} AllServiceValuesMeaning(prim: Primitives, c: Catalog, ids: seq<int>, p: Point)
    requires CatalogChecked(c) && AllServiceValues(prim, ServicesById(c.services), ids).Ok?
    ensures AllValid(AllServiceValues(prim, ServicesById(c.services), ids).value)
    ensures AllServiceValues(prim, ServicesById(c.services), ids).value == [] <==> ids == []
    ensures AnyMatches(AllServiceValues(prim, ServicesById(c.services), ids).value, p) <==>
      ServiceListed(prim, c, ids, p)
  {
    if ids != [] {
      hide AnyMatches, ServiceMatches, ServiceValues, Denotes;
      var byId := ServicesById(c.services);
      var init, id := ids[..|ids| - 1], ids[|ids| - 1];
      assert ids == init + [id];
      AllServiceValuesMeaning(prim, c, init, p);
      var values := ServiceValues(prim, byId[id]).value;
      DenotedService(c, id);
      ServiceValuesMeaning(prim, byId[id], p);
      WithEvidenceMeaning(prim, byId[id], values, p);
      AppendMatches(AllServiceValues(prim, byId, init).value, WithEvidence(prim, byId[id], values), p);
      ServiceListedSplit(prim, c, init, id, byId[id], p);
    }
  }

  lemma {:induction false} ZoneNamesMeaning(prim: Primitives, c: Catalog, ids: seq<int>)
    requires ZoneNames(prim, ZonesById(c.zones), ids).Ok?
    ensures forall name :: name in ZoneNames(prim, ZonesById(c.zones), ids).value <==> ZoneListed(prim, c, ids, name)
    ensures ZoneNames(prim, ZonesById(c.zones), ids).value == {} <==> ids == []
  {
    if ids != [] {
      hide Denotes;
      var byId, init, id := ZonesById(c.zones), ids[..|ids| - 1], ids[|ids| - 1];
      assert ids == init + [id];
      ZoneNamesMeaning(prim, c, init);
      ByIdDenotes(ZoneId, c.zones, id);
      forall name ensures ZoneListed(prim, c, ids, name) <==>
        ZoneListed(prim, c, init, name) || prim.normText(byId[id].name) == name
      {
        ZoneListedSplit(prim, c, init, id, byId[id], name);
      }
    }
  }

  // ----- dropping repeated values

  lemma {:induction false} DistinctKeepsValues(values: seq<Resolved>)
    ensures ValueSet(DistinctValues(values)) == ValueSet(values)
    ensures forall r | r in DistinctValues(values) :: r in values
  {
    if values != [] {
      var init, last := values[..|values| - 1], values[|values| - 1];
      assert values == init + [last];
      DistinctKeepsValues(init);
      var done := DistinctValues(init);
      if Signed(done, SignatureOf(last.value)) {
        var r :| r in done && SignatureOf(r.value) == SignatureOf(last.value);
        SignatureInjective(r.value, last.value);
        assert last.value in ValueSet(done);
      }
      assert ValueSet(values) == ValueSet(init) + {last.value};
      assert ValueSet(done + [last]) == ValueSet(done) + {last.value};
    }
  }

  /** The place of the first object with each value, in order. */
  ghost predicate FirstValues(kept: seq<Resolved>, values: seq<Resolved>, at: seq<nat>) {
    && |kept| == |at|
    && (forall k :: 0 <= k < |at| ==> at[k] < |values| && kept[k] == values[at[k]] && IsFirst(values, at[k]))
    && (forall i, j :: 0 <= i < j < |at| ==> at[i] < at[j])
    && (forall i: nat :: i < |values| && IsFirst(values, i) ==> i in at)
  }

  predicate IsFirst(values: seq<Resolved>, i: nat)
    requires i < |values|
  {
    forall j :: 0 <= j < i ==> values[j].value != values[i].value
  }

  /** Of each value the first object is kept, in the order of the list. */
  lemma {:induction false} DistinctKeepsFirst(values: seq<Resolved>) returns (at: seq<nat>)
    ensures FirstValues(DistinctValues(values), values, at)
  {
    at := [];
    if values != [] {
      hide DistinctValues, FirstValues, IsFirst, Signed;
      var n := |values| - 1;
      var init, last := values[..n], values[n];
      at := DistinctKeepsFirst(init);
      assert values == init + [last];
      FirstOrSigned(init, last);
      DistinctSnoc(init, last);
      PlacesNext(DistinctValues(init), init, last, at);
      if IsFirst(values, n) { at := at + [n]; }
    } else {
      NoPlaces();
    }
  }

  lemma NoPlaces()
    ensures FirstValues(DistinctValues([]), [], [])
  {
  }

  lemma DistinctSnoc(init: seq<Resolved>, last: Resolved)
    ensures DistinctValues(init + [last]) ==
      if Signed(DistinctValues(init), SignatureOf(last.value)) then DistinctValues(init)
      else DistinctValues(init) + [last]
  {
    assert (init + [last])[..|init|] == init;
  }

  lemma PlacesNext(kept: seq<Resolved>, init: seq<Resolved>, last: Resolved, at: seq<nat>)
    requires FirstValues(kept, init, at)
    ensures if IsFirst(init + [last], |init|) then FirstValues(kept + [last], init + [last], at + [|init|])
      else FirstValues(kept, init + [last], at)
  {
    var values := init + [last];
    assert forall i :: 0 <= i < |init| ==> values[i] == init[i];
    forall i: nat | i < |init| ensures IsFirst(values, i) <==> IsFirst(init, i) {
      if IsFirst(init, i) {
        forall j | 0 <= j < i ensures values[j].value != values[i].value { assert init[j].value != init[i].value; }
      }
      if IsFirst(values, i) {
        forall j | 0 <= j < i ensures init[j].value != init[i].value { assert values[j].value != values[i].value; }
      }
    }
  }

  lemma FirstOrSigned(init: seq<Resolved>, last: Resolved)
    ensures IsFirst(init + [last], |init|) <==> !Signed(DistinctValues(init), SignatureOf(last.value))
  {
    var done := DistinctValues(init);
    DistinctKeepsValues(init);
    if Signed(done, SignatureOf(last.value)) {
      var r :| r in done && SignatureOf(r.value) == SignatureOf(last.value);
      SignatureInjective(r.value, last.value);
      var j :| 0 <= j < |init| && init[j] == r;
      assert (init + [last])[j].value == last.value;
    }
    forall j | 0 <= j < |init| && init[j].value == last.value ensures Signed(done, SignatureOf(last.value)) {
      assert init[j].value in ValueSet(init);
      var r :| r in done && r.value == last.value;
    }
  }

  lemma SetMatchesAny(values: seq<Resolved>, p: Point)
    ensures SetMatches(ValueSet(values), p) <==> AnyMatches(values, p)
    ensures ValueSet(values) == {} <==> values == []
  {
    if AnyMatches(values, p) {
      var r :| r in values && Matches(r.value, p);
      assert r.value in ValueSet(values);
    }
    if values != [] { assert values[0].value in ValueSet(values); }
  }

  lemma DistinctMatches(values: seq<Resolved>, p: Point)
    ensures SetMatches(ValueSet(DistinctValues(values)), p) <==> AnyMatches(values, p)
    ensures ValueSet(DistinctValues(values)) == {} <==> values == []
    ensures AllValid(values) ==> AllValid(DistinctValues(values))
  {
    DistinctKeepsValues(values);
    SetMatchesAny(values, p);
  }

  /** Resolution keeps the meaning of a rule, under either reading of empty operand lists. */
  lemma ResolveKeepsMeaning(prim: Primitives, c: Catalog, emptyIsAny: bool, r: RuleBody, t: Traffic)
    requires CatalogChecked(c) && ResolveIn(prim, c, r).Ok?
    ensures ValuesMatch(emptyIsAny, ResolveIn(prim, c, r).value.normalized, t)
      <==> RuleMatches(prim, c, emptyIsAny, r, t)
  {
    hide DistinctValues, ValueSet, SetMatches, AnyMatches, AddressListed, AddressIndexed, ServiceListed, ZoneListed,
      IndexChecked;
    LookupOfChecked(c);
    IndexedIsListed(prim, c.objects, r.srcAddrs, t.src);
    IndexedIsListed(prim, c.objects, r.dstAddrs, t.dst);
    var g, services := BuildIndex(c.objects), ServicesById(c.services);
    AddressValuesMeaning(prim, g, r.srcAddrs, t.src);
    AddressValuesMeaning(prim, g, r.dstAddrs, t.dst);
    AllServiceValuesMeaning(prim, c, r.services, t.service);
    ZoneNamesMeaning(prim, c, r.srcZones);
    ZoneNamesMeaning(prim, c, r.dstZones);
    DistinctMatches(AddressValues(prim, g, r.srcAddrs).value, t.src);
    DistinctMatches(AddressValues(prim, g, r.dstAddrs).value, t.dst);
    DistinctMatches(AllServiceValues(prim, services, r.services).value, t.service);
  }

  /** Every value of a resolved rule is well formed and the value sets are those of the lists. */
  ghost predicate WellResolved(v: ResolvedValues) {
    && AllValid(v.srcAddrs) && AllValid(v.dstAddrs) && AllValid(v.services)
    && v.normalized.srcAddrs == ValueSet(v.srcAddrs)
    && v.normalized.dstAddrs == ValueSet(v.dstAddrs)
    && v.normalized.services == ValueSet(v.services)
  }

  lemma ResolveWell(prim: Primitives, c: Catalog, r: RuleBody)
    requires CatalogChecked(c) && ResolveIn(prim, c, r).Ok?
    ensures WellResolved(ResolveIn(prim, c, r).value)
    ensures ResolveIn(prim, c, r).value.normalized.action == NormalizeAction(r.action)
  {
    hide DistinctValues, ValueSet, IndexChecked;
    LookupOfChecked(c);
    var g, services := BuildIndex(c.objects), ServicesById(c.services);
    var p := NamePoint("");
    AddressValuesMeaning(prim, g, r.srcAddrs, p);
    AddressValuesMeaning(prim, g, r.dstAddrs, p);
    AllServiceValuesMeaning(prim, c, r.services, p);
    DistinctMatches(AddressValues(prim, g, r.srcAddrs).value, p);
    DistinctMatches(AddressValues(prim, g, r.dstAddrs).value, p);
    DistinctMatches(AllServiceValues(prim, services, r.services).value, p);
  }
}
