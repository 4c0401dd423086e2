/** The resolver object: dictionaries built once, then rules resolved one by one. */
module RuleResolver {
  import opened CatalogModels
  import opened Collections
  import opened AddressGroups
  import opened RuleValues
  import opened Rules

  /** The rule resolver of one catalog. */
  class RuleValuesResolver {
    const prim: Primitives
    var zonesById: map<int, Zone>
    var servicesById: map<int, Service>
    var groups: LeavesResolver

    function CurrentLookup(): Lookup
      reads this, groups
    {
      Lookup(zonesById, servicesById, groups.Index())
    }

    constructor (prim: Primitives, c: Catalog)
      ensures this.prim == prim && CurrentLookup() == LookupOf(c) && fresh(groups)
      ensures forall id, z :: id in zonesById && zonesById[id] == z <==> Denotes(ZoneId, c.zones, id, z)
      ensures forall id, s :: id in servicesById && servicesById[id] == s <==> Denotes(ServiceId, c.services, id, s)
    {
      this.prim := prim;
      zonesById := ZonesById(c.zones);
      servicesById := ServicesById(c.services);
      groups := new LeavesResolver(c.objects);
      AllDenoted(ZoneId, c.zones);
      AllDenoted(ServiceId, c.services);
    }

    method NormalizeZones(ids: seq<int>) returns (r: Result<set<string>, NormalizationError>)
      ensures r == ZoneNames(prim, zonesById, ids)
    {
      var values: set<string> := {};
      for i := 0 to |ids|
        invariant ZoneNames(prim, zonesById, ids[..i]) == Ok(values)
      {
        assert ids[..i + 1][..i] == ids[..i];
        if ids[i] !in zonesById {
          ZoneErrorStays(prim, zonesById, ids, i + 1);
          return Err(UnknownZone(ids[i]));
        }
        values := values + {prim.normText(zonesById[ids[i]].name)};
      }
      assert ids[..|ids|] == ids;
      return Ok(values);
    }

    method ResolveAddressValues(ids: seq<int>) returns (r: Result<seq<Resolved>, NormalizationError>)
      requires LookupChecked(CurrentLookup())
      ensures r == DistinctResult(AddressValues(prim, groups.Index(), ids))
    {
      var values: seq<Resolved> := [];
      for i := 0 to |ids|
        invariant AddressValues(prim, groups.Index(), ids[..i]) == Ok(values)
      {
        assert ids[..i + 1][..i] == ids[..i];
        AddressErrorStays(prim, groups.Index(), ids, i + 1);
        var leaves := groups.ResolveLeaves(ids[i]);
        if leaves.Err? {
          return Err(Unresolved(leaves.error));
        }
        LeavesChecked(groups.Index(), ids[i]);
        var resolved := LeafValues(prim, leaves.value);
        if resolved.Err? {
          return resolved;
        }
        values := values + resolved.value;
      }
      assert ids[..|ids|] == ids;
      var distinct := DistinctResolvedValues(values);
      return Ok(distinct);
    }

    method ResolveServiceValues(ids: seq<int>) returns (r: Result<seq<Resolved>, NormalizationError>)
      ensures r == DistinctResult(AllServiceValues(prim, servicesById, ids))
    {
      var values: seq<Resolved> := [];
      for i := 0 to |ids|
        invariant AllServiceValues(prim, servicesById, ids[..i]) == Ok(values)
      {
        assert ids[..i + 1][..i] == ids[..i];
        ServiceErrorStays(prim, servicesById, ids, i + 1);
        if ids[i] !in servicesById {
          return Err(UnknownService(ids[i]));
        }
        var service := servicesById[ids[i]];
        var resolved := ServiceValues(prim, service);
        if resolved.Err? {
          return Err(resolved.error);
        }
        values := values + WithEvidence(prim, service, resolved.value);
      }
      assert ids[..|ids|] == ids;
      var distinct := DistinctResolvedValues(values);
      return Ok(distinct);
    }

    /** Addresses, services, zones, in that order; the first error is returned. */
    method Resolve(rule: RuleBody) returns (r: Result<ResolvedValues, NormalizationError>)
      requires LookupChecked(CurrentLookup())
      ensures r == ResolveRule(prim, CurrentLookup(), rule)
    {
      var src := ResolveAddressValues(rule.srcAddrs);
      if src.Err? { return Err(src.error); }
      var dst := ResolveAddressValues(rule.dstAddrs);
      if dst.Err? { return Err(dst.error); }
      var services := ResolveServiceValues(rule.services);
      if services.Err? { return Err(services.error); }
      var srcZones := NormalizeZones(rule.srcZones);
      if srcZones.Err? { return Err(srcZones.error); }
      var dstZones := NormalizeZones(rule.dstZones);
      if dstZones.Err? { return Err(dstZones.error); }
      return Ok(ResolvedValues(
        NormalizedValues(NormalizeAction(rule.action), srcZones.value, dstZones.value,
                         ValueSet(src.value), ValueSet(dst.value), ValueSet(services.value)),
        src.value, dst.value, services.value));
    }
  }

  ghost function DistinctResult(
    r: Result<seq<Resolved>, NormalizationError>): Result<seq<Resolved>, NormalizationError> {
    if r.Ok? then Ok(DistinctValues(r.value)) else r
  }

  /** Ordered dictionary keyed by signature: the first object of each value stays. */
  method DistinctResolvedValues(values: seq<Resolved>) returns (unique: seq<Resolved>)
    ensures unique == DistinctValues(values)
  {
    unique := [];
    var keys: set<Signature> := {};
    for i := 0 to |values|
      invariant unique == DistinctValues(values[..i])
      invariant forall s :: s in keys <==> Signed(unique, s)
    {
      var key := SignatureOf(values[i].value);
      assert values[..i + 1][..i] == values[..i];
      if key !in keys {
        SignedSnoc(unique, values[i]);
        unique := unique + [values[i]];
        keys := keys + {key};
      }
    }
    assert values[..|values|] == values;
  }

  lemma SignedSnoc(values: seq<Resolved>, v: Resolved)
    ensures forall s :: Signed(values + [v], s) <==> Signed(values, s) || s == SignatureOf(v.value)
  {
    assert forall r :: r in values + [v] <==> r in values || r == v;
  }

  // ----- an error in a prefix is the error of the whole list

  lemma {:induction false} ZoneErrorStays(prim: Primitives, byId: map<int, Zone>, ids: seq<int>, k: nat)
    requires k <= |ids| && ZoneNames(prim, byId, ids[..k]).Err?
    ensures ZoneNames(prim, byId, ids) == ZoneNames(prim, byId, ids[..k])
  {
    if k == |ids| {
      assert ids[..k] == ids;
    } else {
      assert ids[..|ids| - 1][..k] == ids[..k];
      ZoneErrorStays(prim, byId, ids[..|ids| - 1], k);
    }
  }

  lemma {:induction false} AddressErrorStays(prim: Primitives, g: GroupIndex, ids: seq<int>, k: nat)
    requires IndexChecked(g) && k <= |ids|
    ensures AddressValues(prim, g, ids[..k]).Err? ==> AddressValues(prim, g, ids) == AddressValues(prim, g, ids[..k])
  {
    hide IndexChecked;
    if k == |ids| {
      assert ids[..k] == ids;
    } else {
      assert ids[..|ids| - 1][..k] == ids[..k];
      AddressErrorStays(prim, g, ids[..|ids| - 1], k);
    }
  }

  lemma {:induction false} ServiceErrorStays(prim: Primitives, byId: map<int, Service>, ids: seq<int>, k: nat)
    requires k <= |ids|
    ensures AllServiceValues(prim, byId, ids[..k]).Err? ==>
      AllServiceValues(prim, byId, ids) == AllServiceValues(prim, byId, ids[..k])
  {
    if k == |ids| {
      assert ids[..k] == ids;
    } else {
      assert ids[..|ids| - 1][..k] == ids[..k];
      ServiceErrorStays(prim, byId, ids[..|ids| - 1], k);
    }
  }
}
