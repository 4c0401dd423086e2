/** Rule bodies, the traffic they match, and their normalisation through the loaded catalog. */
module Rules {
  import opened CatalogModels
  import opened Collections
  import opened AddressGroups
  import opened RuleValues

  datatype Action = Accept | Reject | Drop

  datatype RuleBody = RuleBody(
    action: Action, srcZones: seq<int>, dstZones: seq<int>,
    srcAddrs: seq<int>, dstAddrs: seq<int>, services: seq<int>)

  datatype Catalog = Catalog(zones: seq<Zone>, services: seq<Service>, objects: seq<AddrObject>)

  /** Library functions left open: SHA-256, `repr` of a signature, text and domain normalisation, display. */
  datatype Primitives = Primitives(
    hash: string -> string, repr: Signature -> string,
    normText: string -> string, normDomain: string -> string, display: Value -> string)

  datatype NormalizationError =
    | UnknownZone(id: int)
    | UnknownService(id: int)
    | Unresolved(error: ResolutionError)
    | BadIpRange(id: int)
    | GroupAsLeaf(id: int)
    | NoPortRanges(id: int)
    | BadPortRange(id: int)

  /** A service and object catalog whose entries passed their dataclass checks. */
  predicate CatalogChecked(c: Catalog) {
    (forall o | o in c.objects :: AddrChecked(o)) && (forall s | s in c.services :: ServiceChecked(s))
  }

  // ----- the traffic a rule matches, from the catalog graph

  datatype Traffic = Traffic(srcZone: string, dstZone: string, src: Point, dst: Point, service: Point)

  /** The addresses an address object stands for. */
  predicate ObjectMatches(prim: Primitives, o: AddrObject, p: Point)
    requires AddrChecked(o)
  {
    match o.body
    case Prefix(n) => p.IpPoint? && n.base <= p.address < n.base + Pow2(32 - n.prefixLen)
    case NetworkRef(_, n) => p.IpPoint? && n.base <= p.address < n.base + Pow2(32 - n.prefixLen)
    case Host(h) => p == IpPoint(h)
    case Fqdn(d) => p == NamePoint(prim.normDomain(d))
    case IpRange(f, t) => p.IpPoint? && f <= p.address <= t
    case Group(_) => false
  }

  predicate StandsFor(prim: Primitives, o: AddrObject, p: Point) { AddrChecked(o) && ObjectMatches(prim, o, p) }

  predicate InSomeRange(ranges: seq<(int, int)>, port: int) {
    exists r :: r in ranges && r.0 <= port <= r.1
  }

  /** The traffic a service object stands for. */
  ghost predicate ServiceMatches(prim: Primitives, s: Service, p: Point) {
    match s.proto
    case Tcp => p.TcpPoint? && s.ranges.Some? && InSomeRange(s.ranges.value, p.tcpPort)
    case Udp => p.UdpPoint? && s.ranges.Some? && InSomeRange(s.ranges.value, p.udpPort)
    case Icmp => p.IcmpPoint? && s.codes.Some? && exists c :: c in s.codes.value && prim.normText(c) == p.code
    case AnyProto => IsServicePoint(p)
    case IpIp => p.IpIpPoint?
  }

  function ZoneId(z: Zone): int { z.id }

  function ServiceId(s: Service): int { s.id }

  function ZonesById(zones: seq<Zone>): map<int, Zone> { ById(ZoneId, zones) }

  function ServicesById(services: seq<Service>): map<int, Service> { ById(ServiceId, services) }

  /** Some zone that the list denotes has this normalised name. */
  ghost predicate ZoneListed(prim: Primitives, c: Catalog, ids: seq<int>, name: string) {
    exists id, z :: id in ids && Denotes(ZoneId, c.zones, id, z) && prim.normText(z.name) == name
  }

  /** Some object that the list denotes, or some leaf below a group of the list, stands for the point. */
  ghost predicate AddressListed(prim: Primitives, objs: seq<AddrObject>, ids: seq<int>, p: Point) {
    exists id, o :: id in ids && LeafOf(objs, id, o) && StandsFor(prim, o, p)
  }

  /** Some service that the list denotes stands for the point. */
  ghost predicate ServiceListed(prim: Primitives, c: Catalog, ids: seq<int>, p: Point) {
    exists id, s :: id in ids && Denotes(ServiceId, c.services, id, s) && ServiceMatches(prim, s, p)
  }

  /** The tuples a rule matches. `emptyIsAny` says how an empty operand list is read. */
  ghost predicate RuleMatches(prim: Primitives, c: Catalog, emptyIsAny: bool, r: RuleBody, t: Traffic) {
    && ((emptyIsAny && r.srcZones == []) || ZoneListed(prim, c, r.srcZones, t.srcZone))
    && ((emptyIsAny && r.dstZones == []) || ZoneListed(prim, c, r.dstZones, t.dstZone))
    && ((emptyIsAny && r.srcAddrs == []) || AddressListed(prim, c.objects, r.srcAddrs, t.src))
    && ((emptyIsAny && r.dstAddrs == []) || AddressListed(prim, c.objects, r.dstAddrs, t.dst))
    && ((emptyIsAny && r.services == []) || ServiceListed(prim, c, r.services, t.service))
  }

  /** REJECT and DROP are the same action to the comparer. */
  function NormalizeAction(a: Action): Action { if a.Reject? || a.Drop? then Reject else Accept }

  // ----- normalisation

  datatype Evidence = Evidence(objectId: int, objectName: string, display: string)

  datatype Resolved = Resolved(value: Value, evidence: Evidence)

  datatype NormalizedValues = NormalizedValues(
    action: Action, srcZones: set<string>, dstZones: set<string>,
    srcAddrs: set<Value>, dstAddrs: set<Value>, services: set<Value>)

  datatype ResolvedValues = ResolvedValues(
    normalized: NormalizedValues, srcAddrs: seq<Resolved>, dstAddrs: seq<Resolved>, services: seq<Resolved>)

  function LeafValue(prim: Primitives, o: AddrObject): Result<Value, NormalizationError>
    requires AddrChecked(o)
  {
    match o.body
    case Prefix(n) => Ok(Span(n.base, Broadcast(n)))
    case NetworkRef(_, n) => Ok(Span(n.base, Broadcast(n)))
    case Host(h) => Ok(Span(h, h))
    case IpRange(f, t) => if f > t then Err(BadIpRange(o.id)) else Ok(Span(f, t))
    case Fqdn(d) => Ok(Domain(prim.normDomain(d)))
    case Group(_) => Err(GroupAsLeaf(o.id))
  }

  function LeafValues(prim: Primitives, leaves: seq<AddrObject>): Result<seq<Resolved>, NormalizationError>
    requires forall o | o in leaves :: AddrChecked(o)
  {
    if leaves == [] then Ok([])
    else
      var o := leaves[|leaves| - 1];
      match LeafValues(prim, leaves[..|leaves| - 1])
      case Err(e) => Err(e)
      case Ok(done) =>
        match LeafValue(prim, o)
        case Err(e) => Err(e)
        case Ok(v) => Ok(done + [Resolved(v, Evidence(o.id, o.name, prim.display(v)))])
  }

  ghost predicate IndexChecked(g: GroupIndex) {
    WellIndexed(g) && forall id | id in g.byId :: AddrChecked(g.byId[id])
  }

  lemma LeavesChecked(g: GroupIndex, id: int)
    requires IndexChecked(g) && Resolve(g, id, 0).Ok?
    ensures forall o | o in Resolve(g, id, 0).value :: AddrChecked(o)
  {
    forall o | o in Resolve(g, id, 0).value ensures AddrChecked(o) { ResolveLeavesExact(g, id, 0, o); }
  }

  function AddressValues(prim: Primitives, g: GroupIndex, ids: seq<int>): Result<seq<Resolved>, NormalizationError>
    requires IndexChecked(g)
  {
    if ids == [] then Ok([])
    else
      match AddressValues(prim, g, ids[..|ids| - 1])
      case Err(e) => Err(e)
      case Ok(done) =>
        match Resolve(g, ids[|ids| - 1], 0)
        case Err(e) => Err(Unresolved(e))
        case Ok(leaves) =>
          LeavesChecked(g, ids[|ids| - 1]);
          match LeafValues(prim, leaves)
          case Err(e) => Err(e)
          case Ok(values) => Ok(done + values)
  }

  function PortValues(id: int, tcp: bool, ranges: seq<(int, int)>): Result<seq<Value>, NormalizationError> {
    if ranges == [] then Ok([])
    else
      var r := ranges[|ranges| - 1];
      match PortValues(id, tcp, ranges[..|ranges| - 1])
      case Err(e) => Err(e)
      case Ok(done) =>
        if r.0 < 0 || r.1 > MAX_PORT || r.0 > r.1 then Err(BadPortRange(id)) else Ok(done + [Ports(tcp, r.0, r.1)])
  }

  function ServiceValues(prim: Primitives, s: Service): Result<seq<Value>, NormalizationError> {
    match s.proto
    case Tcp => if s.ranges.None? || s.ranges.value == []
      then Err(NoPortRanges(s.id)) else PortValues(s.id, true, s.ranges.value)
    case Udp => if s.ranges.None? || s.ranges.value == []
      then Err(NoPortRanges(s.id)) else PortValues(s.id, false, s.ranges.value)
    case Icmp => Ok([IcmpCodes(if s.codes.None? then {} else set c | c in s.codes.value :: prim.normText(c))])
    case AnyProto => Ok([AnyService])
    case IpIp => Ok([IpIpService])
  }

  function WithEvidence(prim: Primitives, s: Service, values: seq<Value>): seq<Resolved> {
    seq(|values|, i requires 0 <= i < |values| => Resolved(values[i], Evidence(s.id, s.name, prim.display(values[i]))))
  }

  function AllServiceValues(
    prim: Primitives, byId: map<int, Service>, ids: seq<int>): Result<seq<Resolved>, NormalizationError> {
    if ids == [] then Ok([])
    else
      var id := ids[|ids| - 1];
      match AllServiceValues(prim, byId, ids[..|ids| - 1])
      case Err(e) => Err(e)
      case Ok(done) =>
        if id !in byId then Err(UnknownService(id))
        else match ServiceValues(prim, byId[id])
          case Err(e) => Err(e)
          case Ok(values) => Ok(done + WithEvidence(prim, byId[id], values))
  }

  function ZoneNames(prim: Primitives, byId: map<int, Zone>, ids: seq<int>): Result<set<string>, NormalizationError> {
    if ids == [] then Ok({})
    else
      var id := ids[|ids| - 1];
      match ZoneNames(prim, byId, ids[..|ids| - 1])
      case Err(e) => Err(e)
      case Ok(names) => if id !in byId then Err(UnknownZone(id)) else Ok(names + {prim.normText(byId[id].name)})
  }

  ghost predicate Signed(values: seq<Resolved>, s: Signature) {
    exists r :: r in values && SignatureOf(r.value) == s
  }

  /** The first object of each semantic value, in order. */
  ghost function DistinctValues(values: seq<Resolved>): seq<Resolved> {
    if values == [] then []
    else
      var done, last := DistinctValues(values[..|values| - 1]), values[|values| - 1];
      if Signed(done, SignatureOf(last.value)) then done else done + [last]
  }

  function ValueSet(values: seq<Resolved>): set<Value> { set r | r in values :: r.value }

  /** The resolver's dictionaries, as values. */
  datatype Lookup = Lookup(zones: map<int, Zone>, services: map<int, Service>, groups: GroupIndex)

  function LookupOf(c: Catalog): Lookup {
    Lookup(ZonesById(c.zones), ServicesById(c.services), BuildIndex(c.objects))
  }

  ghost predicate LookupChecked(l: Lookup) { IndexChecked(l.groups) }

  lemma LookupOfChecked(c: Catalog)
    requires CatalogChecked(c)
    ensures LookupChecked(LookupOf(c))
  {
    BuildIndexWell(c.objects);
    forall id | id in ById(ObjectId, c.objects) ensures AddrChecked(ById(ObjectId, c.objects)[id]) {
      ByIdDenotes(ObjectId, c.objects, id);
      DenotedIsListed(ObjectId, c.objects, id, ById(ObjectId, c.objects)[id]);
    }
  }

  /** One rule resolved: addresses first, then services, then zones; the first error wins. */
  ghost function ResolveRule(prim: Primitives, l: Lookup, r: RuleBody): Result<ResolvedValues, NormalizationError>
    requires LookupChecked(l)
  {
    match AddressValues(prim, l.groups, r.srcAddrs)
    case Err(e) => Err(e)
    case Ok(src) =>
      match AddressValues(prim, l.groups, r.dstAddrs)
      case Err(e) => Err(e)
      case Ok(dst) =>
        match AllServiceValues(prim, l.services, r.services)
        case Err(e) => Err(e)
        case Ok(services) =>
          match ZoneNames(prim, l.zones, r.srcZones)
          case Err(e) => Err(e)
          case Ok(srcZones) =>
            match ZoneNames(prim, l.zones, r.dstZones)
            case Err(e) => Err(e)
            case Ok(dstZones) =>
              var s, d, v := DistinctValues(src), DistinctValues(dst), DistinctValues(services);
              Ok(ResolvedValues(
                NormalizedValues(NormalizeAction(r.action), srcZones, dstZones, ValueSet(s), ValueSet(d), ValueSet(v)),
                s, d, v))
  }

  /** Resolution in a catalog. */
  ghost function ResolveIn(prim: Primitives, c: Catalog, r: RuleBody): Result<ResolvedValues, NormalizationError>
    requires CatalogChecked(c)
  {
    LookupOfChecked(c);
    ResolveRule(prim, LookupOf(c), r)
  }
}
