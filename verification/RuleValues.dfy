/** Normalised address and service values: what they match, when one covers another, how they sign. */
module RuleValues {
  import opened Order
  import opened CatalogModels

  const MAX_PORT: int := 65535

  /** A value a rule operand resolves to. Only TCP and UDP values carry ports, only ICMP carries codes. */
  datatype Value =
    | Span(start: int, end: int)
    | Domain(name: string)
    | AnyService
    | Ports(tcp: bool, portStart: int, portEnd: int)
    | IcmpCodes(codes: set<string>)
    | IpIpService

  /** One endpoint or one kind of traffic that an operand may match. */
  datatype Point =
    | IpPoint(address: int)
    | NamePoint(domain: string)
    | TcpPoint(tcpPort: int)
    | UdpPoint(udpPort: int)
    | IcmpPoint(code: string)
    | IpIpPoint
    | OtherPoint(protocol: nat)

  predicate IsServicePoint(p: Point) { !p.IpPoint? && !p.NamePoint? }

  /** Values as the resolver builds them. */
  predicate Valid(v: Value) {
    match v
    case Span(s, e) => 0 <= s <= e < IPV4_SPACE
    case Ports(_, s, e) => 0 <= s <= e <= MAX_PORT
    case IcmpCodes(codes) => codes != {}
    case _ => true
  }

  /** The meaning of a value: the points it matches. */
  predicate Matches(v: Value, p: Point) {
    match v
    case Span(s, e) => p.IpPoint? && s <= p.address <= e
    case Domain(d) => p == NamePoint(d)
    case AnyService => IsServicePoint(p)
    case Ports(true, s, e) => p.TcpPoint? && s <= p.tcpPort <= e
    case Ports(false, s, e) => p.UdpPoint? && s <= p.udpPort <= e
    case IcmpCodes(codes) => p.IcmpPoint? && p.code in codes
    case IpIpService => p.IpIpPoint?
  }

  /** `covers`, with its branches in source order. */
  predicate Covers(v: Value, other: Value) {
    if v.Span? then other.Span? && v.start <= other.start && v.end >= other.end
    else if v.Domain? then other.Domain? && v.name == other.name
    else if other.Span? || other.Domain? then false
    else if v.AnyService? then true
    else if other.AnyService? then false
    else if v.Ports? then
      other.Ports? && v.tcp == other.tcp && v.portStart <= other.portStart && v.portEnd >= other.portEnd
    else if v.IcmpCodes? then other.IcmpCodes? && v.codes >= other.codes
    else other.IpIpService?
  }

  datatype Signature =
    | Ipv4Sig(start: int, end: int)
    | FqdnSig(domain: string)
    | ServiceSig(proto: string, portStart: Option<int>, portEnd: Option<int>, codes: Option<seq<string>>)

  function SignatureOf(v: Value): Signature {
    match v
    case Span(s, e) => Ipv4Sig(s, e)
    case Domain(d) => FqdnSig(d)
    case AnyService => ServiceSig("any", None, None, None)
    case Ports(tcp, s, e) => ServiceSig(if tcp then "tcp" else "udp", Some(s), Some(e), None)
    case IcmpCodes(codes) => ServiceSig("icmp", None, None, Some(SortedSet(codes)))
    case IpIpService => ServiceSig("ip_ip", None, None, None)
  }

  /** Two values sign alike exactly when they are the same value. */
  lemma SignatureInjective(a: Value, b: Value)
    ensures SignatureOf(a) == SignatureOf(b) <==> a == b
  {
    if a.IcmpCodes? && b.IcmpCodes? { SortedSetInjective(a.codes, b.codes); }
  }

  /** A point that tells `v` apart from every value that does not cover it. */
  function Witness(v: Value, other: Value): Point
    requires Valid(v) && Valid(other)
  {
    match v
    case Span(s, e) => if other.Span? && other.start <= s then IpPoint(e) else IpPoint(s)
    case Domain(d) => NamePoint(d)
    case AnyService => OtherPoint(0)
    case Ports(tcp, s, e) =>
      var port := if other.Ports? && other.tcp == tcp && other.portStart <= s then e else s;
      if tcp then TcpPoint(port) else UdpPoint(port)
    case IcmpCodes(codes) =>
      IcmpPoint(Least(if other.IcmpCodes? && !(codes <= other.codes) then codes - other.codes else codes))
    case IpIpService => IpIpPoint
  }

  /** One value covers another exactly when it matches everything the other matches. */
  lemma CoversIsInclusion(v: Value, other: Value)
    requires Valid(v) && Valid(other)
    ensures Covers(v, other) <==> forall p :: Matches(other, p) ==> Matches(v, p)
  {
    if forall p :: Matches(other, p) ==> Matches(v, p) {
      var w := Witness(other, v);
      assert Matches(other, w);
    }
  }

  lemma CoversReflexive(v: Value)
    ensures Covers(v, v)
  {
  }

  lemma CoversTransitive(a: Value, b: Value, c: Value)
    requires Covers(a, b) && Covers(b, c)
    ensures Covers(a, c)
  {
  }

  /** Mutual coverage means the same signature, hence the same value. */
  lemma CoversAntisymmetric(a: Value, b: Value)
    requires Covers(a, b) && Covers(b, a)
    ensures a == b && SignatureOf(a) == SignatureOf(b)
  {
    if a.IcmpCodes? { assert a.codes == b.codes; }
  }

  /** An ICMP value without codes matches nothing, and then coverage is narrower than inclusion. */
  lemma EmptyIcmpNotCovered()
    ensures var none := IcmpCodes({});
      !Valid(none) && !Covers(IpIpService, none) && forall p :: Matches(none, p) ==> Matches(IpIpService, p)
  {
  }
}
