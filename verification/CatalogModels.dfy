/** Catalog entities of the SD-WAN side, valid by construction as their dataclasses check. */
module CatalogModels {

  datatype Option<+T> = None | Some(value: T)

  datatype Result<+T, +E> = Ok(value: T) | Err(error: E)

  datatype ZoneType = Lan | Wan | Wgd | Wgra

  datatype Zone = Zone(id: int, zoneId: int, name: string, kind: ZoneType)

  datatype L4Proto = Tcp | Udp | Icmp | AnyProto | IpIp

  datatype Service = Service(
    id: int, name: string, proto: L4Proto, ranges: Option<seq<(int, int)>>, codes: Option<seq<string>>)

  /** The checks of the service dataclass: TCP and UDP carry ranges, ICMP carries codes. */
  predicate ServiceChecked(s: Service) {
    && (s.proto.Tcp? || s.proto.Udp? ==> s.ranges.Some? && s.ranges.value != [])
    && (s.proto.Icmp? ==> s.codes.Some? && s.codes.value != [])
  }

  const IPV4_SPACE: nat := 0x1_0000_0000

  function Pow2(k: nat): (r: nat)
    ensures r > 0
  {
    if k == 0 then 1 else 2 * Pow2(k - 1)
  }

  /** An IPv4 network: the base address has no host bits set. */
  datatype Net = Net(base: nat, prefixLen: nat)

  predicate NetChecked(n: Net) {
    n.prefixLen <= 32 && n.base < IPV4_SPACE && n.base % Pow2(32 - n.prefixLen) == 0
  }

  /** The broadcast address, the last one of the network. */
  function Broadcast(n: Net): nat
    requires NetChecked(n)
  {
    n.base + Pow2(32 - n.prefixLen) - 1
  }

  predicate Ipv4(a: int) { 0 <= a < IPV4_SPACE }

  /** The typed payload of an address object; `addrGroup` is 0 or absent when the group has no id of its own. */
  datatype AddrBody =
    | Prefix(net: Net)
    | NetworkRef(networkId: string, network: Net)
    | Host(host: int)
    | Fqdn(fqdn: string)
    | IpRange(rangeFrom: int, rangeTo: int)
    | Group(addrGroup: Option<int>)

  datatype AddrObject = AddrObject(id: int, parents: seq<int>, name: string, body: AddrBody)

  predicate AddrChecked(o: AddrObject) {
    match o.body
    case Prefix(net) => NetChecked(net)
    case NetworkRef(_, net) => NetChecked(net)
    case Host(h) => Ipv4(h)
    case IpRange(f, t) => Ipv4(f) && Ipv4(t)
    case _ => true
  }

  lemma {:induction false} Pow2Divides(k: nat, n: nat)
    requires k <= n
    ensures Pow2(n) == Pow2(k) * Pow2(n - k)
  {
    if k > 0 { Pow2Divides(k - 1, n - 1); }
  }

  lemma Pow2Of32()
    ensures Pow2(32) == IPV4_SPACE
  {
    assert Pow2(4) == 16;
    Pow2Divides(4, 8);
    Pow2Divides(8, 16);
    Pow2Divides(16, 32);
  }

  lemma ScaleMonotone(a: nat, b: nat, size: nat)
    ensures a <= b ==> a * size <= b * size
  {
  }

  lemma AlignedFits(base: nat, size: nat, blocks: nat)
    requires size > 0 && base % size == 0 && base < size * blocks
    ensures base + size <= size * blocks
  {
    var q := base / size;
    assert base == q * size;
    ScaleMonotone(blocks, q, size);
    ScaleMonotone(q + 1, blocks, size);
  }

  /** A network never runs past the end of the address space. */
  lemma BroadcastInSpace(n: Net)
    requires NetChecked(n)
    ensures n.base <= Broadcast(n) < IPV4_SPACE
  {
    var k := 32 - n.prefixLen;
    Pow2Divides(k, 32);
    Pow2Of32();
    AlignedFits(n.base, Pow2(k), Pow2(32 - k));
  }
}
