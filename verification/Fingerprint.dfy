/** The catalog fingerprint: which catalogs it tells apart. */
module Fingerprint {
  import opened CatalogModels
  import opened Permutations
  import opened Json
  import opened JsonHash

  datatype Network = Network(networkId: string, net: Net)

  datatype FullCatalog = FullCatalog(
    zones: seq<Zone>, services: seq<Service>, addrs: seq<AddrObject>, networks: seq<Network>)

  // ----- the text of addresses

  /** Dotted decimal. */
  function AddressText(a: int): string {
    var b := a / 0x100;
    var c := b / 0x100;
    IntText(c / 0x100) + "." + IntText(c % 0x100) + "." + IntText(b % 0x100) + "." + IntText(a % 0x100)
  }

  /** The text lists the four octets of the address, most significant first. */
  lemma AddressTextIsDotted(a: int) returns (o1: nat, o2: nat, o3: nat, o4: nat)
    requires Ipv4(a)
    ensures o1 < 0x100 && o2 < 0x100 && o3 < 0x100 && o4 < 0x100
    ensures a == ((o1 * 0x100 + o2) * 0x100 + o3) * 0x100 + o4
    ensures AddressText(a) == IntText(o1) + "." + IntText(o2) + "." + IntText(o3) + "." + IntText(o4)
  {
    var b := a / 0x100;
    var c := b / 0x100;
    o1, o2, o3, o4 := c / 0x100, c % 0x100, b % 0x100, a % 0x100;
  }

  function NetText(n: Net): string { AddressText(n.base) + "/" + IntText(n.prefixLen) }

  lemma {:induction false} NatTextDigits(n: nat)
    ensures forall c | c in NatText(n) :: '0' <= c <= '9'
  {
    if n >= 10 { NatTextDigits(n / 10); }
  }

  lemma IntTextChars(n: int)
    ensures '.' !in IntText(n) && '/' !in IntText(n)
  {
    NatTextDigits(if n < 0 then -n else n);
  }

  /** Text up to a separator it does not contain can be read back. */
  lemma SplitUnique(p: string, q: string, x: string, y: string, sep: char)
    requires sep !in p && sep !in q && p + [sep] + x == q + [sep] + y
    ensures p == q && x == y
  {
    SeparatorFirst(p, x, sep);
    SeparatorFirst(q, y, sep);
    var s := p + [sep] + x;
    assert |p| == |q|;
    assert s[..|p|] == p && (q + [sep] + y)[..|q|] == q;
    assert s[|p| + 1..] == x && (q + [sep] + y)[|q| + 1..] == y;
  }

  lemma SeparatorFirst(p: string, x: string, sep: char)
    requires sep !in p
    ensures (p + [sep] + x)[|p|] == sep && forall i | 0 <= i < |p| :: (p + [sep] + x)[i] != sep
  {
    forall i | 0 <= i < |p| ensures (p + [sep] + x)[i] != sep { assert p[i] in p; }
  }

  lemma AddressChars(a: int)
    ensures '/' !in AddressText(a)
  {
    hide IntText;
    var b := a / 0x100;
    var c := b / 0x100;
    IntTextChars(c / 0x100);
    IntTextChars(c % 0x100);
    IntTextChars(b % 0x100);
    IntTextChars(a % 0x100);
  }

  lemma AddressTextInjective(a: int, b: int)
    ensures AddressText(a) == AddressText(b) <==> a == b
  {
    hide IntText;
    if AddressText(a) == AddressText(b) { OctetsEqual(a, b); }
  }

  lemma OctetsEqual(a: int, b: int)
    requires AddressText(a) == AddressText(b)
    ensures a == b
  {
    hide IntText;
    var aUp, bUp := a / 0x100, b / 0x100;
    var aTop, bTop := aUp / 0x100, bUp / 0x100;
    var a1, a2, a3, a4 := aTop / 0x100, aTop % 0x100, aUp % 0x100, a % 0x100;
    var b1, b2, b3, b4 := bTop / 0x100, bTop % 0x100, bUp % 0x100, b % 0x100;
    IntTextChars(a1); IntTextChars(b1);
    IntTextChars(a2); IntTextChars(b2);
    IntTextChars(a3); IntTextChars(b3);
    var x3, y3 := IntText(a3) + "." + IntText(a4), IntText(b3) + "." + IntText(b4);
    var x2, y2 := IntText(a2) + "." + x3, IntText(b2) + "." + y3;
    assert AddressText(a) == IntText(a1) + "." + x2;
    assert AddressText(b) == IntText(b1) + "." + y2;
    SplitUnique(IntText(a1), IntText(b1), x2, y2, '.');
    SplitUnique(IntText(a2), IntText(b2), x3, y3, '.');
    SplitUnique(IntText(a3), IntText(b3), IntText(a4), IntText(b4), '.');
    IntTextInjective(a1, b1);
    IntTextInjective(a2, b2);
    IntTextInjective(a3, b3);
    IntTextInjective(a4, b4);
  }

  lemma NetTextInjective(m: Net, n: Net)
    ensures NetText(m) == NetText(n) <==> m == n
  {
    AddressTextInjective(m.base, n.base);
    AddressChars(m.base);
    AddressChars(n.base);
    if NetText(m) == NetText(n) {
      SplitUnique(AddressText(m.base), AddressText(n.base), IntText(m.prefixLen), IntText(n.prefixLen), '/');
      IntTextInjective(m.prefixLen, n.prefixLen);
    }
  }

  // ----- the JSON value that is hashed

  /** A dict written with these keys, in this order. */
  function Record(keys: seq<string>, values: seq<Json>): map<string, Json>
    requires |keys| == |values|
  {
    if keys == [] then map[]
    else Record(keys[..|keys| - 1], values[..|keys| - 1])[keys[|keys| - 1] := values[|keys| - 1]]
  }

  function Each<T>(f: T -> Json, xs: seq<T>): (r: seq<Json>)
    ensures |r| == |xs|
  {
    seq(|xs|, i requires 0 <= i < |xs| => f(xs[i]))
  }

  function ZoneTypeText(t: ZoneType): string {
    match t case Lan => "lan" case Wan => "wan" case Wgd => "wgd" case Wgra => "wgra"
  }

  function ProtoText(p: L4Proto): string {
    match p case Tcp => "tcp" case Udp => "udp" case Icmp => "icmp" case AnyProto => "any" case IpIp => "ip_ip"
  }

  function KindText(b: AddrBody): string {
    match b
    case Prefix(_) => "prefix"
    case NetworkRef(_, _) => "network"
    case Host(_) => "host"
    case Fqdn(_) => "fqdn"
    case IpRange(_, _) => "ip_range"
    case Group(_) => "addr_group"
  }

  const ZONE_KEYS := ["id", "zone_id", "name", "type"]
  const SERVICE_KEYS := ["id", "name", "l4_proto", "ranges", "codes"]
  const ADDR_KEYS := ["id", "parents", "name", "type", "network_id", "network", "prefix", "host", "fqdn",
    "ip_range_from", "ip_range_to", "addr_group"]
  const NETWORK_KEYS := ["network_id", "net"]
  const CATALOG_KEYS := ["zones", "services", "addr_objects", "networks"]

  function ZoneValues(z: Zone): seq<Json> { [Int(z.id), Int(z.zoneId), Str(z.name), Str(ZoneTypeText(z.kind))] }

  function ZoneJson(z: Zone): Json { Obj(Record(ZONE_KEYS, ZoneValues(z))) }

  function RangeJson(r: (int, int)): Json { List([Int(r.0), Int(r.1)]) }

  function RangesJson(ranges: Option<seq<(int, int)>>): Json {
    if ranges.None? then Null else List(Each(RangeJson, ranges.value))
  }

  function CodesJson(codes: Option<seq<string>>): Json {
    if codes.None? then Null else List(Each((c: string) => Str(c), codes.value))
  }

  function ServiceValues(s: Service): seq<Json> {
    [Int(s.id), Str(s.name), Str(ProtoText(s.proto)), RangesJson(s.ranges), CodesJson(s.codes)]
  }

  function ServiceJson(s: Service): Json { Obj(Record(SERVICE_KEYS, ServiceValues(s))) }

  /** The type and the eight payload fields, absent ones null. */
  function BodyValues(b: AddrBody): (r: seq<Json>)
    ensures |r| == 9
  {
    [Str(KindText(b)),
     if b.NetworkRef? then Str(b.networkId) else Null,
     if b.NetworkRef? then Str(NetText(b.network)) else Null,
     if b.Prefix? then Str(NetText(b.net)) else Null,
     if b.Host? then Str(AddressText(b.host)) else Null,
     if b.Fqdn? then Str(b.fqdn) else Null,
     if b.IpRange? then Str(AddressText(b.rangeFrom)) else Null,
     if b.IpRange? then Str(AddressText(b.rangeTo)) else Null,
     if b.Group? && b.addrGroup.Some? then Int(b.addrGroup.value) else Null]
  }

  function AddrValues(o: AddrObject): seq<Json> {
    [Int(o.id), List(Each((p: int) => Int(p), o.parents)), Str(o.name)] + BodyValues(o.body)
  }

  function AddrJson(o: AddrObject): Json { Obj(Record(ADDR_KEYS, AddrValues(o))) }

  function NetworkJson(n: Network): Json { Obj(Record(NETWORK_KEYS, [Str(n.networkId), Str(NetText(n.net))])) }

  function CatalogValues(c: FullCatalog): seq<Json> {
    [List(Each(ZoneJson, c.zones)), List(Each(ServiceJson, c.services)), List(Each(AddrJson, c.addrs)),
      List(Each(NetworkJson, c.networks))]
  }

  function CatalogJson(c: FullCatalog): Json { Obj(Record(CATALOG_KEYS, CatalogValues(c))) }

  function FingerprintOf(hash: string -> string, c: FullCatalog): string { JsonHash.JsonHash(hash, CatalogJson(c)) }

  // ----- which values are alike

  ghost predicate Distinct(keys: seq<string>) {
    forall i, j :: 0 <= i < j < |keys| ==> keys[i] != keys[j]
  }

  lemma KeysDistinct()
    ensures Distinct(ZONE_KEYS) && Distinct(SERVICE_KEYS) && Distinct(NETWORK_KEYS) && Distinct(CATALOG_KEYS)
  {
  }

  lemma AddrKeysDistinct()
    ensures Distinct(ADDR_KEYS)
  {
  }

  lemma {:induction false} RecordAt(keys: seq<string>, values: seq<Json>)
    requires |keys| == |values| && Distinct(keys)
    ensures forall k :: k in Record(keys, values) <==> k in keys
    ensures forall i | 0 <= i < |keys| :: keys[i] in Record(keys, values) && Record(keys, values)[keys[i]] == values[i]
  {
    if keys != [] {
      var n := |keys| - 1;
      RecordAt(keys[..n], values[..n]);
      assert keys == keys[..n] + [keys[n]];
    }
  }

  /** Two dicts with the same keys are equivalent field by field. */
  lemma RecordEquivalent(keys: seq<string>, v: seq<Json>, w: seq<Json>)
    requires |keys| == |v| == |w| && Distinct(keys)
    ensures Equivalent(Obj(Record(keys, v)), Obj(Record(keys, w))) <==>
      forall i | 0 <= i < |keys| :: Equivalent(v[i], w[i])
  {
    RecordAt(keys, v);
    RecordAt(keys, w);
    var m, n := Record(keys, v), Record(keys, w);
    assert m.Keys == n.Keys;
    if forall i | 0 <= i < |keys| :: Equivalent(v[i], w[i]) {
      forall k | k in m ensures Equivalent(m[k], n[k]) {
        var i :| 0 <= i < |keys| && keys[i] == k;
      }
    }
    if forall k | k in m :: Equivalent(m[k], n[k]) {
      forall i | 0 <= i < |keys| ensures Equivalent(v[i], w[i]) {
        assert Equivalent(m[keys[i]], n[keys[i]]);
      }
    }
  }

  /** The same items in another order, items compared by `rel`. */
  ghost predicate SameList<T(!new)>(rel: (T, T) -> bool, xs: seq<T>, ys: seq<T>) {
    |xs| == |ys| &&
    exists p: seq<nat> :: IsPermutation(p, |xs|) && forall i | 0 <= i < |xs| :: rel(xs[i], ys[p[i]])
  }

  /** Lists of records are equivalent when their records are, in some order. */
  lemma EachEquivalent<T(!new)>(f: T -> Json, rel: (T, T) -> bool, xs: seq<T>, ys: seq<T>)
    requires forall x, y | x in xs && y in ys :: Equivalent(f(x), f(y)) <==> rel(x, y)
    ensures Equivalent(List(Each(f, xs)), List(Each(f, ys))) <==> SameList(rel, xs, ys)
  {
    var s, t := Each(f, xs), Each(f, ys);
    forall p: seq<nat> | |xs| == |ys| && IsPermutation(p, |xs|)
      ensures (forall i | 0 <= i < |s| :: Equivalent(s[i], t[p[i]])) <==>
        forall i | 0 <= i < |xs| :: rel(xs[i], ys[p[i]])
    {
      forall i | 0 <= i < |xs| ensures Equivalent(s[i], t[p[i]]) <==> rel(xs[i], ys[p[i]]) {
        assert xs[i] in xs && ys[p[i]] in ys;
      }
    }
  }

  /** Comparing items by equality, another order means the same multiset. */
  lemma SameListOfEquals<T(!new)>(rel: (T, T) -> bool, xs: seq<T>, ys: seq<T>)
    requires forall x, y | x in xs && y in ys :: rel(x, y) <==> x == y
    ensures SameList(rel, xs, ys) <==> multiset(xs) == multiset(ys)
  {
    if multiset(xs) == multiset(ys) {
      var p := PermutationOf(xs, ys);
      forall i | 0 <= i < |xs| ensures rel(xs[i], ys[p[i]]) { assert xs[i] in xs && ys[p[i]] in ys; }
    }
    if SameList(rel, xs, ys) {
      var p: seq<nat> :| IsPermutation(p, |xs|) && forall i | 0 <= i < |xs| :: rel(xs[i], ys[p[i]]);
      forall i | 0 <= i < |xs| ensures xs[i] == ys[p[i]] { assert xs[i] in xs && ys[p[i]] in ys; }
      PermutedSame(xs, ys, p);
    }
  }

  /** The two ends of a range may be swapped. */
  predicate SameRange(x: (int, int), y: (int, int)) { x == y || x == (y.1, y.0) }

  ghost predicate SameService(x: Service, y: Service) {
    && x.id == y.id && x.name == y.name && x.proto == y.proto
    && x.ranges.Some? == y.ranges.Some?
    && (x.ranges.Some? ==> SameList(SameRange, x.ranges.value, y.ranges.value))
    && x.codes.Some? == y.codes.Some?
    && (x.codes.Some? ==> multiset(x.codes.value) == multiset(y.codes.value))
  }

  ghost predicate SameAddr(x: AddrObject, y: AddrObject) {
    x.id == y.id && x.name == y.name && x.body == y.body && multiset(x.parents) == multiset(y.parents)
  }

  ghost predicate SameCatalog(c: FullCatalog, d: FullCatalog) {
    && multiset(c.zones) == multiset(d.zones)
    && SameList((x, y) => SameService(x, y), c.services, d.services)
    && SameList((x, y) => SameAddr(x, y), c.addrs, d.addrs)
    && multiset(c.networks) == multiset(d.networks)
  }

  lemma ScalarsEquivalent()
    ensures forall a, b :: Equivalent(Int(a), Int(b)) <==> a == b
    ensures forall s, t :: Equivalent(Str(s), Str(t)) <==> s == t
  {
    forall a, b ensures Equivalent(Int(a), Int(b)) <==> a == b { IntTextInjective(a, b); }
  }

  lemma RangeEquivalent(x: (int, int), y: (int, int))
    ensures Equivalent(RangeJson(x), RangeJson(y)) <==> SameRange(x, y)
  {
    ScalarsEquivalent();
    var f := (n: int) => Int(n);
    var eq := (a: int, b: int) => a == b;
    var xs, ys := [x.0, x.1], [y.0, y.1];
    EachEquivalent(f, eq, xs, ys);
    SameListOfEquals(eq, xs, ys);
    assert Each(f, xs) == [Int(x.0), Int(x.1)] && Each(f, ys) == [Int(y.0), Int(y.1)];
    PairMultiset(x, y);
  }

  lemma PairMultiset(x: (int, int), y: (int, int))
    ensures multiset([x.0, x.1]) == multiset([y.0, y.1]) <==> SameRange(x, y)
  {
    if multiset([x.0, x.1]) == multiset([y.0, y.1]) {
      assert x.0 in multiset([y.0, y.1]);
      assert multiset([x.0, x.1]) - multiset{x.0} == multiset{x.1};
      assert multiset([y.0, y.1]) - multiset{y.0} == multiset{y.1};
      assert multiset([y.0, y.1]) - multiset{y.1} == multiset{y.0};
      assert x.1 in multiset{x.1};
    }
  }

  lemma RangesEquivalent(x: Option<seq<(int, int)>>, y: Option<seq<(int, int)>>)
    ensures Equivalent(RangesJson(x), RangesJson(y)) <==>
      x.Some? == y.Some? && (x.Some? ==> SameList(SameRange, x.value, y.value))
  {
    if x.Some? && y.Some? {
      forall r, s ensures Equivalent(RangeJson(r), RangeJson(s)) <==> SameRange(r, s) { RangeEquivalent(r, s); }
      EachEquivalent(RangeJson, SameRange, x.value, y.value);
    }
  }

  lemma CodesEquivalent(x: Option<seq<string>>, y: Option<seq<string>>)
    ensures Equivalent(CodesJson(x), CodesJson(y)) <==>
      x.Some? == y.Some? && (x.Some? ==> multiset(x.value) == multiset(y.value))
  {
    if x.Some? && y.Some? {
      var eq := (a: string, b: string) => a == b;
      ScalarsEquivalent();
      EachEquivalent((c: string) => Str(c), eq, x.value, y.value);
      SameListOfEquals(eq, x.value, y.value);
    }
  }

  lemma ServiceEquivalent(x: Service, y: Service)
    ensures Equivalent(ServiceJson(x), ServiceJson(y)) <==> SameService(x, y)
  {
    hide Equivalent, SameList;
    KeysDistinct();
    ScalarsEquivalent();
    RangesEquivalent(x.ranges, y.ranges);
    CodesEquivalent(x.codes, y.codes);
    RecordEquivalent(SERVICE_KEYS, ServiceValues(x), ServiceValues(y));
    FiveFields(ServiceValues(x), ServiceValues(y));
    assert ProtoText(x.proto) == ProtoText(y.proto) <==> x.proto == y.proto;
  }

  lemma FiveFields(v: seq<Json>, w: seq<Json>)
    requires |v| == |w| == 5
    ensures (forall i | 0 <= i < 5 :: Equivalent(v[i], w[i])) <==>
      Equivalent(v[0], w[0]) && Equivalent(v[1], w[1]) && Equivalent(v[2], w[2]) && Equivalent(v[3], w[3]) &&
        Equivalent(v[4], w[4])
  {
  }

  lemma ZoneEquivalent(x: Zone, y: Zone)
    ensures Equivalent(ZoneJson(x), ZoneJson(y)) <==> x == y
  {
    hide Equivalent;
    KeysDistinct();
    ScalarsEquivalent();
    RecordEquivalent(ZONE_KEYS, ZoneValues(x), ZoneValues(y));
    var v, w := ZoneValues(x), ZoneValues(y);
    assert (forall i | 0 <= i < 4 :: Equivalent(v[i], w[i])) <==>
      Equivalent(v[0], w[0]) && Equivalent(v[1], w[1]) && Equivalent(v[2], w[2]) && Equivalent(v[3], w[3]);
    assert ZoneTypeText(x.kind) == ZoneTypeText(y.kind) <==> x.kind == y.kind;
  }

  lemma NetworkEquivalent(x: Network, y: Network)
    ensures Equivalent(NetworkJson(x), NetworkJson(y)) <==> x == y
  {
    hide Equivalent;
    KeysDistinct();
    ScalarsEquivalent();
    NetTextInjective(x.net, y.net);
    var v, w := [Str(x.networkId), Str(NetText(x.net))], [Str(y.networkId), Str(NetText(y.net))];
    RecordEquivalent(NETWORK_KEYS, v, w);
    assert (forall i | 0 <= i < 2 :: Equivalent(v[i], w[i])) <==> Equivalent(v[0], w[0]) && Equivalent(v[1], w[1]);
  }

  ghost predicate AllEquivalent(v: seq<Json>, w: seq<Json>) {
    |v| == |w| && forall i | 0 <= i < |v| :: Equivalent(v[i], w[i])
  }

  /** The payload fields and the type together determine the payload, and it them. */
  lemma BodyEquivalent(x: AddrBody, y: AddrBody)
    ensures AllEquivalent(BodyValues(x), BodyValues(y)) <==> x == y
  {
    ScalarsEquivalent();
    var v, w := BodyValues(x), BodyValues(y);
    if x == y {
      forall i | 0 <= i < |v| ensures Equivalent(v[i], w[i]) { assert Scalar(v[i]); }
    }
    if AllEquivalent(v, w) {
      assert Equivalent(v[0], w[0]);
      KindsDiffer(x, y);
      PayloadsAgree(x, y);
    }
  }

  lemma KindsDiffer(x: AddrBody, y: AddrBody)
    requires KindText(x) == KindText(y)
    ensures x.Prefix? == y.Prefix? && x.NetworkRef? == y.NetworkRef? && x.Host? == y.Host?
    ensures x.Fqdn? == y.Fqdn? && x.IpRange? == y.IpRange? && x.Group? == y.Group?
  {
  }

  lemma NoneIsNoNumber(n: int)
    ensures IntText(n) != "None"
  {
    var m := if n < 0 then -n else n;
    NatTextDigits(m);
    NatTextStart(m);
    assert NatText(m)[0] in NatText(m);
    assert IntText(n)[0] != 'N';
    assert "None"[0] == 'N';
  }

  lemma NullIsNoInt(n: int)
    ensures !Equivalent(Null, Int(n)) && !Equivalent(Int(n), Null)
  {
    NoneIsNoNumber(n);
  }

  lemma PayloadsAgree(x: AddrBody, y: AddrBody)
    requires KindText(x) == KindText(y) && AllEquivalent(BodyValues(x), BodyValues(y))
    ensures x == y
  {
    hide Equivalent, NetText, AddressText, IntText;
    KindsDiffer(x, y);
    ScalarsEquivalent();
    var v, w := BodyValues(x), BodyValues(y);
    assert Equivalent(v[1], w[1]) && Equivalent(v[2], w[2]) && Equivalent(v[3], w[3]) && Equivalent(v[4], w[4]);
    assert Equivalent(v[5], w[5]) && Equivalent(v[6], w[6]) && Equivalent(v[7], w[7]) && Equivalent(v[8], w[8]);
    match x
    case Prefix(net) => NetTextInjective(net, y.net);
    case NetworkRef(id, net) => NetTextInjective(net, y.network);
    case Host(h) => AddressTextInjective(h, y.host);
    case Fqdn(_) =>
    case IpRange(f, t) =>
      AddressTextInjective(f, y.rangeFrom);
      AddressTextInjective(t, y.rangeTo);
    case Group(g) =>
      if g.Some? { NullIsNoInt(g.value); }
      if y.addrGroup.Some? { NullIsNoInt(y.addrGroup.value); }
  }

  lemma ParentsEquivalent(x: seq<int>, y: seq<int>)
    ensures Equivalent(List(Each((p: int) => Int(p), x)), List(Each((p: int) => Int(p), y))) <==>
      multiset(x) == multiset(y)
  {
    var eq := (a: int, b: int) => a == b;
    ScalarsEquivalent();
    EachEquivalent((p: int) => Int(p), eq, x, y);
    SameListOfEquals(eq, x, y);
  }

  lemma AddrEquivalent(x: AddrObject, y: AddrObject)
    ensures Equivalent(AddrJson(x), AddrJson(y)) <==> SameAddr(x, y)
  {
    hide Equivalent, BodyValues;
    AddrKeysDistinct();
    ScalarsEquivalent();
    ParentsEquivalent(x.parents, y.parents);
    BodyEquivalent(x.body, y.body);
    RecordEquivalent(ADDR_KEYS, AddrValues(x), AddrValues(y));
    SplitFields(AddrValues(x)[..3], AddrValues(y)[..3], BodyValues(x.body), BodyValues(y.body));
  }

  lemma SplitFields(v: seq<Json>, w: seq<Json>, b: seq<Json>, c: seq<Json>)
    requires |v| == |w| == 3 && |b| == |c|
    ensures (forall i | 0 <= i < |v + b| :: Equivalent((v + b)[i], (w + c)[i])) <==>
      Equivalent(v[0], w[0]) && Equivalent(v[1], w[1]) && Equivalent(v[2], w[2]) && AllEquivalent(b, c)
  {
    if forall i | 0 <= i < |v + b| :: Equivalent((v + b)[i], (w + c)[i]) {
      forall i | 0 <= i < 3 ensures Equivalent(v[i], w[i]) { assert Equivalent((v + b)[i], (w + c)[i]); }
      forall i | 0 <= i < |b| ensures Equivalent(b[i], c[i]) { assert Equivalent((v + b)[i + 3], (w + c)[i + 3]); }
    }
  }

  // ----- main results

  lemma CatalogEquivalent(c: FullCatalog, d: FullCatalog)
    ensures Equivalent(CatalogJson(c), CatalogJson(d)) <==> SameCatalog(c, d)
  {
    hide Equivalent, SameList, SameService, SameAddr;
    KeysDistinct();
    forall x, y ensures Equivalent(ZoneJson(x), ZoneJson(y)) <==> x == y { ZoneEquivalent(x, y); }
    forall x, y ensures Equivalent(ServiceJson(x), ServiceJson(y)) <==> SameService(x, y) { ServiceEquivalent(x, y); }
    forall x, y ensures Equivalent(AddrJson(x), AddrJson(y)) <==> SameAddr(x, y) { AddrEquivalent(x, y); }
    forall x, y ensures Equivalent(NetworkJson(x), NetworkJson(y)) <==> x == y { NetworkEquivalent(x, y); }
    var zones, networks := (x: Zone, y: Zone) => x == y, (x: Network, y: Network) => x == y;
    EachEquivalent(ZoneJson, zones, c.zones, d.zones);
    SameListOfEquals(zones, c.zones, d.zones);
    EachEquivalent(ServiceJson, (x, y) => SameService(x, y), c.services, d.services);
    EachEquivalent(AddrJson, (x, y) => SameAddr(x, y), c.addrs, d.addrs);
    EachEquivalent(NetworkJson, networks, c.networks, d.networks);
    SameListOfEquals(networks, c.networks, d.networks);
    var v, w := CatalogValues(c), CatalogValues(d);
    RecordEquivalent(CATALOG_KEYS, v, w);
    assert (forall i | 0 <= i < 4 :: Equivalent(v[i], w[i])) <==>
      Equivalent(v[0], w[0]) && Equivalent(v[1], w[1]) && Equivalent(v[2], w[2]) && Equivalent(v[3], w[3]);
  }

  /** Without hash collisions two catalogs share a fingerprint exactly when they are the same up to list order. */
  lemma FingerprintIdentifies(hash: string -> string, c: FullCatalog, d: FullCatalog)
    requires CollisionFree(hash)
    ensures FingerprintOf(hash, c) == FingerprintOf(hash, d) <==> SameCatalog(c, d)
  {
    HashIdentifies(hash, CatalogJson(c), CatalogJson(d));
    CatalogEquivalent(c, d);
  }

  /** Order never shows, whatever the hash. */
  lemma FingerprintIgnoresOrder(hash: string -> string, c: FullCatalog, d: FullCatalog)
    requires SameCatalog(c, d)
    ensures FingerprintOf(hash, c) == FingerprintOf(hash, d)
  {
    CatalogEquivalent(c, d);
    HashIgnoresOrder(hash, CatalogJson(c), CatalogJson(d));
  }

  ghost predicate OrderedRanges(ranges: seq<(int, int)>) { forall r | r in ranges :: r.0 <= r.1 }

  /** Ranges whose start is not after their end are told apart exactly. */
  lemma OrderedRangesExact(xs: seq<(int, int)>, ys: seq<(int, int)>)
    requires OrderedRanges(xs) && OrderedRanges(ys)
    ensures SameList(SameRange, xs, ys) <==> multiset(xs) == multiset(ys)
  {
    SameListOfEquals(SameRange, xs, ys);
  }

  ghost predicate AllRangesOrdered(c: FullCatalog) {
    forall s | s in c.services && s.ranges.Some? :: OrderedRanges(s.ranges.value)
  }

  /** The same service, up to the order of its ranges and of its codes. */
  ghost predicate SameOrderedService(x: Service, y: Service) {
    && x.id == y.id && x.name == y.name && x.proto == y.proto
    && x.ranges.Some? == y.ranges.Some?
    && (x.ranges.Some? ==> multiset(x.ranges.value) == multiset(y.ranges.value))
    && x.codes.Some? == y.codes.Some?
    && (x.codes.Some? ==> multiset(x.codes.value) == multiset(y.codes.value))
  }

  /** The same catalog up to list order, the ends of every range compared as they are. */
  ghost predicate SameOrderedCatalog(c: FullCatalog, d: FullCatalog) {
    && multiset(c.zones) == multiset(d.zones)
    && SameList((x, y) => SameOrderedService(x, y), c.services, d.services)
    && SameList((x, y) => SameAddr(x, y), c.addrs, d.addrs)
    && multiset(c.networks) == multiset(d.networks)
  }

  lemma SameListAgrees<T(!new)>(rel: (T, T) -> bool, other: (T, T) -> bool, xs: seq<T>, ys: seq<T>)
    requires forall x, y | x in xs && y in ys :: rel(x, y) <==> other(x, y)
    ensures SameList(rel, xs, ys) <==> SameList(other, xs, ys)
  {
    forall p: seq<nat> | |xs| == |ys| && IsPermutation(p, |xs|)
      ensures (forall i | 0 <= i < |xs| :: rel(xs[i], ys[p[i]])) <==> forall i | 0 <= i < |xs| :: other(xs[i], ys[p[i]])
    {
      forall i | 0 <= i < |xs| ensures rel(xs[i], ys[p[i]]) <==> other(xs[i], ys[p[i]]) {
        assert xs[i] in xs && ys[p[i]] in ys;
      }
    }
  }

  /** Catalogs whose ranges are ordered: equal fingerprints exactly when equal up to list order, ranges exactly. */
  lemma OrderedCatalogIdentified(hash: string -> string, c: FullCatalog, d: FullCatalog)
    requires CollisionFree(hash) && AllRangesOrdered(c) && AllRangesOrdered(d)
    ensures FingerprintOf(hash, c) == FingerprintOf(hash, d) <==> SameOrderedCatalog(c, d)
  {
    hide CollisionFree, FingerprintOf, SameList, SameAddr;
    FingerprintIdentifies(hash, c, d);
    forall x, y | x in c.services && y in d.services ensures SameService(x, y) <==> SameOrderedService(x, y) {
      if x.ranges.Some? && y.ranges.Some? { OrderedRangesExact(x.ranges.value, y.ranges.value); }
    }
    SameListAgrees((x, y) => SameService(x, y), (x, y) => SameOrderedService(x, y), c.services, d.services);
  }

  /** A range and its reverse are not told apart, under any hash. */
  lemma SwappedRangeCollides(hash: string -> string, s: Service, lo: int, hi: int)
    ensures FingerprintOf(hash, FullCatalog([], [s.(ranges := Some([(lo, hi)]))], [], []))
      == FingerprintOf(hash, FullCatalog([], [s.(ranges := Some([(hi, lo)]))], [], []))
  {
    var x, y := s.(ranges := Some([(lo, hi)])), s.(ranges := Some([(hi, lo)]));
    Singletons(SameRange, (lo, hi), (hi, lo));
    Singletons((a, b) => SameService(a, b), x, y);
    Nothing<AddrObject>((a, b) => SameAddr(a, b));
    FingerprintIgnoresOrder(hash, FullCatalog([], [x], [], []), FullCatalog([], [y], [], []));
  }

  lemma Singletons<T(!new)>(rel: (T, T) -> bool, x: T, y: T)
    requires rel(x, y)
    ensures SameList(rel, [x], [y])
  {
    assert IsPermutation([0], 1);
  }

  lemma Nothing<T(!new)>(rel: (T, T) -> bool)
    ensures SameList(rel, [], [])
  {
    assert IsPermutation([], 0);
  }
}
