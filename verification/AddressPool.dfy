/**
  Addresses for generated devices: one host counter shared by all zones, one
  /24 per zone, and one MAC counter shared by all vendors.
 */
module AddressPool {
  import opened Collections
  import opened Text

  /** The state behind address generation: the third octet of each zone seen, and the next host. */
  datatype Pool = Pool(offsets: map<string, nat>, counter: nat)

  const FIRST_HOST := 10
  const LAST_HOST := 254
  const HOSTS := 245

  ghost predicate ValidPool(p: Pool) { FIRST_HOST <= p.counter <= LAST_HOST }

  function OffsetFor(p: Pool, zone: string): nat {
    if zone in p.offsets then p.offsets[zone] else |p.offsets|
  }

  function Take(p: Pool, zone: string): Pool {
    Pool(p.offsets[zone := OffsetFor(p, zone)], if p.counter + 1 > LAST_HOST then FIRST_HOST else p.counter + 1)
  }

  /** The third and fourth octets of an address; the first two belong to the scenario. */
  datatype Ip = Ip(offset: nat, host: nat)

  function Render(range: nat, ip: Ip): string {
    Dotted([10, range, ip.offset, ip.host])
  }

  function Subnet(range: nat, offset: nat): string {
    Render(range, Ip(offset, 0)) + "/24"
  }

  lemma {:induction false} RenderInjective(range: nat, a: Ip, b: Ip)
    ensures Render(range, a) == Render(range, b) <==> a == b
  {
    var x, y := [10, range, a.offset, a.host], [10, range, b.offset, b.host];
    if Dotted(x) == Dotted(y) {
      DottedInjective(x, y);
      assert x[2] == y[2] && x[3] == y[3];
    }
  }

  /** An address and a subnet as text. */
  lemma {:induction false} RenderExactly(range: nat, ip: Ip)
    ensures Render(range, ip) == "10." + Decimal(range) + "." + Decimal(ip.offset) + "." + Decimal(ip.host)
    ensures Subnet(range, ip.offset) == "10." + Decimal(range) + "." + Decimal(ip.offset) + ".0/24"
  {
    DottedFour(10, range, ip.offset, ip.host);
    DottedFour(10, range, ip.offset, 0);
    assert Decimal(10) == "10" && Decimal(0) == "0";
    assert "10" + "." == "10." && ".0" + "/24" == ".0/24";
    var head := "10." + Decimal(range) + "." + Decimal(ip.offset);
    assert (head + "." + "0") + "/24" == head + ".0/24";
  }

  lemma {:induction false} DottedFour(a: nat, b: nat, c: nat, d: nat)
    ensures Dotted([a, b, c, d]) == Decimal(a) + "." + Decimal(b) + "." + Decimal(c) + "." + Decimal(d)
  {
    assert [a, b, c, d][1..] == [b, c, d] && [b, c, d][1..] == [c, d] && [c, d][1..] == [d];
    assert Dotted([c, d]) == Decimal(c) + "." + Decimal(d);
    assert Dotted([b, c, d]) == Decimal(b) + "." + Decimal(c) + "." + Decimal(d);
  }

  /* ---------- runs of address generation ---------- */

  /** The state after one address for each of the zones, in order. */
  function After(p: Pool, zones: seq<string>): Pool {
    if zones == [] then p else Take(After(p, zones[..|zones| - 1]), zones[|zones| - 1])
  }

  /** The address the k-th request of a run gets. */
  function AddressAt(p: Pool, zones: seq<string>, k: nat): Ip
    requires k < |zones|
  {
    var q := After(p, zones[..k]);
    Ip(OffsetFor(q, zones[k]), q.counter)
  }

  /** The host counter k requests after it stood at `counter`. */
  function HostAt(counter: nat, k: nat): (host: nat)
    requires FIRST_HOST <= counter
    ensures FIRST_HOST <= host <= LAST_HOST
  {
    FIRST_HOST + (counter - FIRST_HOST + k) % HOSTS
  }

  lemma {:induction false} HostAfter(p: Pool, zones: seq<string>)
    requires ValidPool(p)
    ensures After(p, zones).counter == HostAt(p.counter, |zones|)
  {
    if zones != [] { HostAfter(p, zones[..|zones| - 1]); }
  }

  /** A zone's octet never changes once it has one. */
  lemma {:induction false} OffsetsOnlyGrow(p: Pool, zones: seq<string>, k: nat)
    requires k <= |zones|
    ensures forall z <- After(p, zones[..k]).offsets ::
              z in After(p, zones).offsets && After(p, zones).offsets[z] == After(p, zones[..k]).offsets[z]
  {
    if k < |zones| {
      var before := zones[..|zones| - 1];
      assert before[..k] == zones[..k];
      OffsetsOnlyGrow(p, before, k);
    } else {
      assert zones[..k] == zones;
    }
  }

  /** Each request is served from the octet its zone ends up with. */
  lemma {:induction false} OffsetUsed(p: Pool, zones: seq<string>, k: nat)
    requires k < |zones|
    ensures zones[k] in After(p, zones).offsets
    ensures After(p, zones).offsets[zones[k]] == OffsetFor(After(p, zones[..k]), zones[k])
  {
    assert zones[..k + 1][..k] == zones[..k];
    OffsetsOnlyGrow(p, zones, k + 1);
  }

  /** Every address lies in its zone's /24, with a host from 10 to 254. */
  lemma {:induction false} AddressInSubnet(p: Pool, zones: seq<string>, k: nat)
    requires ValidPool(p) && k < |zones|
    ensures zones[k] in After(p, zones).offsets
    ensures AddressAt(p, zones, k) == Ip(After(p, zones).offsets[zones[k]], HostAt(p.counter, k))
  {
    HostAfter(p, zones[..k]);
    OffsetUsed(p, zones, k);
  }

  lemma {:induction false} SameHost(counter: nat, k: nat, m: nat)
    requires FIRST_HOST <= counter && k <= m
    ensures HostAt(counter, k) == HostAt(counter, m) <==> (m - k) % HOSTS == 0
  {
    var base, d := counter - FIRST_HOST, m - k;
    var q, r := (base + k) / HOSTS, (base + k) % HOSTS;
    var e, s := d / HOSTS, d % HOSTS;
    assert base + m == (q + e) * HOSTS + (r + s);
  }

  /**
    Two requests of a run get the same address exactly when their zones share an
    octet and 245 divides their distance.
   */
  lemma {:induction false} SameAddress(p: Pool, zones: seq<string>, k: nat, m: nat)
    requires ValidPool(p) && k < m < |zones|
    ensures zones[k] in After(p, zones).offsets && zones[m] in After(p, zones).offsets
    ensures AddressAt(p, zones, k) == AddressAt(p, zones, m) <==>
              After(p, zones).offsets[zones[k]] == After(p, zones).offsets[zones[m]] && (m - k) % HOSTS == 0
  {
    AddressInSubnet(p, zones, k);
    AddressInSubnet(p, zones, m);
    SameHost(p.counter, k, m);
  }

  ghost predicate OffsetsDistinct(offsets: map<string, nat>) {
    forall y, z :: y in offsets && z in offsets && offsets[y] == offsets[z] ==> y == z
  }

  /** From a fresh start zones get the octets 0, 1, 2, ... in the order they are first used. */
  lemma {:induction false} FreshOffsetsDistinct(zones: seq<string>)
    ensures var offsets := After(Pool(map[], FIRST_HOST), zones).offsets;
            OffsetsDistinct(offsets) && forall z <- offsets :: offsets[z] < |offsets|
  {
    if zones != [] {
      var k := |zones| - 1;
      FreshOffsetsDistinct(zones[..k]);
      var before := After(Pool(map[], FIRST_HOST), zones[..k]).offsets;
      var offsets := After(Pool(map[], FIRST_HOST), zones).offsets;
      if zones[k] in before {
        assert offsets == before;
      } else {
        assert offsets.Keys == before.Keys + {zones[k]};
        assert |offsets.Keys| == |before.Keys| + 1;
      }
    }
  }

  /** Where a zone is first requested. */
  function FirstUse(requests: seq<string>, zone: string): (r: nat)
    ensures r <= |requests| && zone !in requests[..r]
    ensures r < |requests| ==> requests[r] == zone
  {
    if requests == [] || requests[0] == zone then 0
    else
      var r := FirstUse(requests[1..], zone);
      assert requests[..1 + r] == [requests[0]] + requests[1..][..r];
      1 + r
  }

  /** The zones requested that are not known yet. */
  function NewZones(known: set<string>, requests: seq<string>): set<string> {
    (set z | z in requests) - known
  }

  /** How many new zones are requested before a zone's first request. */
  function OrderOfUse(known: set<string>, requests: seq<string>, zone: string): nat {
    |NewZones(known, requests[..FirstUse(requests, zone)])|
  }

  lemma {:induction false} ZonesAfter(p: Pool, requests: seq<string>)
    ensures After(p, requests).offsets.Keys == p.offsets.Keys + NewZones(p.offsets.Keys, requests)
  {
    if requests != [] {
      var k := |requests| - 1;
      ZonesAfter(p, requests[..k]);
      assert requests == requests[..k] + [requests[k]];
    }
  }

  /** A zone not known at the start is numbered on from the known ones, in order of first use. */
  lemma {:induction false} OctetOfNewZone(p: Pool, requests: seq<string>, zone: string)
    requires zone in requests && zone !in p.offsets
    ensures zone in After(p, requests).offsets
    ensures After(p, requests).offsets[zone] == |p.offsets| + OrderOfUse(p.offsets.Keys, requests, zone)
  {
    var k := FirstUse(requests, zone);
    assert requests[..|requests|] == requests;
    OffsetUsed(p, requests, k);
    ZonesAfter(p, requests[..k]);
    var before := After(p, requests[..k]).offsets;
    assert zone !in before;
    assert |before| == |before.Keys| == |p.offsets.Keys| + |NewZones(p.offsets.Keys, requests[..k])|;
  }

  /** In one generated scenario, addresses k and m coincide exactly when the zones do and 245 divides m - k. */
  lemma {:induction false} AddressCollision(range: nat, zones: seq<string>, k: nat, m: nat)
    requires k < m < |zones|
    ensures var p := Pool(map[], FIRST_HOST);
            Render(range, AddressAt(p, zones, k)) == Render(range, AddressAt(p, zones, m)) <==>
              zones[k] == zones[m] && (m - k) % HOSTS == 0
  {
    var p := Pool(map[], FIRST_HOST);
    SameAddress(p, zones, k, m);
    FreshOffsetsDistinct(zones);
    RenderInjective(range, AddressAt(p, zones, k), AddressAt(p, zones, m));
  }

  /* ---------- MAC addresses ---------- */

  /** The last three octets, from the low 24 bits of the counter. */
  function Nic(counter: nat): (s: string)
    ensures |s| == 9
  {
    ":" + Hex2(counter / 0x1_0000 % 256) + ":" + Hex2(counter / 0x100 % 256) + ":" + Hex2(counter % 256)
  }

  const NICS := 0x100_0000

  lemma {:induction false} NicOctets(c: nat)
    ensures c / 0x1_0000 % 256 == c % NICS / 0x1_0000
    ensures c / 0x100 % 256 == c % NICS / 0x100 % 256
    ensures c % 256 == c % NICS % 256
    ensures c % NICS == c / 0x1_0000 % 256 * 0x1_0000 + c / 0x100 % 256 * 0x100 + c % 256
  {
    var q, r := c / NICS, c % NICS;
    assert c == q * NICS + r;
    assert c / 0x1_0000 == q * 256 + r / 0x1_0000;
    assert c / 0x100 == q * 0x1_0000 + r / 0x100;
  }

  lemma {:induction false} NicInjective(c: nat, d: nat)
    ensures Nic(c) == Nic(d) <==> c % NICS == d % NICS
  {
    NicOctets(c);
    NicOctets(d);
    var c2, c1, c0 := c / 0x1_0000 % 256, c / 0x100 % 256, c % 256;
    var d2, d1, d0 := d / 0x1_0000 % 256, d / 0x100 % 256, d % 256;
    if Nic(c) == Nic(d) {
      NicParts(c2, c1, c0);
      NicParts(d2, d1, d0);
      Hex2Injective(c2, d2);
      Hex2Injective(c1, d1);
      Hex2Injective(c0, d0);
    }
  }

  lemma {:induction false} NicParts(c2: nat, c1: nat, c0: nat)
    requires c2 < 256 && c1 < 256 && c0 < 256
    ensures var s := ":" + Hex2(c2) + ":" + Hex2(c1) + ":" + Hex2(c0);
            s[1..3] == Hex2(c2) && s[4..6] == Hex2(c1) && s[7..9] == Hex2(c0)
  {
  }

  /** The six hexadecimal digits denote the counter's low 24 bits, most significant octet first. */
  lemma {:induction false} NicExactly(c: nat)
    ensures var s := Nic(c);
            && s[0] == s[3] == s[6] == ':'
            && HexValue(s[1..3] + s[4..6] + s[7..9]) == c % 0x100_0000
  {
    var c2, c1, c0 := c / 0x1_0000 % 256, c / 0x100 % 256, c % 256;
    NicOctets(c);
    NicParts(c2, c1, c0);
    Hex2Denotes("", c2);
    assert "" + Hex2(c2) == Hex2(c2);
    Hex2Denotes(Hex2(c2), c1);
    Hex2Denotes(Hex2(c2) + Hex2(c1), c0);
  }

  /** Two MAC addresses coincide exactly when their prefixes do and their counters agree modulo 2^24. */
  lemma {:induction false} SameMac(oui1: string, c1: nat, oui2: string, c2: nat)
    ensures oui1 + Nic(c1) == oui2 + Nic(c2) <==> oui1 == oui2 && c1 % NICS == c2 % NICS
  {
    var a, b := oui1 + Nic(c1), oui2 + Nic(c2);
    if a == b {
      assert a[|a| - 9..] == Nic(c1) && b[|b| - 9..] == Nic(c2);
      assert a[..|a| - 9] == oui1 && b[..|b| - 9] == oui2;
    }
    NicInjective(c1, c2);
  }

  lemma {:induction false} CloseCounters(c: nat, d: nat)
    requires c < d < c + NICS
    ensures c % NICS != d % NICS
  {
    assert c == c / NICS * NICS + c % NICS && d == d / NICS * NICS + d % NICS;
  }

  /** Any 2^24 consecutive MAC addresses are pairwise distinct, whatever the prefixes. */
  lemma {:induction false} ConsecutiveMacsDistinct(oui1: string, oui2: string, c: nat, d: nat)
    requires c < d < c + NICS
    ensures oui1 + Nic(c) != oui2 + Nic(d)
  {
    CloseCounters(c, d);
    SameMac(oui1, c, oui2, d);
  }

  /** The MAC addresses of the first n prefixes, from a counter that stood at c. */
  ghost predicate AreMacs(macs: seq<string>, ouis: seq<string>, c: nat, n: nat) {
    |macs| == n <= |ouis| && forall k :: 0 <= k < n ==> IsMacAt(macs, ouis, c, k)
  }

  ghost predicate IsMacAt(macs: seq<string>, ouis: seq<string>, c: nat, k: nat)
    requires k < |macs| && k < |ouis|
  {
    macs[k] == ouis[k] + Nic(c + k)
  }

  ghost predicate AreDistinctWithin(s: seq<string>, distance: nat) {
    forall j, k :: 0 <= j < k < |s| && k - j < distance ==> s[j] != s[k]
  }

  lemma {:induction false} NextMac(macs: seq<string>, ouis: seq<string>, c: nat, n: nat, mac: string)
    requires AreMacs(macs, ouis, c, n) && n < |ouis| && mac == ouis[n] + Nic(c + n)
    ensures AreMacs(macs + [mac], ouis, c, n + 1)
  {
    forall k | 0 <= k <= n ensures IsMacAt(macs + [mac], ouis, c, k) {
      if k < n { assert IsMacAt(macs, ouis, c, k); }
    }
  }

  lemma {:induction false} MacsDiffer(macs: seq<string>, ouis: seq<string>, c: nat, j: nat, k: nat)
    requires AreMacs(macs, ouis, c, |ouis|) && j < k < |macs| && k - j < NICS
    ensures macs[j] != macs[k]
  {
    assert IsMacAt(macs, ouis, c, j) && IsMacAt(macs, ouis, c, k);
    ConsecutiveMacsDistinct(ouis[j], ouis[k], c + j, c + k);
  }

  lemma {:induction false} MacsAreDistinct(macs: seq<string>, ouis: seq<string>, c: nat)
    requires AreMacs(macs, ouis, c, |ouis|)
    ensures AreDistinctWithin(macs, 0x100_0000)
  {
    forall j, k | 0 <= j < k < |macs| && k - j < 0x100_0000 ensures macs[j] != macs[k] {
      MacsDiffer(macs, ouis, c, j, k);
    }
  }

  /* ---------- zone records ---------- */

  datatype Device = Device(id: string, zone: string)

  datatype Zone = Zone(id: string, name: string, offset: nat, vlan: nat, subnet: string, gateway: string,
                       deviceCount: nat, deviceIds: seq<string>)

  /** `replace(" ", "_")` */
  function Underscored(s: string): (r: string)
    ensures |r| == |s|
  {
    seq(|s|, i requires 0 <= i < |s| => if s[i] == ' ' then '_' else s[i])
  }

  /** The record of the i-th template zone; `lower` is the conversion of text to lower case. */
  function ZoneRecord(range: nat, offsets: map<string, nat>, names: seq<string>, i: nat, devices: seq<Device>,
                      lower: string -> string): Zone
    requires i < |names|
  {
    var offset, residents := RecordedOffset(offsets, names, i), Keep(InZone(names[i]), devices);
    Zone(Underscored(lower(names[i])), names[i], offset, 100 + i * 10, Subnet(range, offset),
      Render(range, Ip(offset, 1)),
         |residents|, Ids(residents))
  }

  /** The zones of the devices, in the order addresses are requested. */
  function Requests(devices: seq<Device>): (r: seq<string>)
    ensures |r| == |devices|
  {
    seq(|devices|, k requires 0 <= k < |devices| => devices[k].zone)
  }

  function InZone(zone: string): Device -> bool { (d: Device) => d.zone == zone }

  function Ids(devices: seq<Device>): (r: seq<string>)
    ensures |r| == |devices|
  {
    seq(|devices|, i requires 0 <= i < |devices| => devices[i].id)
  }

  /** The octet recorded for the i-th zone: its own, or its position if no device has used it. */
  function RecordedOffset(offsets: map<string, nat>, zones: seq<string>, i: nat): nat
    requires i < |zones|
  {
    if zones[i] in offsets then offsets[zones[i]] else i
  }

  /** A zone record in full: id and name, VLAN, /24 and gateway, and the devices of the zone in order. */
  lemma {:induction false} RecordExactly(range: nat, offsets: map<string, nat>, names: seq<string>, i: nat,
                                         devices: seq<Device>, lower: string -> string)
    requires i < |names|
    ensures var z := ZoneRecord(range, offsets, names, i, devices, lower);
            && z.name == names[i] && |z.id| == |lower(names[i])| && ' ' !in z.id
            && (forall k :: 0 <= k < |z.id| ==>
                  z.id[k] == lower(names[i])[k] || (lower(names[i])[k] == ' ' && z.id[k] == '_'))
            && z.offset == (if names[i] in offsets then offsets[names[i]] else i) && z.vlan == 100 + 10 * i
            && z.subnet == "10." + Decimal(range) + "." + Decimal(z.offset) + ".0/24"
            && z.gateway == "10." + Decimal(range) + "." + Decimal(z.offset) + "." + Decimal(1)
            && z.deviceCount == |z.deviceIds|
            && exists ks :: AreOfZone(z.deviceIds, devices, names[i], ks)
  {
    var z := ZoneRecord(range, offsets, names, i, devices, lower);
    RenderExactly(range, Ip(z.offset, 1));
    UnderscoredExactly(lower(names[i]));
    ResidentsOf(devices, names[i]);
  }

  lemma {:induction false} UnderscoredExactly(s: string)
    ensures ' ' !in Underscored(s)
    ensures forall k :: 0 <= k < |s| ==> Underscored(s)[k] == s[k] || (s[k] == ' ' && Underscored(s)[k] == '_')
  {
  }

  lemma {:induction false} ResidentsOf(devices: seq<Device>, zone: string)
    ensures exists ks :: AreOfZone(Ids(Keep(InZone(zone), devices)), devices, zone, ks)
  {
    var ks := KeepPositions(InZone(zone), devices);
    assert AreOfZone(Ids(Keep(InZone(zone), devices)), devices, zone, ks);
  }

  /** The ids of the devices generated in a zone, in their order. */
  ghost predicate AreOfZone(ids: seq<string>, devices: seq<Device>, zone: string, ks: seq<nat>) {
    && Rising(ks, |devices|) && |ids| == |ks| && (forall m :: 0 <= m < |ks| ==> ids[m] == devices[ks[m]].id)
    && forall k :: 0 <= k < |devices| ==> (k in ks <==> devices[k].zone == zone)
  }

  /** No device is ever given the address of a gateway, whatever the zones' octets. */
  lemma {:induction false} GatewaysAreFree(range: nat, p: Pool, requests: seq<string>, k: nat, offset: nat)
    requires ValidPool(p) && k < |requests|
    ensures Render(range, AddressAt(p, requests, k)) != Render(range, Ip(offset, 1))
  {
    AddressInSubnet(p, requests, k);
    RenderInjective(range, AddressAt(p, requests, k), Ip(offset, 1));
  }

  /** The octets of a generated scenario whose devices requested addresses for these zones, in order. */
  function ScenarioOffsets(requests: seq<string>): map<string, nat> {
    After(Pool(map[], FIRST_HOST), requests).offsets
  }

  /**
    In a generated scenario two template zones are recorded with one subnet exactly
    when one has no device and its position in the template is the order in which
    the devices first used the other.
   */
  lemma {:induction false} SharedSubnet(requests: seq<string>, zones: seq<string>, i: nat, j: nat)
    requires i < |zones| && j < |zones| && zones[i] != zones[j]
    ensures var offsets := ScenarioOffsets(requests);
            RecordedOffset(offsets, zones, i) == RecordedOffset(offsets, zones, j) <==>
              || (zones[i] in requests && zones[j] !in requests && OrderOfUse({}, requests, zones[i]) == j)
              || (zones[j] in requests && zones[i] !in requests && OrderOfUse({}, requests, zones[j]) == i)
  {
    ScenarioOctet(requests, zones[i]);
    ScenarioOctet(requests, zones[j]);
    FreshOffsetsDistinct(requests);
  }

  lemma {:induction false} ScenarioOctet(requests: seq<string>, zone: string)
    ensures zone in ScenarioOffsets(requests) <==> zone in requests
    ensures zone in requests ==> ScenarioOffsets(requests)[zone] == OrderOfUse({}, requests, zone)
  {
    var p := Pool(map[], FIRST_HOST);
    ZonesAfter(p, requests);
    if zone in requests {
      OctetOfNewZone(p, requests, zone);
    }
  }

  /** With a middle zone unused, it shares its subnet with the last one. */
  lemma {:induction false} SafetyZoneSharesSubnet()
    ensures var zones := ["process_control", "safety", "enterprise"];
            var offsets := ScenarioOffsets(["process_control", "enterprise"]);
            RecordedOffset(offsets, zones, 1) == RecordedOffset(offsets, zones, 2) == 1
  {
    var requests := ["process_control", "enterprise"];
    assert requests[0] != requests[1];
    assert FirstUse(requests, "enterprise") == 1;
    assert requests[..1] == ["process_control"] && "process_control" in requests[..1];
    assert NewZones({}, requests[..1]) == {"process_control"};
    assert "safety" !in requests;
    ScenarioOctet(requests, "safety");
    ScenarioOctet(requests, "enterprise");
  }

  class Generator {
    const rangeIndex: nat
    var ipCounter: nat
    var macCounter: nat
    var zoneSubnetMap: map<string, nat>

    constructor (rangeIndex: nat)
      ensures this.rangeIndex == rangeIndex && State() == Pool(map[], FIRST_HOST) && macCounter == 1
    {
      this.rangeIndex, ipCounter, macCounter, zoneSubnetMap := rangeIndex, 10, 1, map[];
    }

    ghost function State(): Pool
      reads this
    {
      Pool(zoneSubnetMap, ipCounter)
    }

    /** What starting a new scenario does; the MAC counter goes on. */
    method ResetCounters()
      modifies `ipCounter, `zoneSubnetMap
      ensures State() == Pool(map[], FIRST_HOST)
    {
      ipCounter := 10;
      zoneSubnetMap := map[];
    }

    method GenerateIp(zone: string) returns (ip: string)
      modifies `ipCounter, `zoneSubnetMap
      ensures ip == Render(rangeIndex, Ip(OffsetFor(old(State()), zone), old(ipCounter)))
      ensures State() == Take(old(State()), zone)
    {
      if zone !in zoneSubnetMap {
        zoneSubnetMap := zoneSubnetMap[zone := |zoneSubnetMap|];
      }
      assert State().offsets == old(State()).offsets[zone := OffsetFor(old(State()), zone)];
      var subnetOffset := zoneSubnetMap[zone];
      ip := Render(rangeIndex, Ip(subnetOffset, ipCounter));
      ipCounter := ipCounter + 1;
      if ipCounter > 254 {
        ipCounter := 10;
      }
    }

    method GenerateMacWithOui(oui: string) returns (mac: string)
      modifies `macCounter
      ensures mac == oui + Nic(old(macCounter)) && macCounter == old(macCounter) + 1
    {
      mac := oui + Nic(macCounter);
      macCounter := macCounter + 1;
    }

    /** Appends the next MAC address. */
    method AppendMac(macs: seq<string>, ouis: seq<string>, ghost c: nat, i: nat) returns (r: seq<string>)
      requires i < |ouis| && macCounter == c + i && AreMacs(macs, ouis, c, i)
      modifies `macCounter
      ensures macCounter == c + i + 1 && AreMacs(r, ouis, c, i + 1)
    {
      var mac := GenerateMacWithOui(ouis[i]);
      NextMac(macs, ouis, c, i, mac);
      r := macs + [mac];
    }

    /** One MAC address for each device; no two of 2^24 in a row are the same, whatever the prefixes. */
    method GenerateMacs(ouis: seq<string>) returns (macs: seq<string>)
      modifies `macCounter
      ensures macCounter == old(macCounter) + |ouis| && AreMacs(macs, ouis, old(macCounter), |ouis|)
      ensures AreDistinctWithin(macs, 0x100_0000)
    {
      macs := [];
      for i := 0 to |ouis|
        invariant macCounter == old(macCounter) + i && AreMacs(macs, ouis, old(macCounter), i)
      {
        macs := AppendMac(macs, ouis, old(macCounter), i);
      }
      MacsAreDistinct(macs, ouis, old(macCounter));
    }

    /** One address for each device, in order, as device generation asks for them. */
    method GenerateIps(zones: seq<string>) returns (ips: seq<string>)
      requires ValidPool(State())
      modifies `ipCounter, `zoneSubnetMap
      ensures |ips| == |zones| && forall k :: 0 <= k < |zones| ==>
                ips[k] == Render(rangeIndex, AddressAt(old(State()), zones, k))
      ensures State() == After(old(State()), zones)
    {
      ips := [];
      for i := 0 to |zones|
        invariant |ips| == i && forall k :: 0 <= k < i ==>
            ips[k] == Render(rangeIndex, AddressAt(old(State()), zones, k))
        invariant State() == After(old(State()), zones[..i])
      {
        assert zones[..i + 1][..i] == zones[..i];
        var ip := GenerateIp(zones[i]);
        ips := ips + [ip];
      }
      assert zones[..|zones|] == zones;
    }

    method GenerateZones(names: seq<string>, devices: seq<Device>, lower: string -> string) returns (zones: seq<Zone>)
      ensures |zones| == |names|
      ensures forall i :: 0 <= i < |zones| ==>
        zones[i] == ZoneRecord(rangeIndex, zoneSubnetMap, names, i, devices, lower)
    {
      zones := [];
      for i := 0 to |names|
        invariant |zones| == i
        invariant forall k :: 0 <= k < i ==>
          zones[k] == ZoneRecord(rangeIndex, zoneSubnetMap, names, k, devices, lower)
      {
        var zoneDevices := Keep(InZone(names[i]), devices);
        var offset := if names[i] in zoneSubnetMap then zoneSubnetMap[names[i]] else i;
        var id := Underscored(lower(names[i]));
        zones := zones + [Zone(id, names[i], offset, 100 + i * 10, Subnet(rangeIndex, offset),
                               Render(rangeIndex, Ip(offset, 1)), |zoneDevices|, Ids(zoneDevices))];
      }
    }

    /**
      Addresses and zone records of one scenario agree: each device's address
      lies in the /24 recorded for the template zone it was generated in.
     */
    method GenerateNetwork(names: seq<string>, devices: seq<Device>, lower: string -> string)
      returns (ips: seq<string>, zones: seq<Zone>)
      requires ValidPool(State())
      modifies `ipCounter, `zoneSubnetMap
      ensures |ips| == |devices| && |zones| == |names|
      ensures forall k :: 0 <= k < |devices| ==>
                ips[k] == Render(rangeIndex, AddressAt(old(State()), Requests(devices), k))
      ensures zoneSubnetMap == After(old(State()), Requests(devices)).offsets
      ensures forall i :: 0 <= i < |names| ==> zones[i].offset == RecordedOffset(zoneSubnetMap, names, i)
      ensures forall k, i :: 0 <= k < |devices| && 0 <= i < |names| && devices[k].zone == names[i] ==>
        && zones[i].name == names[i] && zones[i].subnet == Subnet(rangeIndex, zones[i].offset)
        && exists host :: FIRST_HOST <= host <= LAST_HOST && ips[k] == Render(rangeIndex, Ip(zones[i].offset, host))
    {
      var requests := Requests(devices);
      ips := GenerateIps(requests);
      zones := GenerateZones(names, devices, lower);
      forall k, i | 0 <= k < |devices| && 0 <= i < |names| && devices[k].zone == names[i]
        ensures exists host ::
                  FIRST_HOST <= host <= LAST_HOST && ips[k] == Render(rangeIndex, Ip(zones[i].offset, host))
      {
        AddressInSubnet(old(State()), requests, k);
        var host := HostAt(old(ipCounter), k);
        assert ips[k] == Render(rangeIndex, Ip(zones[i].offset, host));
      }
    }

    /** A whole scenario, from fresh counters. */
    method GenerateScenario(names: seq<string>, devices: seq<Device>, lower: string -> string)
      returns (ips: seq<string>, zones: seq<Zone>)
      modifies `ipCounter, `zoneSubnetMap
      ensures |ips| == |devices| && |zones| == |names|
      ensures forall k :: 0 <= k < |devices| ==>
        ips[k] == Render(rangeIndex, AddressAt(Pool(map[], FIRST_HOST), Requests(devices), k))
      ensures forall i :: 0 <= i < |names| ==>
        zones[i].offset == RecordedOffset(ScenarioOffsets(Requests(devices)), names, i)
    {
      ResetCounters();
      ips, zones := GenerateNetwork(names, devices, lower);
    }
  }
}
