/** Turning an AI design into zones, placed and addressed devices, flows and conduits. */
module ScenarioBuild {
  import opened Collections
  import opened Text
  import Addresses = AddressPool
  import T = Topology
  import C = Conduits

  datatype ZoneDesign = ZoneDesign(id: string, name: string, offset: Option<nat>, vlan: Option<int>)

  datatype DeviceDesign = DeviceDesign(name: string, kind: string, zoneId: Option<string>)

  datatype FlowDesign = FlowDesign(source: string, target: string, protocol: string, pollMs: int, description: string)

  datatype Zone = Zone(id: string, name: string, offset: nat, vlan: int, deviceCount: nat, deviceIds: seq<string>)

  /* ---------- zones ---------- */

  function ZoneFor(z: ZoneDesign, i: nat): Zone {
    Zone(z.id, z.name, z.offset.GetOr(i), if z.vlan.GetOr(0) != 0 then z.vlan.value else 100 + i * 10, 0, [])
  }

  function DefaultZone(): Zone { Zone("default", "Process_Control", 0, 100, 0, []) }

  /** The declared zones, or the default one if there are none. */
  function ZonesFor(designs: seq<ZoneDesign>): (r: seq<Zone>)
    ensures r != []
  {
    if designs == [] then [DefaultZone()] else seq(|designs|, i requires 0 <= i < |designs| => ZoneFor(designs[i], i))
  }

  /** Third octets by zone id; of two zones with one id the later counts. */
  function OffsetsOf(zones: seq<Zone>): map<string, nat> {
    if zones == [] then map[] else OffsetsOf(zones[..|zones| - 1])[zones[|zones| - 1].id := zones[|zones| - 1].offset]
  }

  function NamesOf(zones: seq<Zone>): map<string, string> {
    if zones == [] then map[] else NamesOf(zones[..|zones| - 1])[zones[|zones| - 1].id := zones[|zones| - 1].name]
  }

  /** A zone as designed, without devices; its place in the design stands in for an octet or a VLAN not given. */
  ghost predicate IsDesigned(zone: Zone, z: ZoneDesign, i: nat) {
    && zone.id == z.id && zone.name == z.name && zone.deviceCount == 0 && zone.deviceIds == []
    && (if z.offset.Some? then zone.offset == z.offset.value else zone.offset == i)
    && (if z.vlan.Some? && z.vlan.value != 0 then zone.vlan == z.vlan.value else zone.vlan == 100 + 10 * i)
  }

  /** The last zone with an id. */
  ghost predicate IsLastZone(zones: seq<Zone>, id: string, k: int) {
    0 <= k < |zones| && zones[k].id == id && forall i :: k < i < |zones| ==> zones[i].id != id
  }

  /** The tables of zones by id: of two with one id the later counts. */
  lemma {:induction false} TablesExactly(zones: seq<Zone>, id: string)
    ensures id in OffsetsOf(zones) <==> exists k :: IsLastZone(zones, id, k)
    ensures id in NamesOf(zones) <==> exists k :: IsLastZone(zones, id, k)
    ensures forall k :: IsLastZone(zones, id, k) ==>
              && id in OffsetsOf(zones) && OffsetsOf(zones)[id] == zones[k].offset
              && id in NamesOf(zones) && NamesOf(zones)[id] == zones[k].name
  {
    if zones != [] {
      var n := |zones| - 1;
      TablesExactly(zones[..n], id);
      if zones[n].id == id {
        assert IsLastZone(zones, id, n);
      } else {
        forall k ensures IsLastZone(zones, id, k) <==> IsLastZone(zones[..n], id, k) {
        }
      }
    }
  }

  method BuildZones(designs: seq<ZoneDesign>)
    returns (zones: seq<Zone>, offsets: map<string, nat>, names: map<string, string>)
    ensures zones == ZonesFor(designs) && offsets == OffsetsOf(zones) && names == NamesOf(zones)
    ensures if designs == [] then zones == [Zone("default", "Process_Control", 0, 100, 0, [])]
            else |zones| == |designs| && forall i :: 0 <= i < |zones| ==> IsDesigned(zones[i], designs[i], i)
  {
    zones, offsets, names := [], map[], map[];
    for i := 0 to |designs|
      invariant |zones| == i && forall k :: 0 <= k < i ==> zones[k] == ZoneFor(designs[k], k)
      invariant offsets == OffsetsOf(zones) && names == NamesOf(zones)
    {
      var z := designs[i];
      var zone := ZoneFor(z, i);
      assert (zones + [zone])[..i] == zones;
      names := names[z.id := z.name];
      offsets := offsets[z.id := zone.offset];
      zones := zones + [zone];
    }
    if zones == [] {
      zones, offsets, names := [DefaultZone()], map["default" := 0], map["default" := "Process_Control"];
      assert zones[..0] == [];
    }
  }

  /* ---------- placing devices ---------- */

  /** The zone id a device asks for, or the first zone's. */
  function WantedId(zones: seq<Zone>, d: DeviceDesign): string
    requires zones != []
  {
    if d.zoneId.GetOr("") == "" then zones[0].id else d.zoneId.value
  }

  function WantedName(zones: seq<Zone>, d: DeviceDesign): string
    requires zones != []
  {
    var id := WantedId(zones, d);
    if id in NamesOf(zones) then NamesOf(zones)[id] else zones[0].name
  }

  predicate Matches(z: Zone, id: string, name: string) { z.id == id || z.name == name }

  /** The position of the first zone with this id or this name. */
  function FirstMatch(zones: seq<Zone>, id: string, name: string): (r: nat)
    ensures r <= |zones|
    ensures r < |zones| ==> Matches(zones[r], id, name)
    ensures forall k :: 0 <= k < r ==> !Matches(zones[k], id, name)
  {
    if zones == [] || Matches(zones[0], id, name) then 0 else 1 + FirstMatch(zones[1..], id, name)
  }

  lemma {:induction false} NamesAreZones(zones: seq<Zone>, id: string)
    ensures id in NamesOf(zones) <==> exists i :: 0 <= i < |zones| && zones[i].id == id
    ensures id in NamesOf(zones) ==> exists i ::
              0 <= i < |zones| && zones[i].id == id && zones[i].name == NamesOf(zones)[id]
  {
    if zones != [] {
      var k := |zones| - 1;
      NamesAreZones(zones[..k], id);
      if zones[k].id != id {
        assert forall i :: 0 <= i < k ==> zones[..k][i] == zones[i];
      }
    }
  }

  /** Where a device is placed: some zone always matches, whatever its design refers to. */
  function Home(zones: seq<Zone>, d: DeviceDesign): (r: nat)
    requires zones != []
    ensures r < |zones|
  {
    NamesAreZones(zones, WantedId(zones, d));
    FirstMatch(zones, WantedId(zones, d), WantedName(zones, d))
  }

  /** The ids of the devices placed in zone j, in order. */
  function Residents(zones: seq<Zone>, devices: seq<DeviceDesign>, ids: seq<string>, j: nat): seq<string>
    requires zones != [] && |ids| == |devices|
  {
    if devices == [] then []
    else
      var k := |devices| - 1;
      var before := Residents(zones, devices[..k], ids[..k], j);
      if Home(zones, devices[k]) == j then before + [ids[k]] else before
  }

  function WantedIds(zones: seq<Zone>, devices: seq<DeviceDesign>): (r: seq<string>)
    requires zones != []
    ensures |r| == |devices|
  {
    seq(|devices|, k requires 0 <= k < |devices| => WantedId(zones, devices[k]))
  }

  /** `placed` are the zones with their devices filled in. */
  ghost predicate Placed(placed: seq<Zone>, zones: seq<Zone>, devices: seq<DeviceDesign>, ids: seq<string>)
    requires zones != [] && |ids| == |devices|
  {
    && |placed| == |zones|
    && forall j :: 0 <= j < |zones| ==>
         var residents := Residents(zones, devices, ids, j);
         placed[j] == zones[j].(deviceCount := |residents|, deviceIds := residents)
  }

  lemma {:induction false} MatchIgnoresDevices(placed: seq<Zone>, zones: seq<Zone>, id: string, name: string)
    requires |placed| == |zones| && forall j :: 0 <= j < |zones| ==>
              placed[j].id == zones[j].id && placed[j].name == zones[j].name
    ensures FirstMatch(placed, id, name) == FirstMatch(zones, id, name)
  {
    var a, b := FirstMatch(placed, id, name), FirstMatch(zones, id, name);
    assert a < |zones| ==> Matches(zones[a], id, name);
    assert b < |zones| ==> Matches(placed[b], id, name);
  }

  /** The first n requests of a run, starting from pool p, were answered with these addresses. */
  ghost predicate Addressed(ips: seq<string>, range: nat, p: Addresses.Pool, wanted: seq<string>, n: nat) {
    && |ips| == n <= |wanted|
    && forall j :: 0 <= j < n ==> ips[j] == Addresses.Render(range, Addresses.AddressAt(p, wanted, j))
  }

  /** The device loop: an address and a zone for every device; `ids` are fresh UUIDs. */
  method PlaceDevices(gen: Addresses.Generator, zones: seq<Zone>, names: map<string, string>,
                      devices: seq<DeviceDesign>, ids: seq<string>)
    returns (placed: seq<Zone>, ips: seq<string>)
    requires zones != [] && names == NamesOf(zones) && |ids| == |devices|
    requires forall z <- zones :: z.deviceIds == [] && z.deviceCount == 0
    modifies gen
    ensures Placed(placed, zones, devices, ids)
    ensures gen.State() == Addresses.After(old(gen.State()), WantedIds(zones, devices))
    ensures Addressed(ips, gen.rangeIndex, old(gen.State()), WantedIds(zones, devices), |devices|)
  {
    placed, ips := zones, [];
    ghost var p, wanted := gen.State(), WantedIds(zones, devices);
    for k := 0 to |devices|
      invariant Placed(placed, zones, devices[..k], ids[..k])
      invariant gen.State() == Addresses.After(p, wanted[..k])
      invariant Addressed(ips, gen.rangeIndex, p, wanted, k)
    {
      TakeNext(devices, k);
      TakeNext(ids, k);
      var zoneId := WantedId(zones, devices[k]);
      ips := AddressDevice(gen, p, wanted, ips, k, zoneId);
      var zoneName := if zoneId in names then names[zoneId] else zones[0].name;
      placed := AddResident(placed, zones, devices[..k], ids[..k], zoneId, zoneName, devices[k], ids[k]);
    }
    assert devices[..|devices|] == devices && ids[..|ids|] == ids && wanted[..|wanted|] == wanted;
  }

  /** Appends the next address. */
  method AddressDevice(gen: Addresses.Generator, ghost p: Addresses.Pool, ghost wanted: seq<string>, ips: seq<string>,
                       ghost k: nat, zoneId: string)
    returns (r: seq<string>)
    requires k < |wanted| && zoneId == wanted[k] && gen.State() == Addresses.After(p, wanted[..k])
    requires Addressed(ips, gen.rangeIndex, p, wanted, k)
    modifies gen
    ensures gen.State() == Addresses.After(p, wanted[..k + 1]) && Addressed(r, gen.rangeIndex, p, wanted, k + 1)
  {
    assert wanted[..k + 1][..k] == wanted[..k];
    var ip := gen.GenerateIp(zoneId);
    r := ips + [ip];
  }

  /** Adds a device to the first zone with its zone's id or name. */
  method AddResident(placed: seq<Zone>, ghost zones: seq<Zone>, ghost devices: seq<DeviceDesign>,
                     ghost ids: seq<string>, zoneId: string, zoneName: string, ghost d: DeviceDesign, id: string)
    returns (r: seq<Zone>)
    requires zones != [] && |ids| == |devices| && Placed(placed, zones, devices, ids)
    requires zoneId == WantedId(zones, d) && zoneName == WantedName(zones, d)
    ensures Placed(r, zones, devices + [d], ids + [id])
  {
    r := placed;
    ghost var home := Home(zones, d);
    MatchIgnoresDevices(placed, zones, zoneId, zoneName);
    assert (devices + [d])[..|devices|] == devices && (ids + [id])[..|ids|] == ids;
    for j := 0 to |placed|
      invariant r == placed && j <= home
    {
      assert Matches(placed[j], zoneId, zoneName) == Matches(zones[j], zoneId, zoneName);
      if placed[j].id == zoneId || placed[j].name == zoneName {
        assert j == home;
        r := placed[j := placed[j].(deviceCount := placed[j].deviceCount + 1, deviceIds := placed[j].deviceIds + [id])];
        return;
      }
    }
  }

  /* ---------- every device in one zone ---------- */

  ghost predicate Distinct(s: seq<string>) { forall i, j :: 0 <= i < j < |s| ==> s[i] != s[j] }

  lemma {:induction false} ResidentsExactly(zones: seq<Zone>, devices: seq<DeviceDesign>, ids: seq<string>, j: nat)
    requires zones != [] && |ids| == |devices|
    ensures forall id :: id in Residents(zones, devices, ids, j) <==>
              exists k :: 0 <= k < |devices| && ids[k] == id && Home(zones, devices[k]) == j
  {
    if devices != [] {
      var k := |devices| - 1;
      ResidentsExactly(zones, devices[..k], ids[..k], j);
      assert forall i :: 0 <= i < k ==> devices[..k][i] == devices[i] && ids[..k][i] == ids[i];
    }
  }

  ghost predicate AreResidents(residents: seq<string>, zones: seq<Zone>, devices: seq<DeviceDesign>, ids: seq<string>,
                               j: nat, ks: seq<nat>)
    requires zones != [] && |ids| == |devices|
  {
    && Rising(ks, |devices|) && |residents| == |ks|
    && (forall m :: 0 <= m < |ks| ==> residents[m] == ids[ks[m]])
    && forall k :: 0 <= k < |devices| ==> (k in ks <==> Home(zones, devices[k]) == j)
  }

  lemma {:induction false} ResidentsSnoc(residents: seq<string>, zones: seq<Zone>, devices: seq<DeviceDesign>,
                                         ids: seq<string>, j: nat, ks: seq<nat>, d: DeviceDesign, id: string)
    requires zones != [] && |ids| == |devices| && AreResidents(residents, zones, devices, ids, j, ks)
    ensures if Home(zones, d) == j
            then AreResidents(residents + [id], zones, devices + [d], ids + [id], j, ks + [|devices|])
            else AreResidents(residents, zones, devices + [d], ids + [id], j, ks)
  {
    RisingSnoc(ks, |devices|);
  }

  lemma {:induction false} ResidentsStep(zones: seq<Zone>, devices: seq<DeviceDesign>, ids: seq<string>, j: nat,
                                         d: DeviceDesign, id: string)
    requires zones != [] && |ids| == |devices|
    ensures var before := Residents(zones, devices, ids, j);
            Residents(zones, devices + [d], ids + [id], j) == if Home(zones, d) == j then before + [id] else before
  {
    assert (devices + [d])[..|devices|] == devices && (ids + [id])[..|ids|] == ids;
  }

  lemma {:induction false} ResidentsNext(zones: seq<Zone>, devices: seq<DeviceDesign>, ids: seq<string>, j: nat,
                                         ks: seq<nat>, d: DeviceDesign, id: string) returns (more: seq<nat>)
    requires zones != [] && |ids| == |devices|
    requires AreResidents(Residents(zones, devices, ids, j), zones, devices, ids, j, ks)
    ensures AreResidents(Residents(zones, devices + [d], ids + [id], j), zones, devices + [d], ids + [id], j, more)
  {
    ResidentsSnoc(Residents(zones, devices, ids, j), zones, devices, ids, j, ks, d, id);
    ResidentsStep(zones, devices, ids, j, d, id);
    more := if Home(zones, d) == j then ks + [|devices|] else ks;
  }

  lemma {:induction false} ResidentPositions(zones: seq<Zone>, devices: seq<DeviceDesign>, ids: seq<string>, j: nat)
    returns (ks: seq<nat>)
    requires zones != [] && |ids| == |devices|
    ensures AreResidents(Residents(zones, devices, ids, j), zones, devices, ids, j, ks)
  {
    ks := [];
    if devices != [] {
      var n := |devices| - 1;
      ks := ResidentPositions(zones, devices[..n], ids[..n], j);
      ks := ResidentsNext(zones, devices[..n], ids[..n], j, ks, devices[n], ids[n]);
      assert devices == devices[..n] + [devices[n]] && ids == ids[..n] + [ids[n]];
    }
  }

  /** A zone's devices: those of the design it is home to, in the order of the design. */
  lemma {:induction false} ResidentsInOrder(zones: seq<Zone>, devices: seq<DeviceDesign>, ids: seq<string>, j: nat)
    requires zones != [] && |ids| == |devices|
    ensures exists ks :: AreResidents(Residents(zones, devices, ids, j), zones, devices, ids, j, ks)
  {
    var ks := ResidentPositions(zones, devices, ids, j);
  }

  /** The id and the name a device's zone reference stands for. */
  ghost predicate RefersTo(zones: seq<Zone>, d: DeviceDesign, id: string, name: string)
    requires zones != []
  {
    && id == (if d.zoneId.Some? && d.zoneId.value != "" then d.zoneId.value else zones[0].id)
    && if exists k :: IsLastZone(zones, id, k) then exists k :: IsLastZone(zones, id, k) && name == zones[k].name
       else name == zones[0].name
  }

  /** Where a device is placed: in the first zone with the id or the name it refers to. */
  lemma {:induction false} HomeExactly(zones: seq<Zone>, d: DeviceDesign)
    requires zones != []
    ensures exists id, name ::
              && RefersTo(zones, d, id, name)
              && (zones[Home(zones, d)].id == id || zones[Home(zones, d)].name == name)
              && forall i :: 0 <= i < Home(zones, d) ==> zones[i].id != id && zones[i].name != name
  {
    var id, name := WantedId(zones, d), WantedName(zones, d);
    TablesExactly(zones, id);
    assert RefersTo(zones, d, id, name);
    assert Matches(zones[Home(zones, d)], id, name);
    assert forall i :: 0 <= i < Home(zones, d) ==> !Matches(zones[i], id, name);
  }

  /** Each device is listed by exactly one zone, its home, and each zone counts the devices it lists. */
  lemma {:induction false} ZonePartition(placed: seq<Zone>, zones: seq<Zone>, devices: seq<DeviceDesign>,
                                         ids: seq<string>, k: nat, j: nat)
    requires zones != [] && |ids| == |devices| && Distinct(ids) && Placed(placed, zones, devices, ids)
    requires k < |devices| && j < |placed|
    ensures ids[k] in placed[j].deviceIds <==> j == Home(zones, devices[k])
    ensures placed[j].deviceCount == |placed[j].deviceIds|
  {
    ResidentsExactly(zones, devices, ids, j);
  }

  /* ---------- addresses and zones ---------- */

  ghost predicate ZonesDistinct(zones: seq<Zone>) {
    forall i, j :: 0 <= i < j < |zones| ==> zones[i].id != zones[j].id && zones[i].name != zones[j].name
  }

  lemma {:induction false} OffsetsRecorded(zones: seq<Zone>, i: nat)
    requires ZonesDistinct(zones) && i < |zones|
    ensures zones[i].id in OffsetsOf(zones) && OffsetsOf(zones)[zones[i].id] == zones[i].offset
    ensures zones[i].id in NamesOf(zones) && NamesOf(zones)[zones[i].id] == zones[i].name
  {
    if i < |zones| - 1 { OffsetsRecorded(zones[..|zones| - 1], i); }
  }

  lemma {:induction false} OffsetKeys(zones: seq<Zone>)
    ensures forall id :: id in OffsetsOf(zones) <==> id in NamesOf(zones)
    ensures ZonesDistinct(zones) ==> |OffsetsOf(zones)| == |zones|
  {
    if zones != [] {
      var k := |zones| - 1;
      OffsetKeys(zones[..k]);
      NamesAreZones(zones[..k], zones[k].id);
      var before := OffsetsOf(zones[..k]);
      assert OffsetsOf(zones).Keys == before.Keys + {zones[k].id};
      if ZonesDistinct(zones) {
        assert zones[k].id !in before;
        assert |OffsetsOf(zones).Keys| == |before.Keys| + 1;
      }
    }
  }

  /** A device whose zone is declared, or left to the default, lives there; any other lives in the first zone. */
  lemma {:induction false} HomeOf(zones: seq<Zone>, d: DeviceDesign)
    requires zones != [] && ZonesDistinct(zones)
    ensures var id := WantedId(zones, d);
            if id in NamesOf(zones) then zones[Home(zones, d)].id == id else Home(zones, d) == 0
  {
    var id := WantedId(zones, d);
    NamesAreZones(zones, id);
    if id in NamesOf(zones) {
      var i :| 0 <= i < |zones| && zones[i].id == id;
      OffsetsRecorded(zones, i);
    }
  }

  /** Whether the k-th device's address is in the /24 recorded for the zone it is listed in. */
  ghost predicate AddressedInZone(zones: seq<Zone>, devices: seq<DeviceDesign>, k: nat)
    requires zones != [] && k < |devices|
  {
    var p := Addresses.Pool(OffsetsOf(zones), Addresses.FIRST_HOST);
    Addresses.AddressAt(p, WantedIds(zones, devices), k).offset == zones[Home(zones, devices[k])].offset
  }

  function DeclaredIds(zones: seq<Zone>): set<string> { NamesOf(zones).Keys }

  /** How many other undeclared zones the devices refer to before they first refer to this one. */
  function UndeclaredBefore(zones: seq<Zone>, devices: seq<DeviceDesign>, id: string): nat
    requires zones != []
  {
    Addresses.OrderOfUse(DeclaredIds(zones), WantedIds(zones, devices), id)
  }

  lemma {:induction false} OctetWanted(zones: seq<Zone>, devices: seq<DeviceDesign>, k: nat)
    requires zones != [] && ZonesDistinct(zones) && k < |devices|
    ensures var p, id := Addresses.Pool(OffsetsOf(zones), Addresses.FIRST_HOST), WantedId(zones, devices[k]);
            Addresses.AddressAt(p, WantedIds(zones, devices), k).offset ==
              if id in OffsetsOf(zones) then OffsetsOf(zones)[id] else |zones| + UndeclaredBefore(zones, devices, id)
  {
    var p, id := Addresses.Pool(OffsetsOf(zones), Addresses.FIRST_HOST), WantedId(zones, devices[k]);
    var wanted := WantedIds(zones, devices);
    Addresses.AddressInSubnet(p, wanted, k);
    OffsetKeys(zones);
    assert OffsetsOf(zones).Keys == DeclaredIds(zones);
    assert wanted[k] == id;
    if id in OffsetsOf(zones) {
      assert wanted[..0] == [];
      Addresses.OffsetsOnlyGrow(p, wanted, 0);
    } else {
      Addresses.OctetOfNewZone(p, wanted, id);
    }
  }

  /**
    With distinct zones, a device is addressed in its own zone's /24 exactly when
    its zone is declared or defaulted, or the octet the design gives the first
    zone is the one the undeclared zone is numbered with.
   */
  lemma {:induction false} AddressedInZoneExactly(zones: seq<Zone>, devices: seq<DeviceDesign>, k: nat)
    requires zones != [] && ZonesDistinct(zones) && k < |devices|
    ensures var id := WantedId(zones, devices[k]);
            AddressedInZone(zones, devices, k) <==>
              id in DeclaredIds(zones) || zones[0].offset == |zones| + UndeclaredBefore(zones, devices, id)
  {
    OctetWanted(zones, devices, k);
    OffsetKeys(zones);
    HomeOf(zones, devices[k]);
    if WantedId(zones, devices[k]) in NamesOf(zones) {
      OffsetsRecorded(zones, Home(zones, devices[k]));
    }
  }

  /** A device with a zone the design does not declare, beside a single zone on octet 0. */
  lemma {:induction false} UndeclaredZoneLeavesTheSubnet(device: DeviceDesign)
    requires device.zoneId == Some("dmz")
    ensures var zones := [Zone("cell", "Cell", 0, 100, 0, [])];
            Home(zones, device) == 0 && !AddressedInZone(zones, [device], 0)
  {
    var zones := [Zone("cell", "Cell", 0, 100, 0, [])];
    assert WantedId(zones, device) == "dmz";
    NamesAreZones(zones, "dmz");
    HomeOf(zones, device);
    AddressedInZoneExactly(zones, [device], 0);
  }

  /* ---------- flows and conduits of the finished scenario ---------- */

  function IdsByName(devices: seq<DeviceDesign>, ids: seq<string>): map<string, string>
    requires |ids| == |devices|
  {
    if devices == [] then map[]
    else IdsByName(devices[..|devices| - 1], ids[..|devices| - 1])[devices[|devices| - 1].name := ids[|devices| - 1]]
  }

  lemma {:induction false} IdsByNameAreIds(devices: seq<DeviceDesign>, ids: seq<string>)
    requires |ids| == |devices|
    ensures forall n <- IdsByName(devices, ids) :: IdsByName(devices, ids)[n] in ids
  {
    if devices != [] { IdsByNameAreIds(devices[..|devices| - 1], ids[..|devices| - 1]); }
  }

  /** The id known under a name, or the empty one. */
  function Lookup(byName: map<string, string>, name: string): string { if name in byName then byName[name] else "" }

  /** The designed flows between known devices, in order; the others are skipped. */
  function FlowsFor(designs: seq<FlowDesign>, byName: map<string, string>): seq<T.Flow> {
    if designs == [] then []
    else
      var before, d := FlowsFor(designs[..|designs| - 1], byName), designs[|designs| - 1];
      if d.source in byName && d.target in byName && byName[d.source] != "" && byName[d.target] != ""
      then before + [T.Flow(byName[d.source], byName[d.target], d.protocol, d.pollMs, d.description)]
      else before
  }

  /** The id the last device of a name was given. */
  ghost predicate IsIdOf(id: string, devices: seq<DeviceDesign>, ids: seq<string>, name: string)
    requires |ids| == |devices|
  {
    exists k :: && 0 <= k < |devices| && devices[k].name == name && ids[k] == id
                && forall i :: k < i < |devices| ==> devices[i].name != name
  }

  lemma {:induction false} IdsByNameExactly(devices: seq<DeviceDesign>, ids: seq<string>, name: string)
    requires |ids| == |devices|
    ensures name in IdsByName(devices, ids) <==> exists d <- devices :: d.name == name
    ensures forall id :: IsIdOf(id, devices, ids, name) <==>
              name in IdsByName(devices, ids) && IdsByName(devices, ids)[name] == id
  {
    if devices != [] {
      var n := |devices| - 1;
      IdsByNameExactly(devices[..n], ids[..n], name);
      assert devices == devices[..n] + [devices[n]];
      forall id ensures IsIdOf(id, devices, ids, name) <==>
                          if devices[n].name == name then id == ids[n]
                          else IsIdOf(id, devices[..n], ids[..n], name)
      {
        if devices[n].name != name { LastOfName(id, devices, ids, name); }
      }
    }
  }

  lemma {:induction false} LastOfName(id: string, devices: seq<DeviceDesign>, ids: seq<string>, name: string)
    requires |ids| == |devices| > 0 && devices[|devices| - 1].name != name
    ensures var n := |devices| - 1; IsIdOf(id, devices, ids, name) <==> IsIdOf(id, devices[..n], ids[..n], name)
  {
    var n := |devices| - 1;
    if IsIdOf(id, devices[..n], ids[..n], name) {
      var k :| && 0 <= k < n && devices[..n][k].name == name && ids[..n][k] == id
               && forall i :: k < i < n ==> devices[..n][i].name != name;
      assert devices[k].name == name && forall i :: k < i < n ==> devices[..n][i] == devices[i];
    }
    if k :| && 0 <= k < |devices| && devices[k].name == name && ids[k] == id
            && forall i :: k < i < |devices| ==> devices[i].name != name {
      assert devices[..n][k].name == name;
    }
  }

  /** A flow as designed, from the device its source names to the one its target names. */
  ghost predicate IsDesignedFlow(f: T.Flow, d: FlowDesign, byName: map<string, string>) {
    && d.source in byName && d.target in byName && f.source == byName[d.source] && f.destination == byName[d.target]
    && f.protocol == d.protocol && f.pollMs == d.pollMs && f.description == d.description
  }

  ghost predicate AreDesignedFlows(flows: seq<T.Flow>, designs: seq<FlowDesign>, byName: map<string, string>,
                                   ks: seq<nat>) {
    && Rising(ks, |designs|) && |flows| == |ks|
    && (forall m :: 0 <= m < |ks| ==> IsDesignedFlow(flows[m], designs[ks[m]], byName))
    && forall k :: 0 <= k < |designs| ==>
         (k in ks <==> && designs[k].source in byName && byName[designs[k].source] != ""
                       && designs[k].target in byName && byName[designs[k].target] != "")
  }

  lemma {:induction false} FlowsSnoc(flows: seq<T.Flow>, designs: seq<FlowDesign>, byName: map<string, string>,
                                     ks: seq<nat>, d: FlowDesign, f: T.Flow)
    requires AreDesignedFlows(flows, designs, byName, ks)
    ensures var known := && d.source in byName && byName[d.source] != ""
                         && d.target in byName && byName[d.target] != "";
            && (!known ==> AreDesignedFlows(flows, designs + [d], byName, ks))
            && (known && IsDesignedFlow(f, d, byName) ==>
                  AreDesignedFlows(flows + [f], designs + [d], byName, ks + [|designs|]))
  {
    RisingSnoc(ks, |designs|);
  }

  lemma {:induction false} FlowsStep(designs: seq<FlowDesign>, byName: map<string, string>, d: FlowDesign, f: T.Flow)
    ensures var before, after := FlowsFor(designs, byName), FlowsFor(designs + [d], byName);
            var known := && d.source in byName && byName[d.source] != ""
                         && d.target in byName && byName[d.target] != "";
            && (!known ==> after == before)
            && (known && IsDesignedFlow(f, d, byName) ==> after == before + [f])
  {
    assert (designs + [d])[..|designs|] == designs;
  }

  lemma {:induction false} FlowPositions(designs: seq<FlowDesign>, byName: map<string, string>) returns (ks: seq<nat>)
    ensures AreDesignedFlows(FlowsFor(designs, byName), designs, byName, ks)
  {
    ks := [];
    if designs != [] {
      var n := |designs| - 1;
      var head, d := designs[..n], designs[n];
      var before := FlowPositions(head, byName);
      var source, target := Lookup(byName, d.source), Lookup(byName, d.target);
      var f := T.Flow(source, target, d.protocol, d.pollMs, d.description);
      FlowsSnoc(FlowsFor(head, byName), head, byName, before, d, f);
      FlowsStep(head, byName, d, f);
      assert designs == head + [d];
      ks := if source != "" && target != "" then before + [n] else before;
    }
  }

  /** Which designed flows are built, in their order, and what each looks like. */
  lemma {:induction false} FlowsExactly(designs: seq<FlowDesign>, byName: map<string, string>)
    ensures exists ks :: AreDesignedFlows(FlowsFor(designs, byName), designs, byName, ks)
  {
    var ks := FlowPositions(designs, byName);
  }

  method BuildFlows(designs: seq<FlowDesign>, byName: map<string, string>) returns (flows: seq<T.Flow>)
    ensures flows == FlowsFor(designs, byName)
  {
    flows := [];
    for i := 0 to |designs|
      invariant flows == FlowsFor(designs[..i], byName)
    {
      assert designs[..i + 1][..i] == designs[..i];
      var d := designs[i];
      var source, target := Lookup(byName, d.source), Lookup(byName, d.target);
      if source == "" || target == "" {
        continue;
      }
      flows := flows + [T.Flow(source, target, d.protocol, d.pollMs, d.description)];
    }
    assert designs[..|designs|] == designs;
  }

  ghost predicate Joins(f: T.Flow, ids: seq<string>) { f.source in ids && f.destination in ids }

  /** Designed flows run between built devices. */
  lemma {:induction false} DesignedFlowsJoinDevices(designs: seq<FlowDesign>, devices: seq<DeviceDesign>,
                                                    ids: seq<string>)
    requires |ids| == |devices|
    ensures forall f <- FlowsFor(designs, IdsByName(devices, ids)) :: Joins(f, ids)
  {
    if designs != [] {
      IdsByNameAreIds(devices, ids);
      DesignedFlowsJoinDevices(designs[..|designs| - 1], devices, ids);
    }
  }

  /** The devices as the connectivity repair sees them. */
  ghost predicate BuiltAs(built: seq<T.Device>, ids: seq<string>) {
    |built| == |ids| && forall k :: 0 <= k < |ids| ==> built[k].id == ids[k]
  }

  /** So do the flows the repair adds to them. */
  lemma {:induction false} RepairedFlowsJoinDevices(flows: seq<T.Flow>, r: seq<T.Flow>, built: seq<T.Device>,
                                                    ids: seq<string>)
    requires BuiltAs(built, ids) && forall f <- flows :: Joins(f, ids)
    requires T.Extends(r, flows, T.Missing(built, flows))
    ensures forall f <- r :: Joins(f, ids)
  {
    var links := T.Missing(built, flows);
    T.MissingIsProper(built, flows);
    forall f | f in r ensures Joins(f, ids) {
      var i :| 0 <= i < |r| && r[i] == f;
      if i < |flows| {
        assert f == r[..|flows|][i] && flows[i] in flows;
      } else {
        var link := links[i - |flows|];
        assert link in links && T.Realises(r[|flows| + (i - |flows|)], link);
        assert T.Proper(link, built);
      }
    }
  }

  function ForConduits(zones: seq<Zone>): (r: seq<C.Zone>)
    ensures |r| == |zones|
  {
    seq(|zones|, j requires 0 <= j < |zones| => C.Zone(zones[j].id, zones[j].name, zones[j].deviceIds))
  }

  lemma {:induction false} PutAllPuts(m: map<string, string>, ids: seq<string>, zone: string, d: string)
    ensures d in ids ==> d in C.PutAll(m, ids, zone) && C.PutAll(m, ids, zone)[d] == zone
    ensures d !in ids ==> (d in C.PutAll(m, ids, zone) <==> d in m) && (d in m ==> C.PutAll(m, ids, zone)[d] == m[d])
  {
    if ids != [] {
      PutAllPuts(m, ids[..|ids| - 1], zone, d);
      assert ids == ids[..|ids| - 1] + [ids[|ids| - 1]];
    }
  }

  lemma {:induction false} LocatedWhereListed(zones: seq<C.Zone>, d: string, j: nat)
    requires j < |zones| && d in zones[j].deviceIds
    requires forall i :: 0 <= i < |zones| && i != j ==> d !in zones[i].deviceIds
    ensures d in C.ZoneOf(zones) && C.ZoneOf(zones)[d] == zones[j].id
  {
    var k := |zones| - 1;
    PutAllPuts(C.ZoneOf(zones[..k]), zones[k].deviceIds, zones[k].id, d);
    if j < k { LocatedWhereListed(zones[..k], d, j); }
  }

  lemma {:induction false} DevicesAreLocated(placed: seq<Zone>, zones: seq<Zone>, devices: seq<DeviceDesign>,
                                             ids: seq<string>, k: nat)
    requires zones != [] && |ids| == |devices| && Distinct(ids) && Placed(placed, zones, devices, ids) && k < |devices|
    ensures var zoneOf := C.ZoneOf(ForConduits(placed));
            ids[k] in zoneOf && zoneOf[ids[k]] == zones[Home(zones, devices[k])].id
  {
    var home := Home(zones, devices[k]);
    forall j | 0 <= j < |placed| ensures ids[k] in placed[j].deviceIds <==> j == home {
      ZonePartition(placed, zones, devices, ids, k, j);
    }
    LocatedWhereListed(ForConduits(placed), ids[k], home);
  }

  /** A finished scenario: zones with their devices, designed flows repaired, and conduits built for them. */
  ghost predicate Finished(placed: seq<Zone>, zones: seq<Zone>, devices: seq<DeviceDesign>, ids: seq<string>,
                           designs: seq<FlowDesign>, built: seq<T.Device>, flows: seq<T.Flow>, ai: seq<C.Conduit>,
                           conduits: map<string, C.Conduit>)
    requires zones != [] && |ids| == |devices|
  {
    var designed := FlowsFor(designs, IdsByName(devices, ids));
    && Placed(placed, zones, devices, ids) && BuiltAs(built, ids)
    && T.Extends(flows, designed, T.Missing(built, designed))
    && C.Built(conduits, ai, ForConduits(placed), flows)
  }

  /** A flow from device a to device b: if they live in different zones, a conduit joins those. */
  ghost predicate Carried(f: T.Flow, a: nat, b: nat, zones: seq<Zone>, devices: seq<DeviceDesign>, ids: seq<string>,
                          conduits: map<string, C.Conduit>)
    requires zones != [] && |ids| == |devices|
  {
    && a < |ids| && b < |ids| && f.source == ids[a] && f.destination == ids[b]
    && var from, to := zones[Home(zones, devices[a])].id, zones[Home(zones, devices[b])].id;
       from != to ==> C.CoveredBy(conduits, C.PairOf(from, to))
  }

  /**
    End to end: in a finished scenario every flow, designed or added by the
    repair, runs between two built devices and, if these live in different zones,
    has a conduit for their pair of zones, unless an AI conduit's id clashes with
    a generated one or a zone's id is empty.
   */
  lemma {:induction false} EveryCrossZoneFlowHasAConduit(placed: seq<Zone>, zones: seq<Zone>,
                                                         devices: seq<DeviceDesign>, ids: seq<string>,
                                                         designs: seq<FlowDesign>, built: seq<T.Device>,
                                                         flows: seq<T.Flow>, ai: seq<C.Conduit>,
                                                         conduits: map<string, C.Conduit>)
    requires zones != [] && |ids| == |devices| && Distinct(ids)
    requires Finished(placed, zones, devices, ids, designs, built, flows, ai, conduits)
    requires C.AcceptedIn(ai, ForConduits(placed)).Keys !! T.ToSet(C.GeneratedIn(ai, ForConduits(placed), flows))
    requires forall z <- zones :: z.id != ""
    ensures forall f <- flows :: exists a, b :: Carried(f, a, b, zones, devices, ids, conduits)
  {
    DesignedFlowsJoinDevices(designs, devices, ids);
    RepairedFlowsJoinDevices(FlowsFor(designs, IdsByName(devices, ids)), flows, built, ids);
    forall f | f in flows ensures exists a, b :: Carried(f, a, b, zones, devices, ids, conduits) {
      assert Joins(f, ids);
      var a :| 0 <= a < |ids| && ids[a] == f.source;
      var b :| 0 <= b < |ids| && ids[b] == f.destination;
      FlowIsCarried(placed, zones, devices, ids, flows, ai, conduits, f, a, b);
    }
  }

  lemma {:induction false} FlowIsCarried(placed: seq<Zone>, zones: seq<Zone>, devices: seq<DeviceDesign>,
                                         ids: seq<string>, flows: seq<T.Flow>, ai: seq<C.Conduit>,
                                         conduits: map<string, C.Conduit>, f: T.Flow, a: nat, b: nat)
    requires zones != [] && |ids| == |devices| && Distinct(ids) && Placed(placed, zones, devices, ids)
    requires C.Built(conduits, ai, ForConduits(placed), flows)
    requires C.AcceptedIn(ai, ForConduits(placed)).Keys !! T.ToSet(C.GeneratedIn(ai, ForConduits(placed), flows))
    requires forall z <- zones :: z.id != ""
    requires f in flows && a < |ids| && b < |ids| && f.source == ids[a] && f.destination == ids[b]
    ensures Carried(f, a, b, zones, devices, ids, conduits)
  {
    DevicesAreLocated(placed, zones, devices, ids, a);
    DevicesAreLocated(placed, zones, devices, ids, b);
    forall z | z in ForConduits(placed) ensures z.id != "" {
      var j :| 0 <= j < |placed| && ForConduits(placed)[j] == z;
      assert zones[j] in zones;
    }
    C.AllCrossingsCovered(conduits, ai, ForConduits(placed), flows);
  }
}
