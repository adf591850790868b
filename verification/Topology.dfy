/**
  Connecting orphaned devices along the OT hierarchy, and checking flows against it.

  A device is identified by its id; the code never compares devices otherwise.
  Flow ids are fresh UUIDs nobody reads here, and are left out.
 */
module Topology {
  import opened Collections

  datatype Device = Device(id: string, kind: string, name: string, zone: string, protocols: seq<string>)

  datatype Flow = Flow(source: string, destination: string, protocol: string, pollMs: int, description: string)

  const CONTROLLERS := {"plc", "rtu", "dcs", "safety_plc", "traffic_controller", "toll_controller"}

  const FIELD_DEVICES := {
    "sensor", "drive", "meter", "io_module", "flow_meter", "level_sensor", "pump_controller", "servo", "actuator",
    "temperature_sensor", "pressure_sensor", "valve", "radar_sensor", "lidar_sensor", "thermal_sensor",
    "weather_station", "camera", "video_detector", "anpr_camera", "dms", "rsu", "lighting_controller",
    "ventilation_controller"
  }

  const SUPERVISORY := {
    "hmi", "scada_server", "historian", "engineering_station", "tmc", "jump_server", "remote_gateway",
    "cloud_connector", "ewon_gateway"
  }

  const TCP_UDP_PROTOCOLS := {
    "modbus_tcp", "modbus", "ethernet_ip", "s7comm", "s7comm_plus", "bacnet", "snmp", "opc_ua", "dnp3", "iec104",
    "iec_104", "https"
  }

  /* The classes of a device type. */

  predicate IsController(d: Device) { d.kind in CONTROLLERS }

  predicate IsField(d: Device) { d.kind in FIELD_DEVICES }

  predicate IsSupervisory(d: Device) { d.kind in SUPERVISORY }

  lemma {:induction false} ClassesDisjoint(kind: string)
    ensures !(kind in CONTROLLERS && kind in FIELD_DEVICES)
    ensures !(kind in CONTROLLERS && kind in SUPERVISORY)
    ensures !(kind in FIELD_DEVICES && kind in SUPERVISORY)
  {
  }

  function ToSet<T>(s: seq<T>): set<T> { set x | x in s }

  /* ---------- choosing a controller ---------- */

  /** The compatibility score of a controller for a field device. */
  function Score(controller: Device, device: Device, connected: set<string>): nat {
    (if ToSet(controller.protocols) * ToSet(device.protocols) != {} then 10 else 0)
    + (if controller.zone == device.zone then 5 else 0)
    + (if controller.id in connected then 3 else 0)
  }

  /** The three criteria in their documented order of priority: protocol, then zone, then consolidation. */
  ghost predicate Better(a: Device, b: Device, device: Device, connected: set<string>) {
    var protocolA, protocolB := ToSet(a.protocols) * ToSet(device.protocols) != {},
        ToSet(b.protocols) * ToSet(device.protocols) != {};
    var zoneA, zoneB := a.zone == device.zone, b.zone == device.zone;
    var busyA, busyB := a.id in connected, b.id in connected;
    || (protocolA && !protocolB)
    || (protocolA == protocolB && zoneA && !zoneB)
    || (protocolA == protocolB && zoneA == zoneB && busyA && !busyB)
  }

  /** The weights rank controllers by the three criteria in order; no two lesser ones outweigh a greater. */
  lemma {:induction false} ScoreIsPriority(a: Device, b: Device, device: Device, connected: set<string>)
    ensures Score(a, device, connected) > Score(b, device, connected) <==> Better(a, b, device, connected)
  {
  }

  /** The position of the first of the highest-scoring controllers. */
  function BestController(controllers: seq<Device>, device: Device, connected: set<string>): (best: nat)
    requires controllers != []
    ensures best < |controllers|
    ensures forall i :: 0 <= i < |controllers| ==> !Better(controllers[i], controllers[best], device, connected)
    ensures forall i :: 0 <= i < best ==> Better(controllers[best], controllers[i], device, connected)
  {
    var k := |controllers| - 1;
    if k == 0 then 0
    else
      var b := BestController(controllers[..k], device, connected);
      ScoreIsPriority(controllers[k], controllers[b], device, connected);
      if Score(controllers[k], device, connected) > Score(controllers[b], device, connected) then k else b
  }

  /** The head of the scores sorted in descending order, the sort being stable. */
  method FindCompatibleController(device: Device, controllers: seq<Device>, connected: set<string>)
    returns (r: Option<Device>)
    ensures r == if controllers == [] then None else Some(controllers[BestController(controllers, device, connected)])
  {
    if controllers == [] {
      return None;
    }
    var best, score := 0, Score(controllers[0], device, connected);
    for i := 1 to |controllers|
      invariant best == BestController(controllers[..i], device, connected)
      invariant score == Score(controllers[best], device, connected)
    {
      assert controllers[..i + 1][..i] == controllers[..i];
      var s := Score(controllers[i], device, connected);
      if s > score {
        best, score := i, s;
      }
    }
    assert controllers[..|controllers|] == controllers;
    r := Some(controllers[best]);
  }

  /* ---------- hierarchy flows ---------- */

  datatype Link = ControllerToField(source: Device, target: Device)
      | SupervisoryToController(source: Device, target: Device)

  /**
    The protocols the code may pick: a shared IP protocol, else one of the
    source's, else of the target's, else Modbus.
   */
  function Candidates(source: Device, target: Device): set<string> {
    var s, t := ToSet(source.protocols) * TCP_UDP_PROTOCOLS, ToSet(target.protocols) * TCP_UDP_PROTOCOLS;
    if s * t != {} then s * t else if s != {} then s else if t != {} then t else {"modbus_tcp"}
  }

  /** A generated flow always carries IP traffic, over a protocol both ends speak whenever there is one. */
  lemma {:induction false} CandidatesCarryIp(source: Device, target: Device)
    ensures {} < Candidates(source, target) <= TCP_UDP_PROTOCOLS
    ensures (exists p :: p in source.protocols && p in target.protocols && p in TCP_UDP_PROTOCOLS) ==>
              forall p <- Candidates(source, target) :: p in source.protocols && p in target.protocols
  {
    if p :| p in source.protocols && p in target.protocols && p in TCP_UDP_PROTOCOLS {
      assert p in (ToSet(source.protocols) * TCP_UDP_PROTOCOLS) * (ToSet(target.protocols) * TCP_UDP_PROTOCOLS);
    }
  }

  function FlowFor(link: Link, protocol: string): Flow {
    match link
    case ControllerToField(s, t) => Flow(s.id, t.id, protocol, 500, s.name + " polls " + t.name + " for process data")
    case SupervisoryToController(s, t) => Flow(s.id, t.id, protocol, 1000, s.name + " reads status from " + t.name)
  }

  ghost predicate Realises(f: Flow, link: Link) {
    f.protocol in Candidates(link.source, link.target) && f == FlowFor(link, f.protocol)
  }

  method CreateHierarchyFlow(link: Link) returns (f: Flow)
    ensures Realises(f, link)
  {
    CandidatesCarryIp(link.source, link.target);
    var protocol :| protocol in Candidates(link.source, link.target);
    f := FlowFor(link, protocol);
  }

  /* ---------- what the repair adds ---------- */

  function Endpoints(flows: seq<Flow>): set<string> {
    (set f | f in flows :: f.source) + (set f | f in flows :: f.destination)
  }

  function FirstConnected(controllers: seq<Device>, connected: set<string>): Option<Device> {
    if controllers == [] then None
    else if controllers[0].id in connected then Some(controllers[0])
    else FirstConnected(controllers[1..], connected)
  }

  function Unconnected(connected: set<string>): Device -> bool { (d: Device) => d.id !in connected }

  function Take5(s: seq<Device>): seq<Device> { if |s| <= 5 then s else s[..5] }

  /** The field devices an orphaned controller is given: up to five unconnected ones, or else any five. */
  function TargetsFor(fields: seq<Device>, connected: set<string>): seq<Device> {
    var free := Keep(Unconnected(connected), fields);
    Take5(if free == [] then fields else free)
  }

  function LinksTo(source: Device, targets: seq<Device>): (r: seq<Link>)
    ensures |r| == |targets|
  {
    seq(|targets|, i requires 0 <= i < |targets| => ControllerToField(source, targets[i]))
  }

  function DeviceIds(devices: seq<Device>): set<string> { set d | d in devices :: d.id }

  /** The links one orphan gives rise to, and the ids marked connected by it. */
  function Connect(orphan: Device, controllers: seq<Device>, fields: seq<Device>, connected: set<string>)
    : (seq<Link>, set<string>)
  {
    if IsField(orphan) then
      if controllers == [] then ([], connected)
      else
        ([ControllerToField(controllers[BestController(controllers, orphan, connected)], orphan)],
          connected + {orphan.id})
    else if IsSupervisory(orphan) then
      if controllers == [] then ([], connected)
      else
        ([SupervisoryToController(orphan, FirstConnected(controllers, connected).GetOr(controllers[0]))],
          connected + {orphan.id})
    else if IsController(orphan) then
      var targets := TargetsFor(fields, connected);
      (LinksTo(orphan, targets), connected + DeviceIds(targets) + {orphan.id})
    else ([], connected)
  }

  function Repair(orphans: seq<Device>, controllers: seq<Device>, fields: seq<Device>,
                  connected: set<string>): seq<Link> {
    if orphans == [] then []
    else
      var (links, now) := Connect(orphans[0], controllers, fields, connected);
      links + Repair(orphans[1..], controllers, fields, now)
  }

  function Controllers(devices: seq<Device>): seq<Device> { Keep(d => IsController(d), devices) }

  function Fields(devices: seq<Device>): seq<Device> { Keep(d => IsField(d), devices) }

  function Orphans(devices: seq<Device>, flows: seq<Flow>): seq<Device> {
    Keep(Unconnected(Endpoints(flows)), devices)
  }

  function Missing(devices: seq<Device>, flows: seq<Flow>): seq<Link> {
    Repair(Orphans(devices, flows), Controllers(devices), Fields(devices), Endpoints(flows))
  }

  /** `after` is `before` followed by one flow for each link. */
  ghost predicate Extends(after: seq<Flow>, before: seq<Flow>, links: seq<Link>) {
    && |after| == |before| + |links|
    && after[..|before|] == before
    && forall i :: 0 <= i < |links| ==> Realises(after[|before| + i], links[i])
  }

  method DevicesInFlows(flows: seq<Flow>) returns (connected: set<string>)
    ensures connected == Endpoints(flows)
  {
    connected := {};
    for i := 0 to |flows|
      invariant connected == Endpoints(flows[..i])
    {
      assert flows[..i + 1] == flows[..i] + [flows[i]];
      EndpointsSplit(flows[..i], [flows[i]]);
      connected := connected + {flows[i].source} + {flows[i].destination};
    }
    assert flows[..|flows|] == flows;
  }

  method EnsureConnectivity(devices: seq<Device>, flows: seq<Flow>) returns (r: seq<Flow>)
    ensures Extends(r, flows, Missing(devices, flows))
  {
    if devices == [] {
      return flows;
    }
    var connected := DevicesInFlows(flows);
    var newFlows := ConnectOrphans(Orphans(devices, flows), Controllers(devices), Fields(devices), connected);
    r := flows + newFlows;
  }

  lemma {:induction false} RepairStep(done: seq<Link>, orphan: Device, rest: seq<Device>, controllers: seq<Device>,
                                      fields: seq<Device>, connected: set<string>)
    ensures var (links, now) := Connect(orphan, controllers, fields, connected);
            done + Repair([orphan] + rest, controllers, fields, connected)
              == (done + links) + Repair(rest, controllers, fields, now)
  {
    assert ([orphan] + rest)[1..] == rest;
  }

  /** The repair loop over the orphans. */
  method ConnectOrphans(orphaned: seq<Device>, controllers: seq<Device>, fields: seq<Device>, connected: set<string>)
    returns (flows: seq<Flow>)
    ensures Extends(flows, [], Repair(orphaned, controllers, fields, connected))
  {
    flows := [];
    var now := connected;
    ghost var links: seq<Link> := [];
    for i := 0 to |orphaned|
      invariant Extends(flows, [], links)
      invariant links + Repair(orphaned[i..], controllers, fields, now)
          == Repair(orphaned, controllers, fields, connected)
    {
      RepairStep(links, orphaned[i], orphaned[i + 1..], controllers, fields, now);
      assert orphaned[i..] == [orphaned[i]] + orphaned[i + 1..];
      ghost var before := links;
      links := links + Connect(orphaned[i], controllers, fields, now).0;
      flows, now := ConnectOrphan(orphaned[i], controllers, fields, flows, before, now);
    }
    assert orphaned[|orphaned|..] == [] && links + [] == links;
  }

  /** The body of the repair loop. */
  method ConnectOrphan(orphan: Device, controllers: seq<Device>, fields: seq<Device>, flows: seq<Flow>,
                       ghost links: seq<Link>, connected: set<string>)
    returns (r: seq<Flow>, now: set<string>)
    requires Extends(flows, [], links)
    ensures Extends(r, [], links + Connect(orphan, controllers, fields, connected).0)
    ensures now == Connect(orphan, controllers, fields, connected).1
  {
    r, now := flows, connected;
    if IsField(orphan) {
      var controller := FindCompatibleController(orphan, controllers, connected);
      if controller.Some? {
        r := AddFlow(flows, links, ControllerToField(controller.value, orphan));
        now := connected + {orphan.id};
        return;
      }
    } else if IsSupervisory(orphan) {
      if controllers != [] {
        var target := FirstConnected(controllers, connected);
        r := AddFlow(flows, links, SupervisoryToController(orphan, target.GetOr(controllers[0])));
        now := connected + {orphan.id};
        return;
      }
    } else if IsController(orphan) {
      var targets := TargetsFor(fields, connected);
      r, now := PollFields(orphan, targets, flows, links, connected);
      now := now + {orphan.id};
      return;
    }
    assert links + [] == links;
  }

  method AddFlow(flows: seq<Flow>, ghost links: seq<Link>, link: Link) returns (r: seq<Flow>)
    requires Extends(flows, [], links)
    ensures Extends(r, [], links + [link])
  {
    var f := CreateHierarchyFlow(link);
    r := flows + [f];
  }

  /** One flow from a controller to each of its targets, which become connected. */
  method PollFields(orphan: Device, targets: seq<Device>, flows: seq<Flow>, ghost links: seq<Link>,
                    connected: set<string>)
    returns (r: seq<Flow>, now: set<string>)
    requires Extends(flows, [], links)
    ensures Extends(r, [], links + LinksTo(orphan, targets))
    ensures now == connected + DeviceIds(targets)
  {
    r, now := flows, connected;
    ghost var added := links;
    for i := 0 to |targets|
      invariant added == links + LinksTo(orphan, targets[..i]) && Extends(r, [], added)
      invariant now == connected + DeviceIds(targets[..i])
    {
      assert LinksTo(orphan, targets[..i + 1])
          == LinksTo(orphan, targets[..i]) + [ControllerToField(orphan, targets[i])];
      assert targets[..i + 1] == targets[..i] + [targets[i]];
      var link := ControllerToField(orphan, targets[i]);
      r := AddFlow(r, added, link);
      added := added + [link];
      now := now + {targets[i].id};
    }
    assert targets[..|targets|] == targets;
  }

  /* ---------- completeness and idempotence ---------- */

  lemma {:induction false} EndpointsSplit(a: seq<Flow>, b: seq<Flow>)
    ensures Endpoints(a + b) == Endpoints(a) + Endpoints(b)
  {
    assert forall f :: f in a + b <==> f in a || f in b;
  }

  function LinkEnds(links: seq<Link>): set<string> {
    (set l | l in links :: l.source.id) + (set l | l in links :: l.target.id)
  }

  lemma {:induction false} EndpointsAfter(r: seq<Flow>, flows: seq<Flow>, links: seq<Link>)
    requires Extends(r, flows, links)
    ensures Endpoints(r) == Endpoints(flows) + LinkEnds(links)
  {
    var added := r[|flows|..];
    assert r == flows + added;
    EndpointsSplit(flows, added);
    assert forall i :: 0 <= i < |links| ==>
        added[i].source == links[i].source.id && added[i].destination == links[i].target.id;
    forall id ensures id in Endpoints(added) <==> id in LinkEnds(links) {
      if id in Endpoints(added) {
        var i :| 0 <= i < |added| && (added[i].source == id || added[i].destination == id);
        assert links[i] in links;
      }
      if id in LinkEnds(links) {
        var i :| 0 <= i < |links| && (links[i].source.id == id || links[i].target.id == id);
        assert added[i] in added;
      }
    }
  }

  /** Whether the repair has a device of the opposite class to connect this one to. */
  predicate HasPeer(d: Device, controllers: seq<Device>, fields: seq<Device>) {
    || ((IsField(d) || IsSupervisory(d)) && controllers != [])
    || (IsController(d) && fields != [])
  }

  lemma {:induction false} TargetsExist(fields: seq<Device>, connected: set<string>)
    ensures fields != [] <==> TargetsFor(fields, connected) != []
    ensures forall t <- TargetsFor(fields, connected) :: t in fields
  {
    KeepSubset(Unconnected(connected), fields);
  }

  lemma {:induction false} ConnectConnects(o: Device, controllers: seq<Device>, fields: seq<Device>,
                                           connected: set<string>)
    ensures if HasPeer(o, controllers, fields) then o.id in LinkEnds(Connect(o, controllers, fields, connected).0)
            else Connect(o, controllers, fields, connected).0 == []
  {
    TargetsExist(fields, connected);
    ClassesDisjoint(o.kind);
    if HasPeer(o, controllers, fields) {
      var links := Connect(o, controllers, fields, connected).0;
      assert links != [] && (links[0].source == o || links[0].target == o);
      assert links[0] in links;
    }
  }

  lemma {:induction false} RepairConnects(orphans: seq<Device>, controllers: seq<Device>, fields: seq<Device>,
                                          connected: set<string>)
    ensures forall o <- orphans :: HasPeer(o, controllers, fields) ==>
              o.id in LinkEnds(Repair(orphans, controllers, fields, connected))
  {
    if orphans != [] {
      var (links, now) := Connect(orphans[0], controllers, fields, connected);
      ConnectConnects(orphans[0], controllers, fields, connected);
      RepairConnects(orphans[1..], controllers, fields, now);
      LinkEndsSplit(links, Repair(orphans[1..], controllers, fields, now));
    }
  }

  lemma {:induction false} LinkEndsSplit(a: seq<Link>, b: seq<Link>)
    ensures LinkEnds(a + b) == LinkEnds(a) + LinkEnds(b)
  {
    assert forall l :: l in a + b <==> l in a || l in b;
  }

  lemma {:induction false} NothingToRepair(orphans: seq<Device>, controllers: seq<Device>, fields: seq<Device>,
                                           connected: set<string>)
    requires forall o <- orphans :: !HasPeer(o, controllers, fields)
    ensures Repair(orphans, controllers, fields, connected) == []
  {
    if orphans != [] {
      assert orphans[0] in orphans;
      ConnectConnects(orphans[0], controllers, fields, connected);
      NothingToRepair(orphans[1..], controllers, fields, Connect(orphans[0], controllers, fields, connected).1);
    }
  }

  lemma {:induction false} ClassLists(devices: seq<Device>)
    ensures forall d :: d in Controllers(devices) <==> d in devices && IsController(d)
    ensures forall d :: d in Fields(devices) <==> d in devices && IsField(d)
  {
    KeepSubset(d => IsController(d), devices);
    KeepSubset(d => IsField(d), devices);
  }

  lemma {:induction false} OrphanList(devices: seq<Device>, flows: seq<Flow>)
    ensures forall d :: d in Orphans(devices, flows) <==> d in devices && d.id !in Endpoints(flows)
  {
    KeepSubset(Unconnected(Endpoints(flows)), devices);
  }

  /** After the repair every device with a peer is an endpoint of some flow. */
  lemma {:induction false} RepairIsComplete(devices: seq<Device>, flows: seq<Flow>, r: seq<Flow>)
    requires Extends(r, flows, Missing(devices, flows))
    ensures forall d <- devices :: HasPeer(d, Controllers(devices), Fields(devices)) ==> d.id in Endpoints(r)
  {
    EndpointsAfter(r, flows, Missing(devices, flows));
    OrphanList(devices, flows);
    RepairConnects(Orphans(devices, flows), Controllers(devices), Fields(devices), Endpoints(flows));
  }

  /** With one controller and one field device, that is every device of the hierarchy. */
  lemma {:induction false} HierarchyFullyConnected(devices: seq<Device>, flows: seq<Flow>, r: seq<Flow>)
    requires Extends(r, flows, Missing(devices, flows))
    requires exists c <- devices :: IsController(c)
    requires exists f <- devices :: IsField(f)
    ensures forall d <- devices :: IsController(d) || IsField(d) || IsSupervisory(d) ==> d.id in Endpoints(r)
  {
    RepairIsComplete(devices, flows, r);
    ClassLists(devices);
  }

  /** Repairing twice adds nothing the second time, whatever the devices and flows. */
  lemma {:induction false} RepairIsIdempotent(devices: seq<Device>, flows: seq<Flow>, once: seq<Flow>, twice: seq<Flow>)
    requires Extends(once, flows, Missing(devices, flows))
    requires Extends(twice, once, Missing(devices, once))
    ensures Missing(devices, once) == [] && twice == once
  {
    RepairIsComplete(devices, flows, once);
    OrphanList(devices, once);
    NothingToRepair(Orphans(devices, once), Controllers(devices), Fields(devices), Endpoints(once));
  }

  /* ---------- exactly which links are added ---------- */

  /** The devices that are in no flow, in their order. */
  ghost predicate AreUnconnected(free: seq<Device>, devices: seq<Device>, connected: set<string>, ks: seq<nat>) {
    && Rising(ks, |devices|) && |free| == |ks| && (forall m :: 0 <= m < |ks| ==> free[m] == devices[ks[m]])
    && forall k :: 0 <= k < |devices| ==> (k in ks <==> devices[k].id !in connected)
  }

  lemma {:induction false} UnconnectedExactly(devices: seq<Device>, connected: set<string>)
    ensures exists ks :: AreUnconnected(Keep(Unconnected(connected), devices), devices, connected, ks)
  {
    KeepExactly(Unconnected(connected), devices);
    var free := Keep(Unconnected(connected), devices);
    var ks :| Selects(free, devices, Unconnected(connected), ks);
    assert AreUnconnected(free, devices, connected, ks);
  }

  /** The controller for a field device: none is better by the documented criteria, and every earlier one is worse. */
  ghost predicate IsChosen(c: Device, device: Device, controllers: seq<Device>, connected: set<string>) {
    exists b :: && 0 <= b < |controllers| && controllers[b] == c
                && (forall i :: 0 <= i < |controllers| ==> !Better(controllers[i], c, device, connected))
                && (forall i :: 0 <= i < b ==> Better(c, controllers[i], device, connected))
  }

  /** The controller for a supervisory device: the first connected one, or the first of all. */
  ghost predicate IsRead(c: Device, controllers: seq<Device>, connected: set<string>) {
    if exists d <- controllers :: d.id in connected
    then exists b :: && 0 <= b < |controllers| && controllers[b] == c && c.id in connected
                     && forall i :: 0 <= i < b ==> controllers[i].id !in connected
    else controllers != [] && c == controllers[0]
  }

  lemma {:induction false} FirstConnectedExactly(controllers: seq<Device>, connected: set<string>)
    requires controllers != []
    ensures IsRead(FirstConnected(controllers, connected).GetOr(controllers[0]), controllers, connected)
    ensures FirstConnected(controllers, connected).Some? <==> exists d <- controllers :: d.id in connected
  {
    if controllers[0].id in connected {
      assert controllers[0] in controllers;
    } else if |controllers| > 1 {
      var rest := controllers[1..];
      FirstConnectedExactly(rest, connected);
      assert controllers == [controllers[0]] + rest;
      var c := FirstConnected(controllers, connected);
      if c.Some? {
        var b :| 0 <= b < |rest| && rest[b] == c.value && forall i :: 0 <= i < b ==> rest[i].id !in connected;
        assert controllers[b + 1] == c.value;
        forall i | 0 <= i < b + 1 ensures controllers[i].id !in connected {
          assert i > 0 ==> controllers[i] == rest[i - 1];
        }
      }
    }
  }

  /** The field devices for a controller: the first five that are unconnected, or, if none is, the first five. */
  ghost predicate ArePolled(targets: seq<Device>, fields: seq<Device>, connected: set<string>) {
    if exists f <- fields :: f.id !in connected
    then exists free, ks :: AreUnconnected(free, fields, connected, ks) && targets == free[..Min(5, |free|)]
    else targets == fields[..Min(5, |fields|)]
  }

  lemma {:induction false} TargetsExactly(fields: seq<Device>, connected: set<string>)
    ensures ArePolled(TargetsFor(fields, connected), fields, connected)
  {
    var free := Keep(Unconnected(connected), fields);
    KeepSubset(Unconnected(connected), fields);
    UnconnectedExactly(fields, connected);
    if f :| f in fields && f.id !in connected {
      assert f in free;
    } else {
      KeepNone(Unconnected(connected), fields);
    }
  }

  /** What one orphan adds: its links, and who counts as connected after it. */
  ghost predicate IsServed(o: Device, controllers: seq<Device>, fields: seq<Device>, connected: set<string>,
                           links: seq<Link>, now: set<string>) {
    if IsField(o) && controllers != [] then
      now == connected + {o.id}
      && exists c :: IsChosen(c, o, controllers, connected) && links == [ControllerToField(c, o)]
    else if IsSupervisory(o) && controllers != [] then
      now == connected + {o.id}
      && exists c :: IsRead(c, controllers, connected) && links == [SupervisoryToController(o, c)]
    else if IsController(o) then
      exists targets: seq<Device> ::
        && ArePolled(targets, fields, connected) && now == connected + {o.id} + (set d | d in targets :: d.id)
        && |links| == |targets| && forall m :: 0 <= m < |links| ==> links[m] == ControllerToField(o, targets[m])
    else links == [] && now == connected
  }

  lemma {:induction false} ConnectExactly(o: Device, controllers: seq<Device>, fields: seq<Device>,
                                          connected: set<string>)
    ensures IsServed(o, controllers, fields, connected, Connect(o, controllers, fields, connected).0,
                     Connect(o, controllers, fields, connected).1)
  {
    ClassesDisjoint(o.kind);
    if IsField(o) && controllers != [] {
      var b := BestController(controllers, o, connected);
      assert IsChosen(controllers[b], o, controllers, connected);
    } else if IsSupervisory(o) && controllers != [] {
      FirstConnectedExactly(controllers, connected);
    } else if IsController(o) {
      TargetsExactly(fields, connected);
    }
  }

  /** The orphans served one after the other, each seeing who is connected by then. */
  ghost predicate AreServed(orphans: seq<Device>, controllers: seq<Device>, fields: seq<Device>,
                            groups: seq<seq<Link>>, marks: seq<set<string>>) {
    && |groups| == |orphans| && |marks| == |orphans| + 1
    && forall k :: 0 <= k < |orphans| ==>
         IsServed(orphans[k], controllers, fields, marks[k], groups[k], marks[k + 1])
  }

  lemma {:induction false} RepairServes(orphans: seq<Device>, controllers: seq<Device>, fields: seq<Device>,
                                        connected: set<string>)
    ensures exists groups, marks ::
              && AreServed(orphans, controllers, fields, groups, marks) && marks[0] == connected
              && Repair(orphans, controllers, fields, connected) == Flat(groups)
  {
    if orphans == [] {
      assert AreServed(orphans, controllers, fields, [], [connected]);
      assert [connected][0] == connected && Flat<Link>([]) == [];
    } else {
      var (links, now) := Connect(orphans[0], controllers, fields, connected);
      ConnectExactly(orphans[0], controllers, fields, connected);
      RepairServes(orphans[1..], controllers, fields, now);
      var groups, marks :| && AreServed(orphans[1..], controllers, fields, groups, marks) && marks[0] == now
                           && Repair(orphans[1..], controllers, fields, now) == Flat(groups);
      FlatCons(links, groups);
      ServedInFront(orphans, controllers, fields, links, connected, groups, marks);
      assert ([connected] + marks)[0] == connected;
    }
  }

  lemma {:induction false} ServedInFront(orphans: seq<Device>, controllers: seq<Device>, fields: seq<Device>,
                                         links: seq<Link>, connected: set<string>, groups: seq<seq<Link>>,
                                         marks: seq<set<string>>)
    requires orphans != [] && AreServed(orphans[1..], controllers, fields, groups, marks)
    requires IsServed(orphans[0], controllers, fields, connected, links, marks[0])
    ensures AreServed(orphans, controllers, fields, [links] + groups, [connected] + marks)
  {
    var gs, ms := [links] + groups, [connected] + marks;
    forall k | 0 <= k < |orphans| ensures IsServed(orphans[k], controllers, fields, ms[k], gs[k], ms[k + 1]) {
      if k > 0 {
        assert orphans[k] == orphans[1..][k - 1] && gs[k] == groups[k - 1];
        assert ms[k] == marks[k - 1] && ms[k + 1] == marks[k];
      }
    }
  }

  /**
    Exactly which links the repair adds, and in which order: for each device that
    no flow mentions, in order, those its class calls for, given who is connected
    when its turn comes.
   */
  lemma {:induction false} MissingExactly(devices: seq<Device>, flows: seq<Flow>)
    ensures exists orphans, ks, groups, marks ::
              && AreUnconnected(orphans, devices, Endpoints(flows), ks)
              && AreServed(orphans, Controllers(devices), Fields(devices), groups, marks)
              && marks[0] == Endpoints(flows) && Missing(devices, flows) == Flat(groups)
  {
    UnconnectedExactly(devices, Endpoints(flows));
    RepairServes(Orphans(devices, flows), Controllers(devices), Fields(devices), Endpoints(flows));
  }

  /** The flow of a link: its direction and interval, and an IP protocol, one both ends speak if there is any. */
  ghost predicate IsFlowOf(f: Flow, link: Link) {
    && f.source == link.source.id && f.destination == link.target.id
    && f.pollMs == (if link.ControllerToField? then 500 else 1000)
    && f.protocol in TCP_UDP_PROTOCOLS
    && (if exists p <- link.source.protocols :: p in link.target.protocols && p in TCP_UDP_PROTOCOLS
        then f.protocol in link.source.protocols && f.protocol in link.target.protocols
        else if exists p <- link.source.protocols :: p in TCP_UDP_PROTOCOLS then f.protocol in link.source.protocols
        else if exists p <- link.target.protocols :: p in TCP_UDP_PROTOCOLS then f.protocol in link.target.protocols
        else f.protocol == "modbus_tcp")
  }

  lemma {:induction false} RealisedExactly(f: Flow, link: Link)
    requires Realises(f, link)
    ensures IsFlowOf(f, link)
  {
    var s, t := ToSet(link.source.protocols) * TCP_UDP_PROTOCOLS, ToSet(link.target.protocols) * TCP_UDP_PROTOCOLS;
    CandidatesCarryIp(link.source, link.target);
    if p :| p in link.source.protocols && p in link.target.protocols && p in TCP_UDP_PROTOCOLS {
      assert p in s * t;
    } else {
      assert s * t == {};
    }
    if p :| p in link.source.protocols && p in TCP_UDP_PROTOCOLS { assert p in s; } else { assert s == {}; }
    if p :| p in link.target.protocols && p in TCP_UDP_PROTOCOLS { assert p in t; } else { assert t == {}; }
  }

  /* ---------- what the repair leaves alone ---------- */

  ghost predicate UniqueIds(devices: seq<Device>) {
    forall d, e :: d in devices && e in devices && d.id == e.id ==> d == e
  }

  /** The shape of every generated link. */
  ghost predicate Proper(link: Link, devices: seq<Device>) {
    && link.source in devices && link.target in devices
    && match link
       case ControllerToField(s, t) => IsController(s) && IsField(t)
       case SupervisoryToController(s, t) => IsSupervisory(s) && IsController(t)
  }

  lemma {:induction false} FirstConnectedIsOne(controllers: seq<Device>, connected: set<string>)
    ensures var c := FirstConnected(controllers, connected); c.Some? ==> c.value in controllers
  {
    if controllers != [] { FirstConnectedIsOne(controllers[1..], connected); }
  }

  lemma {:induction false} RepairIsProper(orphans: seq<Device>, devices: seq<Device>, connected: set<string>)
    requires forall o <- orphans :: o in devices
    ensures forall l <- Repair(orphans, Controllers(devices), Fields(devices), connected) :: Proper(l, devices)
  {
    if orphans != [] {
      var controllers, fields := Controllers(devices), Fields(devices);
      var (links, now) := Connect(orphans[0], controllers, fields, connected);
      RepairIsProper(orphans[1..], devices, now);
      ClassLists(devices);
      TargetsExist(fields, connected);
      FirstConnectedIsOne(controllers, connected);
      assert orphans[0] in orphans;
      assert forall l <- links :: Proper(l, devices);
    }
  }

  lemma {:induction false} MissingIsProper(devices: seq<Device>, flows: seq<Flow>)
    ensures forall l <- Missing(devices, flows) :: Proper(l, devices)
    ensures Missing(devices, flows) != [] ==> exists c <- devices :: IsController(c)
  {
    OrphanList(devices, flows);
    RepairIsProper(Orphans(devices, flows), devices, Endpoints(flows));
    if Missing(devices, flows) != [] {
      var link := Missing(devices, flows)[0];
      assert Proper(link, devices);
      var c := if link.ControllerToField? then link.source else link.target;
      assert c in devices && IsController(c);
    }
  }

  /* ---------- exactly who is connected ---------- */

  function FirstController(devices: seq<Device>): Option<Device> {
    if devices == [] then None
    else if IsController(devices[0]) then Some(devices[0])
    else FirstController(devices[1..])
  }

  /** Whether a supervisory device comes behind c, or, if c is `ready`, at all. */
  predicate SupervisorBehind(devices: seq<Device>, c: Device, ready: bool) {
    devices != []
      && ((IsSupervisory(devices[0]) && ready) || SupervisorBehind(devices[1..], c, ready || devices[0] == c))
  }

  predicate AnyConnected(controllers: seq<Device>, connected: set<string>) {
    exists c :: c in controllers && c.id in connected
  }

  /**
    The one controller that a scenario without field devices can connect: the
    first, if it is not connected, when an orphaned supervisory device comes behind
    it or no controller is connected.
   */
  predicate PickedBySupervisor(d: Device, devices: seq<Device>, flows: seq<Flow>) {
    && Fields(devices) == [] && Controllers(devices) != [] && d == Controllers(devices)[0]
    && SupervisorBehind(Orphans(devices, flows), d, !AnyConnected(Controllers(devices), Endpoints(flows)))
  }

  lemma {:induction false} FirstConnectedIs(controllers: seq<Device>, connected: set<string>)
    ensures var c := FirstConnected(controllers, connected);
            if AnyConnected(controllers, connected)
            then c.Some? && c.value in controllers && c.value.id in connected
            else c.None?
  {
    if controllers != [] {
      FirstConnectedIs(controllers[1..], connected);
      assert controllers == [controllers[0]] + controllers[1..];
    }
  }

  lemma {:induction false} FirstControllerOrphaned(devices: seq<Device>, connected: set<string>)
    requires Controllers(devices) != [] && Controllers(devices)[0].id !in connected
    ensures FirstController(Keep(Unconnected(connected), devices)) == Some(Controllers(devices)[0])
  {
    if devices != [] {
      var orphans := Keep(Unconnected(connected), devices);
      if IsController(devices[0]) {
        assert Controllers(devices)[0] == devices[0] && orphans[0] == devices[0];
      } else {
        assert Controllers(devices) == Controllers(devices[1..]);
        FirstControllerOrphaned(devices[1..], connected);
        if devices[0].id !in connected {
          assert orphans == [devices[0]] + Keep(Unconnected(connected), devices[1..]);
          assert orphans[1..] == Keep(Unconnected(connected), devices[1..]);
        }
      }
    }
  }

  /**
    What holds between the repair of orphans in a scenario without field devices;
    `linked` is who was connected at first.
   */
  ghost predicate NoFieldState(rest: seq<Device>, controllers: seq<Device>, linked: set<string>,
                               connected: set<string>) {
    && controllers != [] && linked <= connected
    && (forall o <- rest :: !IsField(o))
    && (forall c, o | c in controllers && o in rest && c.id == o.id :: c == o)
    && (forall c <- controllers :: IsController(c))
    && (forall c <- controllers :: c.id in connected ==> c.id in linked || controllers[0].id in connected)
    && (controllers[0].id !in connected ==> FirstController(rest) == Some(controllers[0]))
  }

  lemma {:induction false} NoFieldStep(rest: seq<Device>, controllers: seq<Device>, linked: set<string>,
                                       connected: set<string>)
    requires NoFieldState(rest, controllers, linked, connected) && rest != []
    ensures NoFieldState(rest[1..], controllers, linked, Connect(rest[0], controllers, [], connected).1)
    ensures controllers[0].id in Connect(rest[0], controllers, [], connected).1 <==>
              controllers[0].id in connected || rest[0] == controllers[0]
  {
    var o, now := rest[0], Connect(rest[0], controllers, [], connected).1;
    assert o in rest && forall x <- rest[1..] :: x in rest;
    ClassesDisjoint(o.kind);
    assert DeviceIds([]) == {};
    assert now == if IsSupervisory(o) || IsController(o) then connected + {o.id} else connected;
    assert controllers[0] in controllers;
    if IsController(o) && controllers[0].id !in connected {
      assert o == controllers[0];
    }
  }

  /** Whom a supervisory orphan is linked to. */
  lemma {:induction false} SupervisorPicks(rest: seq<Device>, controllers: seq<Device>, linked: set<string>,
                                           connected: set<string>)
    requires NoFieldState(rest, controllers, linked, connected)
    ensures var target := FirstConnected(controllers, connected).GetOr(controllers[0]);
            && target in controllers
            && if controllers[0].id in connected || !AnyConnected(controllers, linked) then target == controllers[0]
               else target.id in linked
  {
    FirstConnectedIs(controllers, connected);
    assert controllers[0] in controllers;
  }

  lemma {:induction false} PickedNow(rest: seq<Device>, controllers: seq<Device>, linked: set<string>,
                                     connected: set<string>, d: Device)
    requires NoFieldState(rest, controllers, linked, connected) && rest != []
    requires d in controllers && d.id !in linked && forall c <- controllers :: c.id == d.id ==> c == d
    ensures d.id in LinkEnds(Connect(rest[0], controllers, [], connected).0) <==>
              && IsSupervisory(rest[0]) && d == controllers[0]
              && (d.id in connected || !AnyConnected(controllers, linked))
  {
    var o := rest[0];
    assert o in rest && controllers[0] in controllers;
    ClassesDisjoint(o.kind);
    SupervisorPicks(rest, controllers, linked, connected);
    if IsSupervisory(o) {
      OneLinkEnds(o, FirstConnected(controllers, connected).GetOr(controllers[0]));
    } else {
      assert LinkEnds([]) == {};
    }
  }

  lemma {:induction false} OneLinkEnds(source: Device, target: Device)
    ensures LinkEnds([SupervisoryToController(source, target)]) == {source.id, target.id}
  {
    var links := [SupervisoryToController(source, target)];
    assert links[0] in links;
  }

  lemma {:induction false} PickedExactly(rest: seq<Device>, controllers: seq<Device>, linked: set<string>,
                                         connected: set<string>, d: Device)
    requires NoFieldState(rest, controllers, linked, connected)
    requires d in controllers && d.id !in linked && forall c <- controllers :: c.id == d.id ==> c == d
    ensures d.id in LinkEnds(Repair(rest, controllers, [], connected)) <==>
              d == controllers[0] && SupervisorBehind(rest, d, d.id in connected || !AnyConnected(controllers, linked))
    decreases rest
  {
    if rest != [] {
      var links, now := Connect(rest[0], controllers, [], connected).0, Connect(rest[0], controllers, [], connected).1;
      NoFieldStep(rest, controllers, linked, connected);
      PickedExactly(rest[1..], controllers, linked, now, d);
      LinkEndsSplit(links, Repair(rest[1..], controllers, [], now));
      PickedNow(rest, controllers, linked, connected, d);
    } else {
      assert LinkEnds([]) == {};
    }
  }

  lemma {:induction false} PickedAtStart(devices: seq<Device>, flows: seq<Flow>, d: Device)
    requires UniqueIds(devices) && d in devices && IsController(d) && Fields(devices) == [] && d.id !in Endpoints(flows)
    ensures d.id in LinkEnds(Missing(devices, flows)) <==> PickedBySupervisor(d, devices, flows)
  {
    var controllers, orphans, linked := Controllers(devices), Orphans(devices, flows), Endpoints(flows);
    ClassLists(devices);
    OrphanList(devices, flows);
    assert d in controllers && controllers[0] in controllers;
    if controllers[0].id !in linked { FirstControllerOrphaned(devices, linked); }
    assert NoFieldState(orphans, controllers, linked, linked);
    PickedExactly(orphans, controllers, linked, linked, d);
  }

  /**
    Exactly who is connected afterwards: those already connected, those with a
    peer, and the controller a supervisory orphan picks where there are no field
    devices.
   */
  lemma {:induction false} ConnectedExactly(devices: seq<Device>, flows: seq<Flow>, r: seq<Flow>, d: Device)
    requires UniqueIds(devices) && d in devices
    requires Extends(r, flows, Missing(devices, flows))
    ensures d.id in Endpoints(r) <==>
              || d.id in Endpoints(flows)
              || HasPeer(d, Controllers(devices), Fields(devices))
              || PickedBySupervisor(d, devices, flows)
  {
    EndpointsAfter(r, flows, Missing(devices, flows));
    ClassLists(devices);
    if IsController(d) && Fields(devices) == [] {
      ClassesDisjoint(d.kind);
      if d.id !in Endpoints(flows) { PickedAtStart(devices, flows, d); }
    } else {
      ConnectedWithPeer(devices, flows, r, d);
    }
  }

  lemma {:induction false} ConnectedWithPeer(devices: seq<Device>, flows: seq<Flow>, r: seq<Flow>, d: Device)
    requires UniqueIds(devices) && d in devices && (IsController(d) ==> Fields(devices) != [])
    requires Extends(r, flows, Missing(devices, flows))
    ensures d.id in Endpoints(r) <==> d.id in Endpoints(flows) || HasPeer(d, Controllers(devices), Fields(devices))
    ensures !PickedBySupervisor(d, devices, flows)
  {
    EndpointsAfter(r, flows, Missing(devices, flows));
    RepairIsComplete(devices, flows, r);
    MissingIsProper(devices, flows);
    ClassLists(devices);
    if d.id in LinkEnds(Missing(devices, flows)) {
      var l :| l in Missing(devices, flows) && (l.source.id == d.id || l.target.id == d.id);
      assert Proper(l, devices);
    }
    assert Controllers(devices) != [] ==> Controllers(devices)[0] in Controllers(devices);
  }

  /* ---------- the validator ---------- */

  datatype Warning =
    | InvertedHierarchy(source: string, sourceKind: string, target: string, targetKind: string)
    | BypassedController(source: string, sourceKind: string, target: string, targetKind: string)
    | MissingController

  function KindOf(devices: seq<Device>): map<string, string> {
    if devices == [] then map[]
    else KindOf(devices[..|devices| - 1])[devices[|devices| - 1].id := devices[|devices| - 1].kind]
  }

  function NameOf(devices: seq<Device>): map<string, string> {
    if devices == [] then map[]
    else NameOf(devices[..|devices| - 1])[devices[|devices| - 1].id := devices[|devices| - 1].name]
  }

  function Lookup(m: map<string, string>, key: string, default: string): string {
    if key in m then m[key] else default
  }

  /** The warnings about one flow; an unknown device has no class, written as an empty kind. */
  function FlowWarnings(kinds: map<string, string>, names: map<string, string>, f: Flow): seq<Warning> {
    var sourceKind, targetKind := Lookup(kinds, f.source, ""), Lookup(kinds, f.destination, "");
    var source, target := Lookup(names, f.source, "Unknown"), Lookup(names, f.destination, "Unknown");
    (if sourceKind in FIELD_DEVICES && targetKind in CONTROLLERS
     then [InvertedHierarchy(source, sourceKind, target, targetKind)] else [])
    + (if sourceKind in SUPERVISORY && targetKind in FIELD_DEVICES
       then [BypassedController(source, sourceKind, target, targetKind)] else [])
  }

  function AllFlowWarnings(kinds: map<string, string>, names: map<string, string>, flows: seq<Flow>): seq<Warning> {
    if flows == [] then []
    else AllFlowWarnings(kinds, names, flows[..|flows| - 1]) + FlowWarnings(kinds, names, flows[|flows| - 1])
  }

  function Warnings(devices: seq<Device>, flows: seq<Flow>): seq<Warning> {
    if devices == [] || flows == [] then []
    else
      AllFlowWarnings(KindOf(devices), NameOf(devices), flows)
      + if Fields(devices) != [] && Controllers(devices) == [] then [MissingController] else []
  }

  method ValidateHierarchy(devices: seq<Device>, flows: seq<Flow>) returns (warnings: seq<Warning>)
    ensures warnings == Warnings(devices, flows)
  {
    warnings := [];
    if devices == [] || flows == [] {
      return;
    }
    var kinds, names := KindOf(devices), NameOf(devices);
    for i := 0 to |flows|
      invariant warnings == AllFlowWarnings(kinds, names, flows[..i])
    {
      var f := flows[i];
      assert flows[..i + 1][..i] == flows[..i];
      ghost var before := warnings;
      var sourceKind, targetKind := Lookup(kinds, f.source, ""), Lookup(kinds, f.destination, "");
      var source, target := Lookup(names, f.source, "Unknown"), Lookup(names, f.destination, "Unknown");
      if sourceKind in FIELD_DEVICES && targetKind in CONTROLLERS {
        warnings := warnings + [InvertedHierarchy(source, sourceKind, target, targetKind)];
      }
      if sourceKind in SUPERVISORY && targetKind in FIELD_DEVICES {
        warnings := warnings + [BypassedController(source, sourceKind, target, targetKind)];
      }
      assert warnings == before + FlowWarnings(kinds, names, f);
    }
    assert flows[..|flows|] == flows;
    var hasController, hasFieldDevices := Controllers(devices) != [], Fields(devices) != [];
    if hasFieldDevices && !hasController {
      warnings := warnings + [MissingController];
    }
  }

  /** The last device listed with an id. */
  ghost predicate IsLast(devices: seq<Device>, id: string, k: int) {
    0 <= k < |devices| && devices[k].id == id && forall i :: k < i < |devices| ==> devices[i].id != id
  }

  /** Kind and name of one end of a flow, as the last device with its id has them. */
  ghost predicate IsParty(devices: seq<Device>, id: string, kind: string, name: string) {
    if exists d <- devices :: d.id == id
    then exists k :: IsLast(devices, id, k) && kind == devices[k].kind && name == devices[k].name
    else kind == "" && name == "Unknown"
  }

  lemma {:induction false} KindIs(devices: seq<Device>, id: string, k: int)
    requires IsLast(devices, id, k)
    ensures id in KindOf(devices) && KindOf(devices)[id] == devices[k].kind
  {
    if k < |devices| - 1 { KindIs(devices[..|devices| - 1], id, k); }
  }

  lemma {:induction false} NameIs(devices: seq<Device>, id: string, k: int)
    requires IsLast(devices, id, k)
    ensures id in NameOf(devices) && NameOf(devices)[id] == devices[k].name
  {
    if k < |devices| - 1 { NameIs(devices[..|devices| - 1], id, k); }
  }

  lemma {:induction false} LastWith(devices: seq<Device>, id: string) returns (k: int)
    requires exists d <- devices :: d.id == id
    ensures IsLast(devices, id, k)
  {
    var n := |devices| - 1;
    assert devices == devices[..n] + [devices[n]];
    if devices[n].id == id {
      k := n;
    } else {
      k := LastWith(devices[..n], id);
    }
  }

  lemma {:induction false} NotInTables(devices: seq<Device>, id: string)
    requires forall d <- devices :: d.id != id
    ensures id !in KindOf(devices) && id !in NameOf(devices)
  {
    if devices != [] {
      assert devices[|devices| - 1] in devices;
      NotInTables(devices[..|devices| - 1], id);
    }
  }

  lemma {:induction false} PartyExactly(devices: seq<Device>, id: string)
    ensures IsParty(devices, id, Lookup(KindOf(devices), id, ""), Lookup(NameOf(devices), id, "Unknown"))
  {
    if exists d <- devices :: d.id == id {
      var k := LastWith(devices, id);
      KindIs(devices, id, k);
      NameIs(devices, id, k);
    } else {
      NotInTables(devices, id);
    }
  }

  /** What is reported about one flow. */
  ghost predicate IsReport(report: seq<Warning>, devices: seq<Device>, f: Flow) {
    exists sourceKind, source, targetKind, target ::
      && IsParty(devices, f.source, sourceKind, source) && IsParty(devices, f.destination, targetKind, target)
      && report == if sourceKind in FIELD_DEVICES && targetKind in CONTROLLERS
                   then [InvertedHierarchy(source, sourceKind, target, targetKind)]
                   else if sourceKind in SUPERVISORY && targetKind in FIELD_DEVICES
                   then [BypassedController(source, sourceKind, target, targetKind)]
                   else []
  }

  lemma {:induction false} FlowReported(devices: seq<Device>, f: Flow)
    ensures IsReport(FlowWarnings(KindOf(devices), NameOf(devices), f), devices, f)
  {
    PartyExactly(devices, f.source);
    PartyExactly(devices, f.destination);
    ClassesDisjoint(Lookup(KindOf(devices), f.source, ""));
  }

  ghost predicate AreReports(reports: seq<seq<Warning>>, devices: seq<Device>, flows: seq<Flow>) {
    |reports| == |flows| && forall k :: 0 <= k < |flows| ==> IsReport(reports[k], devices, flows[k])
  }

  function ReportsOf(kinds: map<string, string>, names: map<string, string>, flows: seq<Flow>): (r: seq<seq<Warning>>)
    ensures |r| == |flows|
  {
    seq(|flows|, k requires 0 <= k < |flows| => FlowWarnings(kinds, names, flows[k]))
  }

  lemma {:induction false} WarningsAreFlat(kinds: map<string, string>, names: map<string, string>, flows: seq<Flow>)
    ensures AllFlowWarnings(kinds, names, flows) == Flat(ReportsOf(kinds, names, flows))
  {
    if flows != [] {
      var n := |flows| - 1;
      WarningsAreFlat(kinds, names, flows[..n]);
      assert ReportsOf(kinds, names, flows)[..n] == ReportsOf(kinds, names, flows[..n]);
    }
  }

  lemma {:induction false} FlowsReported(devices: seq<Device>, flows: seq<Flow>)
    ensures AreReports(ReportsOf(KindOf(devices), NameOf(devices), flows), devices, flows)
  {
    forall k | 0 <= k < |flows|
      ensures IsReport(ReportsOf(KindOf(devices), NameOf(devices), flows)[k], devices, flows[k])
    {
      FlowReported(devices, flows[k]);
    }
  }

  /**
    The verdict: nothing where there are no devices or no flows; otherwise the
    report of each flow in order, and a missing controller where there are field
    devices but no controllers.
   */
  lemma {:induction false} WarningsExactly(devices: seq<Device>, flows: seq<Flow>)
    ensures devices == [] || flows == [] ==> Warnings(devices, flows) == []
    ensures devices != [] && flows != [] ==> exists reports ::
              && AreReports(reports, devices, flows)
              && Warnings(devices, flows) ==
                   Flat(reports) + if (exists d <- devices :: IsField(d)) && !(exists d <- devices :: IsController(d))
                                   then [MissingController] else []
  {
    FlowsReported(devices, flows);
    WarningsAreFlat(KindOf(devices), NameOf(devices), flows);
    ClassLists(devices);
    if d :| d in devices && IsField(d) { assert d in Fields(devices); }
    if d :| d in devices && IsController(d) { assert d in Controllers(devices); }
    if Fields(devices) != [] { assert Fields(devices)[0] in Fields(devices); }
    if Controllers(devices) != [] { assert Controllers(devices)[0] in Controllers(devices); }
  }

  lemma {:induction false} KindsOfUnique(all: seq<Device>, devices: seq<Device>)
    requires UniqueIds(all) && forall d <- devices :: d in all
    ensures forall d <- devices :: d.id in KindOf(devices) && KindOf(devices)[d.id] == d.kind
  {
    if devices != [] {
      var k := |devices| - 1;
      KindsOfUnique(all, devices[..k]);
      assert devices == devices[..k] + [devices[k]];
      assert devices[k] in all;
    }
  }

  lemma {:induction false} ProperFlowIsSilent(devices: seq<Device>, link: Link, f: Flow)
    requires UniqueIds(devices) && Proper(link, devices) && Realises(f, link)
    ensures FlowWarnings(KindOf(devices), NameOf(devices), f) == []
  {
    KindsOfUnique(devices, devices);
    ClassesDisjoint(link.source.kind);
    ClassesDisjoint(link.target.kind);
  }

  lemma {:induction false} ProperFlowsAreSilent(devices: seq<Device>, flows: seq<Flow>, r: seq<Flow>, links: seq<Link>)
    requires UniqueIds(devices) && Extends(r, flows, links)
    requires forall l <- links :: Proper(l, devices)
    ensures var kinds, names := KindOf(devices), NameOf(devices);
            AllFlowWarnings(kinds, names, r) == AllFlowWarnings(kinds, names, flows)
    decreases |links|
  {
    if links == [] {
      assert r == flows;
    } else {
      var k := |links| - 1;
      var link, f := links[k], r[|r| - 1];
      assert link in links && Realises(r[|flows| + k], link);
      ProperFlowIsSilent(devices, link, f);
      assert r[..|r| - 1][..|flows|] == flows;
      ProperFlowsAreSilent(devices, flows, r[..|r| - 1], links[..k]);
    }
  }

  /** The repair never changes the validator's verdict: no warning added, removed or reordered. */
  lemma {:induction false} RepairKeepsVerdict(devices: seq<Device>, flows: seq<Flow>, r: seq<Flow>)
    requires UniqueIds(devices)
    requires Extends(r, flows, Missing(devices, flows))
    ensures Warnings(devices, r) == Warnings(devices, flows)
  {
    var links := Missing(devices, flows);
    MissingIsProper(devices, flows);
    ProperFlowsAreSilent(devices, flows, r, links);
    ClassLists(devices);
    if flows == [] && links != [] {
      assert Controllers(devices) != [];
    } else if links == [] {
      assert r == flows;
    }
  }
}
