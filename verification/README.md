# PacketArch scenario builder: a verified model

PacketArch turns a rough request into a network of devices, zones, conduits and
flows, and injects anomalies into the traffic it simulates. This project models
the algorithms behind that in Dafny and proves what they guarantee. `dafny
verify dfyconfig.toml` checks all of it.

| file | what it models |
|---|---|
| `CountAllocator.dfy` | how many devices of each type are planned: scaling up and scaling down |
| `RequestedCounts.dfy` | what a request ends up with: the extra PLC and manual mode |
| `Topology.dfy` | connecting orphaned devices along the OT hierarchy, and the hierarchy validator |
| `Conduits.dfy` | conduits between zones: those designed and those backfilled |
| `AddressPool.dfy` | IP and MAC address generation and the zone records |
| `ScenarioBuild.dfy` | from an AI design to zones, placed and addressed devices, flows and conduits |
| `AnomalyInjector.dfy` | the per-flow anomaly state machine and campaigns |
| `AnomalyScheduler.dfy` | the time-sorted queue of scheduled anomalies and its patterns |
| `ProtocolLists.dfy`, `SourceRewriter.dfy` | dropping protocols from template source files, in place |
| `BinaryReaders.dfy` | reading SNMP values, object identifiers and Modbus device identification |
| `DeviceNamer.dfy` | cleaning, applying and de-duplicating device names |
| `ProtocolFilter.dfy` | keeping the protocols a fingerprint can back |
| `Distributions.dfy` | normalising function code distributions |
| `Versions.dfy` | ragged firmware versions and the CVE audit |
| `Collections.dfy`, `Text.dfy` | facts about sequences, maps, searching and numerals |

Code that changes things step by step is modelled as methods with loops, and as
classes where the original keeps fields; each method is proved against a
specification function, and the theorems are about that function. What such a
function returns is also stated without it, position by position, by a lemma
whose name ends in `Exactly` or by its method's contract. Objects whose sharing
matters, the anomaly events counted down in place, are heap objects. Random
draws, UUIDs and the order of set members are parameters or nondeterministic
choices, so the theorems hold for all of them. Lemmas switch Dafny's automatic
induction off; the inductions they need are in their bodies.

## Where the code and its documentation disagree

The model follows the code. Each finding is a theorem, with the exact condition
under which the code does what is promised.

- Manual mode is documented as generating the exact counts asked for. It does so
  exactly under a condition on template and request
  (`RequestedCounts.ManualModeExactly`), which fails in three ways: the minimum
  of a type left out pushes the plan over its own target and the scale-down cuts
  what the user asked for (`ManualModeLeavesOut`); a PLC is added
  (`ManualModeAddsPlc`); devices of a type the template does not offer are
  replaced by others (`ManualModeReplaces`).
- The guard that adds a PLC can exceed the target device count, with and without
  a scale-down (`RequestedCounts.ControllerGuardExceedsExactly`,
  `ControllerGuardExceedsTarget`, `ControllerGuardExceedsAfterScaleDown`).
- "Ensures every cross-zone flow has a covering conduit" fails when an AI
  conduit's id is one the backfill hands out, and for a zone whose id is empty,
  because an empty id is taken for no zone (`Conduits.CoverageExactly`,
  `ClashingIdUncovered`, `EmptyZoneIdUncovered`).
- A device that refers to an undeclared zone is listed in the first zone but
  addressed outside its subnet, but for one coincidence of octets
  (`ScenarioBuild.AddressedInZoneExactly`, `UndeclaredZoneLeavesTheSubnet`).
- A template zone without devices may be recorded with another zone's subnet
  (`AddressPool.SharedSubnet`, `SafetyZoneSharesSubnet`).
- The "increasing" pattern is commented as more frequent near the end; it is
  less frequent there (`AnomalyScheduler.IncreasingGapsGrow`). Bursts can leave
  their window (`AnomalyScheduler.BurstsWithinWindow`, `DefaultBurstsOverrun`).
- Campaign events are never counted down, so their duration does not bound how
  often they are returned (`AnomalyInjector.CampaignsNeverChange`,
  `CampaignEventNeverExpires`, `CampaignEventOutlivesItsDuration`).
- Object identifiers under arc 2 whose second arc exceeds 39, such as 2.999, are
  decoded wrongly (`BinaryReaders.OidRoundTrip`, `ArcMisread`), and so are values
  of 128 octets or more (`BinaryReaders.SnmpOidRoundTrip`).
- De-duplicated names can still collide (`DeviceNamer.UniqueExactly`,
  `SuffixCollides`).
- The field required of an identity is documented as what makes it count; any
  other field but a serial number counts as well
  (`ProtocolFilter.VendorDataExactly`).
- Filtering protocols twice can differ from filtering once
  (`ProtocolFilter.FilterIdempotentExactly`, `NoFingerprintNotIdempotent`).

## Model

| member | source | states |
|---|---|---|
| `CountAllocator.ScaledUpFacts` | backend/app/ai_services/scenario_generator.py:1065-1105 | Scaling up gives exactly min(target, planned + all growth room), lowers no count, takes none past its maximum, and gives each type a gain within one device of its proportional share of what is added; for every float rounding. |
| `CountAllocator.ScaledUpSum` | backend/app/ai_services/scenario_generator.py:1065-1105 | The total after scaling up is exactly min(target, planned + growth room). |
| `CountAllocator.LeftoverFits` | backend/app/ai_services/scenario_generator.py:1078-1103 | The proportional pass never overshoots, and what it leaves over is either at most one device per type still open or cannot be placed at all, so a single round-robin sweep finishes. |
| `CountAllocator.ShareBounds` | backend/app/ai_services/scenario_generator.py:1083-1084 | A share `int(n * (r / t))` is at most the exact share and less than one below it, or at most one below where the float product undershoots an integer. |
| `CountAllocator.SumTopUp` | backend/app/ai_services/scenario_generator.py:1091-1103 | A sweep adds exactly min(leftover, number of open types) devices. |
| `CountAllocator.Sweep` | backend/app/ai_services/scenario_generator.py:1092-1103 | One pass of the fix-up loop adds a device to each of the first open types in template order until the budget is gone, and reports whether it added any. |
| `CountAllocator.ScaleUp` | backend/app/ai_services/scenario_generator.py:1065-1105 | The proportional loop and the `while remaining > 0` loop together deliver the specification of scaling up, and stop. |
| `CountAllocator.ScaleDown` | backend/app/ai_services/scenario_generator.py:1107-1132 | Scaling down gives a level cut of the shrunk counts, keeps every critical type at 1 or more, and reaches the limit or the number of critical types, whichever is larger, when it has to trim. |
| `CountAllocator.Trim` | backend/app/ai_services/scenario_generator.py:1117-1129 | The trim loop stops; it cuts only the tallest counts (ties to the earlier type), touches critical types only once all others are at zero, never below 1. |
| `CountAllocator.Largest` | backend/app/ai_services/scenario_generator.py:1119-1128 | The first of the largest counts of one class above a threshold, or none exactly when there is none. |
| `CountAllocator.LeveledUnique` | backend/app/ai_services/scenario_generator.py:1117-1129 | The contract of the trim loop determines its result: two level cuts with equal totals are equal. |
| `CountAllocator.ShrunkSum` | backend/app/ai_services/scenario_generator.py:1110-1115 | Shrinking by the common factor loses less than one device per type (at most one where float products undershoot). |
| `CountAllocator.AllocateCounts` | backend/app/ai_services/scenario_generator.py:1041-1132 | Plans the counts: without a target every count is the one asked for or in its range; with one the plan is the request, its scale-up or its scale-down. |
| `CountAllocator.TotalScaledUp` | backend/app/ai_services/scenario_generator.py:1060-1105 | A plan not above the target ends at exactly min(target, planned + growth room). |
| `CountAllocator.TotalScaledDown` | backend/app/ai_services/scenario_generator.py:1107-1132 | A plan above the target ends above target - n and at most max(target, number of critical types), with 1 or more of each critical type; `target - n` itself is reached only where float products undershoot. |
| `CountAllocator.RequestHonoured` | backend/app/ai_services/scenario_generator.py:1049-1132 | The planned counts survive scaling exactly when they add up to the target, or fall short with no room left, or exceed it with just one device of each critical type. |
| `CountAllocator.PlanExactly` | backend/app/ai_services/scenario_generator.py:1045-1132 | Every plan for a target in full, for every rounding: the counts asked for or the minimum; or these plus floored shares of the growth room with the leftover given out in template order; or these shrunk by the common factor, no type above its share of the target unless it is critical and gets its one device, and trimmed from the top. |
| `CountAllocator.ScaledUpExactly` | backend/app/ai_services/scenario_generator.py:1065-1105 | Scaling up in full: each type's floored share of the room, or all its room, then one more device for the first open types in template order, to the exact total. |
| `CountAllocator.ShrunkExactly` | backend/app/ai_services/scenario_generator.py:1110-1115 | A shrunk count is the share rounded down, at least 1 for a critical type, and one less only where the float product undershoots an integer. |
| `RequestedCounts.ManualModeExactly` | backend/app/ai_services/scenario_generator.py:755-759 | Manual mode generates exactly the devices asked for, the added PLC included, exactly under a condition on template and request: nothing is asked for beyond the template, every type left out may be absent and no PLC needs adding; or the request is one of each critical type; or just the PLC that will be added is asked for beyond the template and all else is at its maximum. |
| `RequestedCounts.ManualModeLeavesOut` | backend/app/ai_services/scenario_generator.py:1049-1054 | Three PLCs asked for in a template that also has sensors: one PLC and two sensors are planned. |
| `RequestedCounts.ManualModeAddsPlc` | backend/app/ai_services/scenario_generator.py:1269-1322 | No PLC and five sensors asked for: a PLC is generated. |
| `RequestedCounts.ManualModeReplaces` | backend/app/ai_services/scenario_generator.py:1045-1051 | Five sensors and five robots asked for, where the template has no robots: ten sensors are planned. |
| `RequestedCounts.PlanHonoursExactly` | backend/app/ai_services/scenario_generator.py:1049-1132 | When the plan for a target of just the counts asked of the template is those counts. |
| `RequestedCounts.PlanOneShortExactly` | backend/app/ai_services/scenario_generator.py:1049-1132 | When it still is although the target is one higher. |
| `RequestedCounts.AskedTotal` | backend/app/ai_services/scenario_generator.py:755-758 | The sum of a request, as a dictionary, is the sum over the template's types plus what is asked for beyond the template. |
| `RequestedCounts.ControllerGuardExceedsExactly` | backend/app/ai_services/scenario_generator.py:1269-1322 | For every plan, scaled up, down or not at all, the added PLC takes the total past its limit exactly when no controller gets a device, some field type does, and the planned types reach the limit by themselves, all told from the planned counts. |
| `RequestedCounts.AddsExactly` | backend/app/ai_services/scenario_generator.py:1269-1276 | Whether the guard fires, from the planned counts. |
| `RequestedCounts.EmptyExactly` | backend/app/ai_services/scenario_generator.py:1062-1132 | Whether a type ends up with no device, from the planned counts, for both scaling loops. |
| `RequestedCounts.LimitExactly` | backend/app/ai_services/scenario_generator.py:1060-1132 | The planned types never pass the limit, and when they reach it. |
| `RequestedCounts.ControllerGuardRespectsLimit` | backend/app/ai_services/scenario_generator.py:1269-1322 | After a scale-down of a template that offers a PLC or an RTU, the guard never takes the total past max(target, number of critical types). |
| `RequestedCounts.ControllerGuardExceedsTarget` | backend/app/ai_services/scenario_generator.py:1269-1322 | A request for zero PLCs and five sensors with target 5 always ends with six devices. |
| `RequestedCounts.ControllerGuardExceedsAfterScaleDown` | backend/app/ai_services/scenario_generator.py:1269-1322 | A template without PLC and RTU, scaled down from four to a target of two, ends with three devices. |
| `Topology.EnsureConnectivity` | backend/app/ai_services/ai_scenario_designer.py:1659-1762 | The result is the given flows followed by one flow for each missing link, in order, each with a protocol, interval and description of its kind. |
| `Topology.ConnectOrphans` | backend/app/ai_services/ai_scenario_designer.py:1705-1757 | The loop over the orphan list computed once, against the changing set of connected devices, adds exactly the specified links. |
| `Topology.ConnectOrphan` | backend/app/ai_services/ai_scenario_designer.py:1705-1757 | One orphan adds the links its class calls for and marks exactly the devices the code marks. |
| `Topology.PollFields` | backend/app/ai_services/ai_scenario_designer.py:1738-1757 | An orphaned controller gets one flow to each of its targets, which become connected. |
| `Topology.DevicesInFlows` | backend/app/ai_services/ai_scenario_designer.py:1687-1691 | Collects exactly the endpoints of the flows. |
| `Topology.RepairIsComplete` | backend/app/ai_services/ai_scenario_designer.py:1659-1762 | After the repair every device with a peer to be connected to is an endpoint of some flow. |
| `Topology.HierarchyFullyConnected` | backend/app/ai_services/ai_scenario_designer.py:1659-1762 | With one controller and one field device in the scenario, every controller, field and supervisory device is an endpoint of some flow. |
| `Topology.RepairIsIdempotent` | backend/app/ai_services/ai_scenario_designer.py:1659-1762 | For any devices and flows a second repair adds no flow. |
| `Topology.ConnectedExactly` | backend/app/ai_services/ai_scenario_designer.py:1659-1762 | Exactly who is connected afterwards, for every device: those that were, those with a peer, and, without field devices, the first controller if an orphaned supervisory device comes behind it or no controller was connected. |
| `Topology.PickedExactly` | backend/app/ai_services/ai_scenario_designer.py:1718-1757 | Without field devices, which controller the loop links to a supervisory orphan while controllers are marked connected on the way. |
| `Topology.MissingIsProper` | backend/app/ai_services/ai_scenario_designer.py:1705-1757 | Every link added runs from a controller to a field device or from a supervisory device to a controller, among the given devices; with no controller nothing is added. |
| `Topology.ScoreIsPriority` | backend/app/ai_services/ai_scenario_designer.py:1770-1798 | The weights 10, 5 and 3 rank controllers lexicographically by the documented criteria: protocol, zone, consolidation. |
| `Topology.BestController` | backend/app/ai_services/ai_scenario_designer.py:1780-1802 | No controller is better by those criteria than the one chosen, and all before it are worse. |
| `Topology.FindCompatibleController` | backend/app/ai_services/ai_scenario_designer.py:1764-1802 | Scanning the scores finds that controller, or none when there is none. |
| `Topology.CandidatesCarryIp` | backend/app/ai_services/ai_scenario_designer.py:1811-1832 | The protocol of a generated flow is always an IP protocol, and one both ends speak if there is one. |
| `Topology.CreateHierarchyFlow` | backend/app/ai_services/ai_scenario_designer.py:1804-1854 | Builds the flow of a link with one of the admissible protocols. |
| `Topology.MissingExactly` | backend/app/ai_services/ai_scenario_designer.py:1705-1757 | Exactly which links the repair adds and in which order, for any devices and flows: for each device no flow mentions, in order, those its class calls for, seeing who is connected when its turn comes. |
| `Topology.ConnectExactly` | backend/app/ai_services/ai_scenario_designer.py:1705-1757 | What one orphan adds and marks: a field device gets the best controller; a supervisory device reads the first connected controller or else the first; a controller polls the first five unconnected field devices, or the first five if all are connected. |
| `Topology.RealisedExactly` | backend/app/ai_services/ai_scenario_designer.py:1804-1854 | Direction and interval of a generated flow, and its protocol: an IP protocol both ends speak, or else the source, or else the target, or else `modbus_tcp`. |
| `Topology.ClassesDisjoint` | backend/app/ai_services/ai_scenario_designer.py:1636-1648 | No device type is in two of the three classes. |
| `Topology.ValidateHierarchy` | backend/app/ai_services/ai_scenario_designer.py:1856-1906 | The loop returns exactly the specified warnings in order. |
| `Topology.WarningsExactly` | backend/app/ai_services/ai_scenario_designer.py:1872-1906 | The verdict in full: per flow, in order, the inversion or bypass that kinds and names of its ends (of the last device with each id) call for, and a missing controller last; nothing without devices or flows. |
| `Topology.RepairKeepsVerdict` | backend/app/ai_services/ai_scenario_designer.py:1705-1762 | With unique ids the validator returns the same warnings on the repaired flows as on the original ones, including when there were none. |
| `Conduits.BuildConduits` | backend/app/ai_services/ai_scenario_designer.py:1323-1435 | The result is the accepted AI conduits overwritten by one generated conduit for each missing pair of zones. |
| `Conduits.AcceptConduits` | backend/app/ai_services/ai_scenario_designer.py:1350-1376 | Keeps the AI conduits between declared zones, the last of several with one id. |
| `Conduits.LocateDevices` | backend/app/ai_services/ai_scenario_designer.py:1384-1388 | Maps each listed device to the last zone that lists it. |
| `Conduits.CollectMissing` | backend/app/ai_services/ai_scenario_designer.py:1390-1401 | Collects the uncovered pairs in order of first appearance, each with exactly the protocols crossing it. |
| `Conduits.MissingExactly` | backend/app/ai_services/ai_scenario_designer.py:1390-1401 | A pair is collected exactly when it is uncovered and some flow is seen to cross it, and only once. |
| `Conduits.Backfill` | backend/app/ai_services/ai_scenario_designer.py:1403-1423 | Adds the generated conduits under distinct ids and leaves all others alone. |
| `Conduits.SortNames` | backend/app/ai_services/ai_scenario_designer.py:1418 | Returns the members of a set strictly sorted. |
| `Conduits.SortedMembersUnique` | backend/app/ai_services/ai_scenario_designer.py:1418 | A set has only one strictly sorted listing. |
| `Conduits.PairForgetsOrder` | backend/app/ai_services/ai_scenario_designer.py:1397 | Sorting a pair of zones forgets its order and nothing else. |
| `Conduits.GeneratedIdInjective` | backend/app/ai_services/ai_scenario_designer.py:1408-1409 | `conduit_NNN` ids are pairwise distinct, also beyond three digits. |
| `Conduits.AiConduitsSurvive` | backend/app/ai_services/ai_scenario_designer.py:1347-1422 | Under every id the backfill does not hand out the result holds exactly the last AI conduit with that id and declared ends, unchanged in every field; all of them survive exactly when the backfill hands out none of their ids. |
| `Conduits.AcceptedExactly` | backend/app/ai_services/ai_scenario_designer.py:1350-1375 | Which AI conduits are accepted: under each id the last whose ends are both declared, with all its fields. |
| `Conduits.BackfilledExactly` | backend/app/ai_services/ai_scenario_designer.py:1403-1422 | The conduit for each missing pair in full: its number, its ends in order, its name from the zones' names, and exactly the protocols of the flows between them, sorted. |
| `Conduits.SeenExactly` | backend/app/ai_services/ai_scenario_designer.py:1392-1397 | When a flow counts for a pair of zones: its ends are listed in these two, in either direction, and neither id is empty. |
| `Conduits.MissingInOrder` | backend/app/ai_services/ai_scenario_designer.py:1391-1401 | The missing pairs, and so the numbers of their conduits, follow the order in which the flows first cross them. |
| `Conduits.ZoneOfExactly` | backend/app/ai_services/ai_scenario_designer.py:1384-1388 | A device is located in the last zone that lists it. |
| `Conduits.LeExactly` | backend/app/ai_services/ai_scenario_designer.py:1397-1397 | The order pairs and protocols are sorted in: a prefix first, otherwise by the first difference. |
| `Conduits.OneConduitPerMissingPair` | backend/app/ai_services/ai_scenario_designer.py:1403-1423 | Each missing pair gets exactly one conduit; it is auto-generated and allows exactly the protocols of the flows crossing the pair. |
| `Conduits.ConduitsJoinDeclaredZones` | backend/app/ai_services/ai_scenario_designer.py:1350-1423 | Every conduit joins two declared zones, and is auto-generated exactly when its pair was missing. |
| `Conduits.CoverageExactly` | backend/app/ai_services/ai_scenario_designer.py:1378-1423 | A flow between two zones ends up with a conduit exactly when its pair has an AI conduit that is not overwritten, or has none and both zone ids are non-empty. |
| `Conduits.AllCrossingsCovered` | backend/app/ai_services/ai_scenario_designer.py:1333-1335 | With no id clash and no empty zone id, every flow between two zones has a conduit for their pair. |
| `Conduits.EmptyZoneIdUncovered` | backend/app/ai_services/ai_scenario_designer.py:1395-1396 | A flow out of a zone with an empty id ends up without a conduit. |
| `Conduits.ClashingIdUncovered` | backend/app/ai_services/ai_scenario_designer.py:1406-1422 | Three zones, an AI conduit `conduit_002` between the first two, and a flow from the first to the third: the backfill takes that id and the flow between the first two is left without a conduit. |
| `ScenarioBuild.BuildZones` | backend/app/ai_services/ai_scenario_designer.py:1065-1111 | Builds the zone records, octets and names, with the default zone for an empty design. |
| `ScenarioBuild.PlaceDevices` | backend/app/ai_services/ai_scenario_designer.py:1117-1261 | The device loop fills in every zone's residents and count, and takes each device's address for the zone it asks for. |
| `ScenarioBuild.AddResident` | backend/app/ai_services/ai_scenario_designer.py:1256-1261 | Adds a device to the first zone that matches by id or name, and to no other. |
| `ScenarioBuild.ZonePartition` | backend/app/ai_services/ai_scenario_designer.py:1256-1261 | Every device is listed by exactly one zone and every zone counts what it lists, whatever zones the design refers to. |
| `ScenarioBuild.HomeOf` | backend/app/ai_services/ai_scenario_designer.py:1121-1123 | With distinct zones a device lives in the zone it names or defaults to, and in the first zone if that is not declared. |
| `ScenarioBuild.HomeExactly` | backend/app/ai_services/ai_scenario_designer.py:1121-1261 | For any zones, a device is listed in the first zone with the id it asks for (or the first zone's) or the name recorded last under that id (or the first zone's). |
| `ScenarioBuild.ResidentsInOrder` | backend/app/ai_services/ai_scenario_designer.py:1256-1261 | Each zone lists exactly the devices it is home to, in the order of the design. |
| `ScenarioBuild.TablesExactly` | backend/app/ai_services/ai_scenario_designer.py:1069-1074 | Of zones with one id the last decides octet and name. |
| `ScenarioBuild.AddressedInZoneExactly` | backend/app/ai_services/ai_scenario_designer.py:1240-1261 | With distinct zones, a device's address lies in the /24 of the zone that lists it exactly when its zone is declared or defaulted, or the design gives the first zone the octet number of zones plus number of other undeclared zones referred to before. |
| `ScenarioBuild.UndeclaredZoneLeavesTheSubnet` | backend/app/ai_services/ai_scenario_designer.py:1449-1454 | A device that refers to an undeclared zone beside a single declared one is listed there and addressed outside its /24. |
| `ScenarioBuild.BuildFlows` | backend/app/ai_services/ai_scenario_designer.py:1263-1283 | Builds the designed flows between known device names, in order and with repetitions. |
| `ScenarioBuild.FlowsExactly` | backend/app/ai_services/ai_scenario_designer.py:1263-1283 | Exactly the designed flows whose ends name devices with ids are built, in order, each from its source to its target with its protocol, interval and description. |
| `ScenarioBuild.IdsByNameExactly` | backend/app/ai_services/ai_scenario_designer.py:1115-1119 | Of devices with one name the last one's id counts. |
| `ScenarioBuild.DesignedFlowsJoinDevices` | backend/app/ai_services/ai_scenario_designer.py:1263-1283 | Designed flows run between built devices. |
| `ScenarioBuild.RepairedFlowsJoinDevices` | backend/app/ai_services/ai_scenario_designer.py:1285-1286 | So do the flows the repair adds. |
| `ScenarioBuild.DevicesAreLocated` | backend/app/ai_services/ai_scenario_designer.py:1384-1388 | The conduit builder finds every device in the zone it was placed in. |
| `ScenarioBuild.EveryCrossZoneFlowHasAConduit` | backend/app/ai_services/ai_scenario_designer.py:1263-1294 | End to end: every flow of a finished scenario, designed or added by the repair, runs between built devices and has a conduit if these are placed in different zones, given no id clash and no empty zone id. |
| `AddressPool.AddressCollision` | backend/app/ai_services/scenario_generator.py:1521-1543 | In one generated scenario addresses k < m coincide exactly when the zones do and 245 divides m - k. |
| `AddressPool.SameAddress` | backend/app/ai_services/ai_scenario_designer.py:1437-1459 | From any zone table, addresses k < m coincide exactly when the zones' octets do and 245 divides m - k. |
| `AddressPool.AddressInSubnet` | backend/app/ai_services/scenario_generator.py:1533-1541 | Every address is in the /24 its zone ends up with, with a host from 10 to 254 given by its position in the run. |
| `AddressPool.HostAfter` | backend/app/ai_services/scenario_generator.py:1538-1541 | The host counter after n requests, wrap-around included. |
| `AddressPool.OffsetsOnlyGrow` | backend/app/ai_services/scenario_generator.py:1533-1537 | A zone's octet never changes once assigned. |
| `AddressPool.FreshOffsetsDistinct` | backend/app/ai_services/scenario_generator.py:1533-1535 | Zones are numbered 0, 1, 2, ... in order of first use, without repetition. |
| `AddressPool.RenderInjective` | backend/app/ai_services/scenario_generator.py:1538 | Dotted addresses are equal exactly when their octets are. |
| `AddressPool.RenderExactly` | backend/app/ai_services/scenario_generator.py:1521-1543 | An address is written `10.range.zone.host`, and a subnet `10.range.zone.0/24`. |
| `AddressPool.RecordExactly` | backend/app/ai_services/scenario_generator.py:1342-1361 | A zone record in full: id, name, octet, VLAN, subnet and gateway, and exactly the zone's devices in order. |
| `AddressPool.GatewaysAreFree` | backend/app/ai_services/scenario_generator.py:1344-1359 | No device is ever given the address of a gateway. |
| `AddressPool.OctetOfNewZone` | backend/app/ai_services/scenario_generator.py:1533-1537 | A zone not known at the start gets the number of known zones plus the number of other new zones requested before it. |
| `AddressPool.SharedSubnet` | backend/app/ai_services/scenario_generator.py:1344-1356 | In a generated scenario two template zones are recorded with one subnet exactly when one has no device and its position is the order in which devices first used the other. |
| `AddressPool.SafetyZoneSharesSubnet` | backend/app/ai_services/scenario_generator.py:1344-1346 | With zones process_control, safety and enterprise and devices in the first and last, safety and enterprise share a subnet. |
| `AddressPool.SameMac` | backend/app/ai_services/scenario_generator.py:1566-1583 | Two MAC addresses coincide exactly when their prefixes do and their counters agree modulo 2^24. |
| `AddressPool.NicInjective` | backend/app/ai_services/scenario_generator.py:1576-1583 | The three rendered octets determine the counter modulo 2^24. |
| `AddressPool.NicExactly` | backend/app/ai_services/scenario_generator.py:1566-1583 | The last three octets are the counter's low 24 bits in hexadecimal, most significant first. |
| `AddressPool.ConsecutiveMacsDistinct` | backend/app/ai_services/scenario_generator.py:1566-1583 | Any 2^24 consecutive MAC addresses are pairwise distinct, whatever the prefixes. |
| `AddressPool.Generator.constructor` | backend/app/ai_services/scenario_generator.py:630-638 | A new generator starts at host 10, MAC counter 1 and no zones. |
| `AddressPool.Generator.ResetCounters` | backend/app/ai_services/scenario_generator.py:743-745 | A new scenario restarts hosts and zones but not MAC addresses. |
| `AddressPool.Generator.GenerateIp` | backend/app/ai_services/scenario_generator.py:1521-1543 | Returns the address of the current state and steps it; no other field changes. |
| `AddressPool.Generator.GenerateMacWithOui` | backend/app/ai_services/scenario_generator.py:1566-1583 | Returns the prefix with the current counter and increments it. |
| `AddressPool.Generator.GenerateMacs` | backend/app/ai_services/scenario_generator.py:1566-1583 | A run of requests yields consecutive addresses; no two within 2^24 of each other are the same. |
| `AddressPool.Generator.GenerateIps` | backend/app/ai_services/scenario_generator.py:1239-1253 | A run of requests returns exactly the addresses of the specified run. |
| `AddressPool.Generator.GenerateZones` | backend/app/ai_services/scenario_generator.py:1326-1361 | One record per template zone with its slug, octet, VLAN, subnet, gateway and the devices in it, in order. |
| `AddressPool.Generator.GenerateNetwork` | backend/app/ai_services/scenario_generator.py:792-801 | Each device's address lies in the /24 recorded for its zone, with a host from 10 to 254. |
| `AddressPool.Generator.GenerateScenario` | backend/app/ai_services/scenario_generator.py:743-801 | From fresh counters, the addresses and the recorded octets of a whole scenario. |
| `AnomalyInjector.InvInEveryRun` | backend/app/ai_services/anomaly_injector.py:204-319 | In every run without reset each flow has at most one active event, no event is shared between flows or with a campaign, and the injection count is the sum of the counts by type. |
| `AnomalyInjector.StepKeepsInv` | backend/app/ai_services/anomaly_injector.py:196-374 | Every operation keeps that invariant. |
| `AnomalyInjector.RunsStartWell` | backend/app/ai_services/anomaly_injector.py:125-151 | A new injector satisfies it. |
| `AnomalyInjector.OtherFlowsUntouched` | backend/app/ai_services/anomaly_injector.py:220-249 | A call for one flow leaves every other flow's events and all campaigns unchanged. |
| `AnomalyInjector.RandomEventLifetime` | backend/app/ai_services/anomaly_injector.py:220-319 | A random event is returned by the call that creates it and then by exactly the next `duration` calls for its flow, whatever happens in between. |
| `AnomalyInjector.Countdown` | backend/app/ai_services/anomaly_injector.py:220-230 | An active event with r cycles left is returned by exactly the next r calls for its flow. |
| `AnomalyInjector.GoneForGood` | backend/app/ai_services/anomaly_injector.py:226-230 | An event that is held nowhere any more is never returned again. |
| `AnomalyInjector.ReturnedFrom` | backend/app/ai_services/anomaly_injector.py:220-249 | What a call returns was active on its flow, belongs to a campaign, or is new. |
| `AnomalyInjector.CampaignsNeverChange` | backend/app/ai_services/anomaly_injector.py:232-241 | No run changes a campaign's events or times: none of its events is ever counted down. |
| `AnomalyInjector.CampaignEventReturnedExactly` | backend/app/ai_services/anomaly_injector.py:220-241 | In any run, an operation returns a campaign's event exactly when it is a call for a flow without a live event for which the event is planned at that point, however often it was returned before. |
| `AnomalyInjector.ReturnsCampaignEvent` | backend/app/ai_services/anomaly_injector.py:220-241 | The same for a single call. |
| `AnomalyInjector.DueExactly` | backend/app/ai_services/anomaly_injector.py:227-239 | When a campaign event is due, told from the flow's events and from activity, times, targets and remaining cycles of the campaigns: no event of the flow is live and it is the first event of the first campaign to qualify. |
| `AnomalyInjector.CallExactly` | backend/app/ai_services/anomaly_injector.py:204-249 | A call in full: the first live event is counted down and returned; else the first qualifying campaign event is returned; else an event is made from the first template that admits the protocol, is random and whose draw is below its probability, 0.01 by default; else nothing. |
| `AnomalyInjector.PlannedExactly` | backend/app/ai_services/anomaly_injector.py:230-239 | Which campaign event a call gets. |
| `AnomalyInjector.CampaignExactly` | backend/app/ai_services/anomaly_injector.py:343-373 | Creating a campaign in full: its end, and its events kind by kind and target by target, with the duration of the first template of the kind. |
| `AnomalyInjector.CampaignEventNeverExpires` | backend/app/ai_services/anomaly_injector.py:232-241 | Over any run a campaign event is returned as often as a call is due to it, so more often than its duration exactly in the runs with more due calls. |
| `AnomalyInjector.CampaignEventRepeats` | backend/app/ai_services/anomaly_injector.py:232-241 | While it is planned whenever its flow is asked about, every call for the flow returns it, whatever happens on other flows. |
| `AnomalyInjector.CampaignEventOutlivesItsDuration` | backend/app/ai_services/anomaly_injector.py:232-241 | A campaign event given one cycle is returned by two calls, with that cycle still remaining. |
| `AnomalyInjector.TotalTally` | backend/app/ai_services/anomaly_injector.py:313-316 | Counting an injection by type adds one to the sum over all types. |
| `AnomalyInjector.AnomalyEvent.constructor` | backend/app/ai_services/anomaly_injector.py:37-49 | A new event has all its cycles remaining. |
| `AnomalyInjector.Injector.constructor` | backend/app/ai_services/anomaly_injector.py:125-151 | A new injector is the initial state. |
| `AnomalyInjector.Injector.AddTemplate` | backend/app/ai_services/anomaly_injector.py:196-202 | Takes exactly the specified step. |
| `AnomalyInjector.Injector.CountDown` | backend/app/ai_services/anomaly_injector.py:220-225 | Counts down the flow's first live event object, which no other flow and no campaign holds. |
| `AnomalyInjector.Injector.OneHolder` | backend/app/ai_services/anomaly_injector.py:308-311 | An active event object is held by one flow only, and by no campaign. |
| `AnomalyInjector.Injector.CleanUp` | backend/app/ai_services/anomaly_injector.py:227-230 | Replaces the flow's events by those with cycles left. |
| `AnomalyInjector.Injector.PlannedFor` | backend/app/ai_services/anomaly_injector.py:232-241 | Finds the first live campaign event addressed to the flow in a running campaign. |
| `AnomalyInjector.Injector.Draw` | backend/app/ai_services/anomaly_injector.py:243-249 | Creates an event from the first eligible template whose draw fires. |
| `AnomalyInjector.Injector.CreateEvent` | backend/app/ai_services/anomaly_injector.py:279-319 | Creates, activates and counts one event. |
| `AnomalyInjector.Injector.Activate` | backend/app/ai_services/anomaly_injector.py:308-311 | Appends an event to its flow's active list. |
| `AnomalyInjector.Injector.Record` | backend/app/ai_services/anomaly_injector.py:313-316 | Counts one injection in total and by type. |
| `AnomalyInjector.Injector.PlanOrDraw` | backend/app/ai_services/anomaly_injector.py:232-249 | A campaign's event goes before random ones. |
| `AnomalyInjector.Injector.InjectAfresh` | backend/app/ai_services/anomaly_injector.py:227-249 | A call for a flow with no live event. |
| `AnomalyInjector.Injector.ShouldInject` | backend/app/ai_services/anomaly_injector.py:204-249 | The method on event objects takes exactly the specified step and keeps the invariant. |
| `AnomalyInjector.Injector.NewEventsFor` | backend/app/ai_services/anomaly_injector.py:357-370 | One new event object for each target, with consecutive ids. |
| `AnomalyInjector.Injector.NewCampaignEvents` | backend/app/ai_services/anomaly_injector.py:350-370 | One new event for each listed kind with a template and each target, in order. |
| `AnomalyInjector.Injector.CreateCampaign` | backend/app/ai_services/anomaly_injector.py:321-374 | Takes exactly the specified step and keeps the invariant. |
| `AnomalyInjector.Injector.Reset` | backend/app/ai_services/anomaly_injector.py:477-482 | Back to the initial state, templates aside. |
| `AnomalyScheduler.PendingInEveryRun` | backend/app/ai_services/anomaly_injector.py:838-931 | In every run of scheduling and polling the queue is the not yet reached events sorted by time, events of one time in order of scheduling. |
| `AnomalyScheduler.NothingLost` | backend/app/ai_services/anomaly_injector.py:838-931 | As multisets, scheduled = delivered + pending in every run. |
| `AnomalyScheduler.PollsCollapse` | backend/app/ai_services/anomaly_injector.py:912-931 | After any run, any number of polls delivers the same sequence and leaves the same state as one poll at the latest of their times. |
| `AnomalyScheduler.TwoPolls` | backend/app/ai_services/anomaly_injector.py:912-931 | The same for two polls of a sorted queue, in either order of their times. |
| `AnomalyScheduler.StableSortCorrect` | backend/app/ai_services/anomaly_injector.py:858 | The sort is sorted, a permutation, and stable. |
| `AnomalyScheduler.SortResumes` | backend/app/ai_services/anomaly_injector.py:853-858 | Sorting after every append is sorting once at the end. |
| `AnomalyScheduler.KeepSort` | backend/app/ai_services/anomaly_injector.py:924-930 | Delivering commutes with sorting. |
| `AnomalyScheduler.Scheduler.ScheduleAt` | backend/app/ai_services/anomaly_injector.py:838-858 | Appends and sorts. |
| `AnomalyScheduler.Scheduler.ScheduleAll` | backend/app/ai_services/anomaly_injector.py:881-910 | A loop of appends and sorts leaves the stable sort of everything. |
| `AnomalyScheduler.Scheduler.SchedulePattern` | backend/app/ai_services/anomaly_injector.py:860-910 | Schedules exactly the times of the pattern, or nothing where the code divides by zero. |
| `AnomalyScheduler.Scheduler.GetScheduledForTime` | backend/app/ai_services/anomaly_injector.py:912-931 | Returns what is due in queue order and keeps the rest in order. |
| `AnomalyScheduler.PatternWithinWindow` | backend/app/ai_services/anomaly_injector.py:877-902 | Linear and increasing patterns stay in their window. |
| `AnomalyScheduler.PatternExactly` | backend/app/ai_services/anomaly_injector.py:881-910 | The times of each pattern by name: even, bursts 100 ms apart, quadratic, or as drawn, with their default counts; nothing for another name, and a failure for a count of zero that is divided by. |
| `AnomalyScheduler.PollExactly` | backend/app/ai_services/anomaly_injector.py:912-931 | After any run a poll delivers the front of the queue, exactly the events whose time has come, and leaves exactly the later ones. |
| `AnomalyScheduler.IncreasingGapsGrow` | backend/app/ai_services/anomaly_injector.py:895-902 | Under "increasing" each gap is longer than the one before, so injections are rarer, not more frequent, near the end. |
| `AnomalyScheduler.BurstsWithinWindow` | backend/app/ai_services/anomaly_injector.py:884-893 | A burst pattern stays in its window exactly when a burst is shorter than the burst interval. |
| `AnomalyScheduler.DefaultBurstsOverrun` | backend/app/ai_services/anomaly_injector.py:884-893 | The default burst pattern over one second injects after its end. |
| `ProtocolLists.NamesRoundTrip` | backend/scripts/audit_template_protocols.py:84-95 | A list written by the rewriter is read back as the same names. |
| `ProtocolLists.ReadNamesAreListable` | backend/scripts/audit_template_protocols.py:84-89 | Every name read is a stretch of the list and can be written back. |
| `ProtocolLists.NamesExactly` | backend/scripts/audit_template_protocols.py:86-91 | What is read from any list: the parts between its commas, trimmed of white space and then of quotes, but for empty ones, in order. |
| `ProtocolLists.RenderExactly` | backend/scripts/audit_template_protocols.py:94-95 | A list is written as its names in double quotes, with a comma and a space between them. |
| `SourceRewriter.PatchTemplate` | backend/scripts/audit_template_protocols.py:51-108 | The loop over the text it is editing returns the segment-wise rewrite, and the kept and removed names of the last edit. |
| `SourceRewriter.PatchLoop` | backend/scripts/audit_template_protocols.py:68-108 | The loop stops, because the text behind the cursor gets shorter although the text itself may grow, and computes the segment-wise rewrite. |
| `SourceRewriter.Round` | backend/scripts/audit_template_protocols.py:69-106 | One round keeps the outcome of the whole rewrite and shortens what is left. |
| `SourceRewriter.NextMarker` | backend/scripts/audit_template_protocols.py:70-72 | Finds the next marker; nothing before it needs an edit. |
| `SourceRewriter.SegmentEnd` | backend/scripts/audit_template_protocols.py:74-77 | Finds the end of the marker's segment. |
| `SourceRewriter.SegmentEdit` | backend/scripts/audit_template_protocols.py:79-95 | The list and the edit of one segment, as the segment-wise rewrite has them; no edit when nothing is to be dropped. |
| `SourceRewriter.EditOf` | backend/scripts/audit_template_protocols.py:79-95 | The same, for the editor the loop is proved against. |
| `SourceRewriter.SetsDiffer` | backend/scripts/audit_template_protocols.py:92 | The set comparison holds exactly when some name is dropped. |
| `SourceRewriter.ReplaceList` | backend/scripts/audit_template_protocols.py:96-104 | Replacing the bracketed list and moving the cursor behind it. |
| `SourceRewriter.PatchSegment` | backend/scripts/audit_template_protocols.py:74-106 | One marker's segment, in all three branches. |
| `SourceRewriter.FirstListExactly` | backend/scripts/audit_template_protocols.py:63-82 | A segment's list is found whenever one opens and a bracket closes it, anywhere in the segment; it is the first to open, up to the first closing bracket. |
| `SourceRewriter.RewriteCleans` | backend/scripts/audit_template_protocols.py:54-60 | Afterwards the first list of no segment of the template, located by the positions of its brackets, names a dropped protocol; each of its segments keeps the other names in order and all text outside those brackets, every other segment is as it was, and number and order of segments are unchanged. |
| `SourceRewriter.OnlyListsChange` | backend/scripts/audit_template_protocols.py:69-108 | For every text, template id and set of protocols, the whole outcome: the segments that name something to drop have, between the brackets of their first list, the other names written anew; everything else is as it was; and kept and removed names of the last such segment are reported. |
| `SourceRewriter.ReportedExactly` | backend/scripts/audit_template_protocols.py:59-60 | Something is reported as removed exactly when the text changes. |
| `SourceRewriter.RenderIsFreeExactly` | backend/scripts/audit_template_protocols.py:94 | Writing a list creates a template boundary exactly when one of its names ends in `id=`. |
| `SourceRewriter.DifferentIdsAreApart` | backend/scripts/audit_template_protocols.py:62 | Markers of different ids without quotes cannot stand at one place. |
| `SourceRewriter.RewriteIsIdempotent` | backend/scripts/audit_template_protocols.py:51-108 | A second rewrite changes nothing and reports nothing removed. |
| `SourceRewriter.SegmentsAfter` | backend/scripts/audit_template_protocols.py:69-106 | The segments of the rewritten text are the rewritten segments: an edit creates and destroys no boundary. |
| `SourceRewriter.NoEditNoChange` | backend/scripts/audit_template_protocols.py:59-60 | Reporting nothing removed means the text is unchanged. |
| `SourceRewriter.ApplyFixes` | backend/scripts/audit_template_protocols.py:131-138 | Applies the fixes of one file in turn and counts those that changed it. |
| `SourceRewriter.ChangingExactly` | backend/scripts/audit_template_protocols.py:134-138 | The number of fixes reported is the number of those that change the text they are given. |
| `SourceRewriter.AllTemplatesFixed` | backend/scripts/audit_template_protocols.py:134-143 | After all fixes of a file no segment of any fixed template lists a protocol dropped for it. |
| `SourceRewriter.FixLeavesOthers` | backend/scripts/audit_template_protocols.py:134-138 | A fix leaves every other template's segments exactly as they were. |
| `SourceRewriter.OneTemplatePerSegment` | backend/scripts/audit_template_protocols.py:62 | A segment belongs to one of several templates that are apart. |
| `BinaryReaders.OidRoundTrip` | backend/scripts/validate_fingerprint_packets.py:204-215 | Decoding inverts the encoding of section 8.19 of ITU-T X.690 exactly for the identifiers whose second arc is at most 39, for any length and size of arcs. |
| `BinaryReaders.ArcMisread` | backend/scripts/validate_fingerprint_packets.py:204-215 | 2.999 is encoded as 136 55 and read as 3.16.55. |
| `BinaryReaders.DecodeOid` | backend/scripts/validate_fingerprint_packets.py:204-215 | The loop over the octets computes the specified components. |
| `BinaryReaders.ComponentsExactly` | backend/scripts/validate_fingerprint_packets.py:204-215 | What any octets are decoded to: two components from the first and one for each complete sub-identifier behind it; an incomplete one at the end is dropped. |
| `BinaryReaders.StringRoundTrip` | backend/scripts/validate_fingerprint_packets.py:155-180 | An OCTET STRING behind the first occurrence of its OID comes back as the decoding of exactly its contents, in short or long definite length (section 8.1.3 of ITU-T X.690), whatever surrounds it. |
| `BinaryReaders.StringReadExactly` | backend/scripts/validate_fingerprint_packets.py:155-180 | On any payload, something is read exactly when behind the first occurrence of the OID stand an OCTET STRING's tag and one more octet. |
| `BinaryReaders.TruncatedString` | backend/scripts/validate_fingerprint_packets.py:155-180 | A response cut anywhere behind the OID yields exactly the contents that arrived, once tag and one octet of the length did. |
| `BinaryReaders.ExtractSnmpString` | backend/scripts/validate_fingerprint_packets.py:155-180 | Computes the specified value on every payload, truncated ones included. |
| `BinaryReaders.ReadString` | backend/scripts/validate_fingerprint_packets.py:167-177 | The part behind the OID. |
| `BinaryReaders.ReadLength` | backend/scripts/validate_fingerprint_packets.py:170-176 | Reads a short or long length and moves behind it. |
| `BinaryReaders.SnmpOidRoundTrip` | backend/scripts/validate_fingerprint_packets.py:182-215 | An object identifier in a response, in the shortest definite length, comes back as its dotted text exactly when its second arc is at most 39 and its encoding is shorter than 128 octets. |
| `BinaryReaders.OidReadExactly` | backend/scripts/validate_fingerprint_packets.py:182-202 | On any payload, an identifier is read exactly when its tag and one more octet stand behind the prefix. |
| `BinaryReaders.SubIdsShort` | backend/scripts/validate_fingerprint_packets.py:210-214 | Decoding yields sub-identifiers that need no more octets than were read. |
| `BinaryReaders.LongValueMisread` | backend/scripts/validate_fingerprint_packets.py:194-199 | A value of 128 octets or more is never read back, because its length octet is taken for its length. |
| `BinaryReaders.ExtractSnmpOid` | backend/scripts/validate_fingerprint_packets.py:182-202 | Computes the specified value on every payload. |
| `BinaryReaders.ReadOid` | backend/scripts/validate_fingerprint_packets.py:189-199 | The part behind the prefix; only one length octet is read. |
| `BinaryReaders.ParseDeviceIdentification` | backend/scripts/validate_fingerprint_packets.py:231-273 | Computes the specified map on every payload without ever indexing past it. |
| `BinaryReaders.DeviceIdentificationRoundTrip` | backend/scripts/validate_fingerprint_packets.py:253-273 | A response with distinct object ids (section 6.21 of the Modbus Application Protocol V1.1b3) is read as exactly the map of its objects, whatever follows. |
| `BinaryReaders.TruncatedDeviceIdentification` | backend/scripts/validate_fingerprint_packets.py:264-273 | A response cut anywhere yields exactly the objects that arrived whole. |
| `BinaryReaders.DeviceIdentificationExactly` | backend/scripts/validate_fingerprint_packets.py:231-273 | What any packet is read as: nothing unless it has 14 octets and both codes; otherwise the whole objects it holds, at most as many as announced, the last of several with one id counting. |
| `BinaryReaders.WalkReadsObjects` | backend/scripts/validate_fingerprint_packets.py:263-273 | The object walk over any prefix of an encoded list. |
| `DeviceNamer.UniqueExactly` | backend/app/ai_services/device_namer.py:320-348 | The resulting names are pairwise distinct exactly when no input name is one the loop hands out to a repeated name. |
| `DeviceNamer.SuffixCollides` | backend/app/ai_services/device_namer.py:331-344 | Two devices called A and one called A_2 end up as A, A_2 and A_2. |
| `DeviceNamer.EnsureUniqueNames` | backend/app/ai_services/device_namer.py:320-348 | Keeps length, order and ids, leaves first occurrences as they are, and gives the k-th occurrence the suffix k. |
| `DeviceNamer.UniqueName` | backend/app/ai_services/device_namer.py:331-346 | One iteration, against the table of names seen. |
| `DeviceNamer.SuffixInjective` | backend/app/ai_services/device_namer.py:338 | A suffixed name determines its base and its number. |
| `DeviceNamer.ApplyNameMappings` | backend/app/ai_services/device_namer.py:302-318 | Renames exactly the mapped devices. |
| `DeviceNamer.CleanNameIsClean` | backend/app/ai_services/device_namer.py:63-74 | A cleaned name is at most 50 letters, digits and underscores, and cleaning is idempotent. |
| `DeviceNamer.CleanNameExactly` | backend/app/ai_services/device_namer.py:63-74 | A cleaned name is the word characters of the text with one underscore for each run of spaces and hyphens, cut at 50. |
| `ProtocolFilter.FilterProtocols` | backend/app/ai_services/ai_scenario_designer.py:1516-1603 | The loops compute the specified list, in every branch. |
| `ProtocolFilter.CollectAvailable` | backend/app/ai_services/ai_scenario_designer.py:1578-1583 | Collects the table's protocols whose identity the fingerprint has, in order. |
| `ProtocolFilter.FilterResult` | backend/app/ai_services/ai_scenario_designer.py:1553-1603 | For a non-empty request and fingerprint the result is non-empty: the valid part of the request in order, or one fallback that the fingerprint backs if it backs any. |
| `ProtocolFilter.FilterExactly` | backend/app/ai_services/ai_scenario_designer.py:1540-1603 | The result in every case, told from the table and the fingerprint's fields: the protocols asked for that can be served, in order; else Modbus if its identity or none is there; else the first protocol of the table that is backed. |
| `ProtocolFilter.VendorDataExactly` | backend/app/ai_services/ai_scenario_designer.py:1605-1631 | An identity counts exactly when it has a field besides its serial numbers; the required field makes no difference. |
| `ProtocolFilter.FilterIdempotentExactly` | backend/app/ai_services/ai_scenario_designer.py:1540-1603 | Filtering twice is filtering once exactly when there is a fingerprint and the request was not empty or `modbus_tcp` is what the filter keeps. |
| `ProtocolFilter.NoFingerprintNotIdempotent` | backend/app/ai_services/ai_scenario_designer.py:1540-1551 | Without a fingerprint a protocol is filtered to nothing, and nothing to `modbus_tcp`. |
| `Distributions.NormalizeDistribution` | backend/app/ai_services/pattern_normalizers.py:12-81 | The two passes compute the specified distribution. |
| `Distributions.NormalizeExactly` | backend/app/ai_services/pattern_normalizers.py:41-81 | The normalised form of any input: one entry for each key, in order of first appearance, as its last item says, with a frequency of its own or its share of the counts of all items. |
| `Distributions.EntryExactly` | backend/app/ai_services/pattern_normalizers.py:46-71 | The entry of one item in each input format, counts truncated toward zero and estimated from a frequency where missing. |
| `Distributions.NormalizeIsIdempotent` | backend/app/ai_services/pattern_normalizers.py:12-81 | Normalising is idempotent on non-negative counts and frequencies, whatever the mix of input formats. |
| `Distributions.ProbabilitiesSumToOne` | backend/app/ai_services/pattern_normalizers.py:84-120 | The probabilities extracted are none, or positive and add up to 1. |
| `Distributions.ProbabilitiesExactly` | backend/app/ai_services/pattern_normalizers.py:101-120 | A code has a probability exactly when an entry gives it a positive frequency, and probabilities are in proportion to the last such frequencies. |
| `Distributions.ExtractProbabilities` | backend/app/ai_services/pattern_normalizers.py:84-120 | The loop and the division compute them. |
| `Distributions.SumValues` | backend/app/ai_services/pattern_normalizers.py:116 | Sums the values of a map in any order. |
| `Versions.LeMeans` | backend/scripts/cve_template_consistency.py:32-36 | The comparison holds exactly when the versions agree up to trailing zeros or the first is smaller where they first differ, for any lengths. |
| `Versions.ParseExactly` | backend/scripts/cve_template_consistency.py:25-29 | A version text is read as the numbers of its first three maximal runs of digits, and as unknown if it has none. |
| `Versions.CoversExactly` | backend/scripts/cve_template_consistency.py:60-67 | A version is not covered exactly when it is not listed and first differs from the lower bound downwards or from the upper bound upwards; unknown bounds and versions do not count against it. |
| `Versions.FindExactly` | backend/scripts/cve_template_consistency.py:39-43 | The lookup by id finds the last entry with it, and its variants' versions in order. |
| `Versions.LeIsTotal` | backend/scripts/cve_template_consistency.py:32-36 | On known versions it is total, and antisymmetric up to trailing zeros. |
| `Versions.LeIsTransitive` | backend/scripts/cve_template_consistency.py:32-36 | On known versions of any lengths it is transitive. |
| `Versions.TrailingZerosIgnored` | backend/scripts/cve_template_consistency.py:35-36 | Appending zeros to either side changes nothing. |
| `Versions.UnknownBreaksTransitivity` | backend/scripts/cve_template_consistency.py:33-34 | With unknown versions it is not transitive. |
| `Versions.CheckReachability` | backend/scripts/cve_template_consistency.py:54-70 | Reports exactly the CVEs that match a template but cover no variant of a matching one, with the listed versions looked up by id. |
| `Versions.UnreachableExactly` | backend/scripts/cve_template_consistency.py:54-70 | A CVE is unreachable exactly when some template has an affected model and every version of every such template is unlisted and outside the range. |
| `Versions.Reached` | backend/scripts/cve_template_consistency.py:59-67 | The inner loops for one CVE. |
| `Versions.CheckVariants` | backend/scripts/cve_template_consistency.py:72-88 | Reports exactly the carried CVEs without variants, and those that do not cover the version carrying them. |
| `Versions.VerdictExactly` | backend/scripts/cve_template_consistency.py:76-88 | What is reported of a carried id, told from the last CVE with it: not emittable without variants, a disagreement where the version is not covered. |
| `Versions.Carriers` | backend/scripts/cve_template_consistency.py:73-75 | Every CVE id on every variant of every template. |
| `Versions.ListedIgnoresRanges` | backend/scripts/cve_template_consistency.py:39-43 | The lookup by id, where the last entry counts, does not depend on ranges. |
| `Versions.WideningKeepsReachability` | backend/scripts/cve_template_consistency.py:57-70 | Widening the range of one CVE of the list makes neither it nor any other unreachable. |
| `Versions.AgreementImpliesReachability` | backend/scripts/cve_template_consistency.py:54-88 | With nothing reported by the emittability and agreement checks, no CVE carried by a matching template is unreachable. |

## Left out

- Anything behind the LLM, the database, the file system and the network: prompts, JSON repair, template loading, reading and writing source files. Their results are parameters.
- Fingerprint lookup, vendor and protocol choice in device generation, `generate_mac_address`, and the identity table, which is a parameter: their data is not part of this model.
- `_generate_flows` and `apply_anomaly`: a choice of endpoints per class and a filter or map over packets, which would add only easy members.
- The external traffic half of the injector, which delegates to an engine that is not part of this model.
- The PROFINET DCP, EtherNet/IP and S7 packet parsers, whose offsets are heuristic.
- Names, severities, categories and parameters of anomaly events and the remaining display fields of zones, devices and conduits: copied without being read.
- Times, frequencies and probabilities are exact reals; their rounding is not modelled. Device shares are the exception, where rounding decides a floor.
- CountAllocator.ShareBounds: covers float products below 2^52, where only an exactly integral product can come out wrong, and then just below.
- CountAllocator.AllocateCounts: takes requested counts and targets that are not negative.
- AddressPool.AddressInSubnet: does not bound the third octet, which the code does not either; past 256 zones the text is not an address.
- ScenarioBuild.EveryCrossZoneFlowHasAConduit: takes the UUIDs of devices to be distinct.
- ScenarioBuild.AddressedInZoneExactly: takes zones with distinct ids and names; with repeated ones a device has no single zone of its own.
- AnomalyInjector.InvInEveryRun: event ids come from a counter, standing for fresh UUIDs; `reset` is a method of its own and not a step of a run.
- SourceRewriter.PatchTemplate: takes template ids whose marker holds no second `id="`; for others the loop's segments overlap.
- SourceRewriter.RewriteCleans: takes template ids whose marker does not open a protocol list, and lists without names ending in `id=`, which make a new boundary when written back (SourceRewriter.RenderIsFreeExactly).
- SourceRewriter.AllTemplatesFixed: takes template ids of which none's marker is the start of another's, as different ids without quotes are.
- SourceRewriter.ApplyFixes: leaves out the audit trail and the dry run.
- BinaryReaders.StringRoundTrip: the decoding to text with replacement characters is a parameter; Modbus values are left as octets.
- Versions.LeMeans: reads the ASCII digits of a version only; the pattern in the code also takes other Unicode digits.
- DeviceNamer.ApplyNameMappings: a device without an id is one whose id is empty, as the code reads it.
