/**
  From the planned counts to the devices a scenario ends up with: generation
  adds a PLC of its own when it finds field devices but no controller, and in
  manual mode the target is the sum of the counts asked for.
 */
module RequestedCounts {
  import opened Collections
  import opened CountAllocator

  const CONTROLLER_TYPES := {
    "plc", "rtu", "ied", "traffic_controller", "dms", "bms_controller",
    "chiller_controller", "vav_controller", "safety_controller", "dcs_controller"
  }

  /** Neither a controller nor an HMI. */
  predicate IsFieldType(name: string) { name !in CONTROLLER_TYPES && name != "hmi" }

  /** Type names are dictionary keys. */
  ghost predicate DistinctNames(template: seq<DeviceType>) {
    forall i, j :: 0 <= i < j < |template| ==> template[i].name != template[j].name
  }

  ghost predicate Offers(template: seq<DeviceType>, name: string) {
    exists i :: 0 <= i < |template| && template[i].name == name
  }

  /** Whether generation adds a PLC of its own: field devices are planned but no controller is. */
  ghost predicate AddsController(template: seq<DeviceType>, counts: seq<nat>)
    requires |counts| == |template|
  {
    && (forall i :: 0 <= i < |counts| && template[i].name in CONTROLLER_TYPES ==> counts[i] == 0)
    && (exists i :: 0 <= i < |counts| && IsFieldType(template[i].name) && counts[i] > 0)
  }

  /** How many devices are generated in the end. */
  ghost function GeneratedTotal(template: seq<DeviceType>, counts: seq<nat>): int
    requires |counts| == |template|
  {
    Sum(counts) + if AddsController(template, counts) then 1 else 0
  }

  /* ---------- which types end up empty ---------- */

  /**
    Type i has none planned and scaling up gives it none: it has no room, or its
    share is below one device and open types before it use up the leftover.
   */
  predicate StaysEmpty(counts: seq<nat>, maxs: seq<nat>, target: nat, undershoot: seq<bool>, i: nat)
    requires i < |counts| == |maxs| == |undershoot| && Sum(counts) < target
  {
    var total, toAdd := Sum(Room(counts, maxs)), target - Sum(counts);
    && counts[i] == 0
    && (|| maxs[i] == 0
        || (&& total > 0 && Share(toAdd, maxs[i], total, undershoot[i]) == 0
            && var mid := Proportional(counts, maxs, toAdd, total, undershoot);
               target - Sum(mid) <= Open(mid, maxs, i)))
  }

  lemma {:induction false} ScaledUpEmpty(counts: seq<nat>, maxs: seq<nat>, target: nat, undershoot: seq<bool>, i: nat)
    requires i < |counts| == |maxs| == |undershoot| && Sum(counts) < target
    ensures ScaledUp(counts, maxs, target, undershoot)[i] == 0 <==> StaysEmpty(counts, maxs, target, undershoot, i)
  {
    SumRoom(counts, maxs);
    var total := Sum(Room(counts, maxs));
    if total > 0 {
      var mid := Proportional(counts, maxs, target - Sum(counts), total, undershoot);
      LeftoverFits(counts, maxs, target, total, undershoot, mid);
      ToppedUpEmpty(counts, maxs, target - Sum(counts), total, undershoot, mid, target - Sum(mid), i);
    } else {
      assert Room(counts, maxs)[i] == 0;
    }
  }

  lemma {:induction false} ToppedUpEmpty(counts: seq<nat>, maxs: seq<nat>, toAdd: nat, total: nat,
                                         undershoot: seq<bool>, mid: seq<nat>, leftover: nat, i: nat)
    requires i < |counts| == |maxs| == |undershoot| && total > 0
    requires mid == Proportional(counts, maxs, toAdd, total, undershoot)
    ensures TopUp(mid, maxs, leftover)[i] == 0 <==>
              counts[i] == 0
                && (maxs[i] == 0
                    || (Share(toAdd, maxs[i], total, undershoot[i]) == 0 && leftover <= Open(mid, maxs, i)))
  {
    assert mid[i] == Grown(counts[i], maxs[i], toAdd, total, undershoot[i]);
  }

  /** Type i is the first of its class with a device, and no type of the class has more than one. */
  ghost predicate FirstOfOnes(shrunk: seq<nat>, critical: seq<bool>, i: nat)
    requires i < |shrunk| == |critical|
  {
    shrunk[i] == 1 && forall k :: 0 <= k < |shrunk| && !critical[k] ==> shrunk[k] <= if k < i then 0 else 1
  }

  /** Scaling down leaves nothing of type i: it shrinks to nothing, or the one device to trim is its only one. */
  ghost predicate CutToNothing(shrunk: seq<nat>, critical: seq<bool>, target: nat, i: nat)
    requires i < |shrunk| == |critical|
  {
    !critical[i] && (shrunk[i] == 0 || (Sum(shrunk) > target && FirstOfOnes(shrunk, critical, i)))
  }

  lemma {:induction false} OneLess(a: seq<nat>, b: seq<nat>) returns (j: nat)
    requires |a| == |b| && Sum(a) == Sum(b) + 1
    requires forall i :: 0 <= i < |a| ==> b[i] <= a[i]
    ensures j < |a| && a[j] == b[j] + 1 && forall i :: 0 <= i < |a| && i != j ==> a[i] == b[i]
    decreases |a|
  {
    var k := |a| - 1;
    if a[k] == b[k] {
      j := OneLess(a[..k], b[..k]);
      assert forall i :: 0 <= i < k ==> a[..k][i] == a[i] && b[..k][i] == b[i];
    } else {
      SumMonotone(b[..k], a[..k]);
      assert forall i :: 0 <= i < k ==> a[..k][i] == a[i] && b[..k][i] == b[i];
      j := k;
    }
  }

  lemma {:induction false} TrimmedOne(shrunk: seq<nat>, r: seq<nat>, critical: seq<bool>, i: nat)
    requires Leveled(shrunk, r, critical) && Sum(shrunk) == Sum(r) + 1
    requires i < |r| && !critical[i] && shrunk[i] > 0
    ensures r[i] == 0 <==> FirstOfOnes(shrunk, critical, i)
  {
    var j := OneLess(shrunk, r);
    assert r[j] < shrunk[j];
  }

  lemma {:induction false} CutExactly(shrunk: seq<nat>, r: seq<nat>, critical: seq<bool>, target: nat, i: nat)
    requires Leveled(shrunk, r, critical) && i < |r| && !critical[i]
    requires forall k :: 0 <= k < |r| ==> r[k] >= Floors(critical)[k]
    requires Sum(r) == if Sum(shrunk) <= target then Sum(shrunk) else Max(target, Sum(Floors(critical)))
    requires Sum(Floors(critical)) <= 1 && Sum(shrunk) <= target + Sum(Floors(critical))
    ensures r[i] == 0 <==> CutToNothing(shrunk, critical, target, i)
  {
    if Sum(r) == Sum(shrunk) {
      SumMonotone(r, shrunk);
      if Sum(shrunk) > target {
        SumMonotone(Floors(critical), r);
      }
    } else if shrunk[i] > 0 {
      TrimmedOne(shrunk, r, critical, i);
    }
  }

  lemma {:induction false} SharesFit(counts: seq<nat>, critical: seq<bool>, target: nat, undershoot: seq<bool>)
    requires |counts| == |critical| == |undershoot| && Sum(counts) > 0
    ensures Sum(Shrunk(counts, critical, target, Sum(counts), undershoot)) <= target + Sum(Floors(critical))
  {
    var total, n := Sum(counts), |counts|;
    var zeros: seq<int> := seq(n, i => 0);
    var shares: seq<int> := seq(n, i requires 0 <= i < n => Share(counts[i], target, total, undershoot[i]));
    var bounds: seq<int> := seq(n, i requires 0 <= i < n => shares[i] + Floors(critical)[i]);
    forall i | 0 <= i < n ensures total * (shares[i] - zeros[i]) <= target * counts[i] {
      ShareBounds(counts[i], target, total, undershoot[i]);
    }
    SumWeighted(total, zeros, shares, target, counts);
    SumZero(zeros);
    SharesCancel(total, Sum(shares), target);
    SumAdded(shares, Floors(critical), bounds);
    SumMonotone(Shrunk(counts, critical, target, total, undershoot), bounds);
  }

  lemma {:induction false} SharesCancel(total: nat, shares: int, target: nat)
    requires total > 0 && total * (shares - 0) <= target * total
    ensures shares <= target
  {
    assert total * target == target * total;
    CancelLe(total, shares, target);
  }

  /** Without PLC and RTU only the HMI is critical. */
  lemma {:induction false} OneCritical(template: seq<DeviceType>)
    requires DistinctNames(template) && !Offers(template, "plc") && !Offers(template, "rtu")
    ensures 0 <= Sum(Reserve(template)) <= 1
    ensures !Offers(template, "hmi") ==> Sum(Reserve(template)) == 0
  {
    if template != [] {
      var k := |template| - 1;
      var before := template[..k];
      assert forall i :: 0 <= i < k ==> before[i] == template[i];
      assert template[k].name != "plc" && template[k].name != "rtu";
      OneCritical(before);
      assert Reserve(template)[..k] == Reserve(before);
    }
  }

  /** Whether type i ends up with no device, from the planned counts. */
  ghost predicate EndsEmpty(template: seq<DeviceType>, p: seq<nat>, target: nat, undershoot: seq<bool>, i: nat)
    requires i < |template| == |p| == |undershoot|
  {
    if Sum(p) == target then p[i] == 0
    else if Sum(p) < target then StaysEmpty(p, Maxs(template), target, undershoot, i)
    else CutToNothing(Shrunk(p, Critical(template), target, Sum(p), undershoot), Critical(template), target, i)
  }

  lemma {:induction false} EmptyExactly(template: seq<DeviceType>, requested: map<string, nat>, target: nat,
                                        undershoot: seq<bool>, r: seq<nat>, i: nat)
    requires |undershoot| == |template| && DistinctNames(template) && i < |template|
    requires Allocates(template, requested, target, undershoot, r)
    requires Sum(Planned(template, requested)) > target ==>
      !Offers(template, "plc") && !Offers(template, "rtu") && template[i].name != "hmi"
    ensures r[i] == 0 <==> EndsEmpty(template, Planned(template, requested), target, undershoot, i)
  {
    var p := Planned(template, requested);
    if Sum(p) < target {
      ScaledUpEmpty(p, Maxs(template), target, undershoot, i);
    } else if Sum(p) > target {
      SharesFit(p, Critical(template), target, undershoot);
      OneCritical(template);
      CutExactly(Shrunk(p, Critical(template), target, Sum(p), undershoot), r, Critical(template), target, i);
    }
  }

  /* ---------- the extra PLC and the target ---------- */

  /** Whether a PLC will be added, from the planned counts: no controller gets a device and some field type does. */
  ghost predicate WillAddController(template: seq<DeviceType>, p: seq<nat>, target: nat, undershoot: seq<bool>)
    requires |template| == |p| == |undershoot|
  {
    && (forall i :: 0 <= i < |p| && template[i].name in CONTROLLER_TYPES ==>
        EndsEmpty(template, p, target, undershoot, i))
    && (exists i :: 0 <= i < |p| && IsFieldType(template[i].name) && !EndsEmpty(template, p, target, undershoot, i))
  }

  /** What the planned types may come to: the target, or one device of each critical type. */
  function Limit(template: seq<DeviceType>, p: seq<nat>, target: nat): int {
    if Sum(p) <= target then target else Max(target, Sum(Reserve(template)))
  }

  /** Whether the planned types reach it by themselves. */
  ghost predicate ReachesLimit(template: seq<DeviceType>, p: seq<nat>, target: nat, undershoot: seq<bool>)
    requires |template| == |p| == |undershoot|
  {
    if Sum(p) <= target then Sum(p) + Sum(Room(p, Maxs(template))) >= target
    else Sum(Shrunk(p, Critical(template), target, Sum(p), undershoot)) >= target
  }

  lemma {:induction false} CriticalKept(template: seq<DeviceType>, requested: map<string, nat>, target: nat,
                                        undershoot: seq<bool>, r: seq<nat>, i: nat)
    requires |undershoot| == |template| && i < |template| && template[i].name in CRITICAL_TYPES
    requires Sum(Planned(template, requested)) > target && Allocates(template, requested, target, undershoot, r)
    ensures r[i] > 0 && !EndsEmpty(template, Planned(template, requested), target, undershoot, i)
  {
    assert Critical(template)[i] && Reserve(template)[i] == 1;
  }

  lemma {:induction false} AddsExactly(template: seq<DeviceType>, requested: map<string, nat>, target: nat,
                                       undershoot: seq<bool>, r: seq<nat>)
    requires |undershoot| == |template| && DistinctNames(template)
    requires Allocates(template, requested, target, undershoot, r)
    ensures AddsController(template, r) <==>
              WillAddController(template, Planned(template, requested), target, undershoot)
  {
    var p := Planned(template, requested);
    if Sum(p) > target && (Offers(template, "plc") || Offers(template, "rtu")) {
      var i :| 0 <= i < |template| && (template[i].name == "plc" || template[i].name == "rtu");
      CriticalKept(template, requested, target, undershoot, r, i);
    } else {
      forall i | 0 <= i < |template| && template[i].name != "hmi"
        ensures r[i] == 0 <==> EndsEmpty(template, p, target, undershoot, i)
      {
        EmptyExactly(template, requested, target, undershoot, r, i);
      }
      SameEmpties(template, p, target, undershoot, r);
    }
  }

  lemma {:induction false} SameEmpties(template: seq<DeviceType>, p: seq<nat>, target: nat, undershoot: seq<bool>,
                                       r: seq<nat>)
    requires |undershoot| == |template| == |p| == |r|
    requires forall i :: 0 <= i < |r| && template[i].name != "hmi" ==>
      (r[i] == 0 <==> EndsEmpty(template, p, target, undershoot, i))
    ensures AddsController(template, r) <==> WillAddController(template, p, target, undershoot)
  {
    assert "hmi" !in CONTROLLER_TYPES;
  }

  lemma {:induction false} LimitExactly(template: seq<DeviceType>, requested: map<string, nat>, target: nat,
                                        undershoot: seq<bool>, r: seq<nat>)
    requires |undershoot| == |template| && Allocates(template, requested, target, undershoot, r)
    ensures var p := Planned(template, requested);
            && Sum(r) <= Limit(template, p, target)
            && (Sum(r) == Limit(template, p, target) <==> ReachesLimit(template, p, target, undershoot))
  {
    if Sum(Planned(template, requested)) <= target {
      TotalScaledUp(template, requested, target, undershoot, r);
    } else {
      SumAfterScaleDown(template, Planned(template, requested), target, undershoot, r);
    }
  }

  lemma {:induction false} SumAfterScaleDown(template: seq<DeviceType>, p: seq<nat>, target: nat, undershoot: seq<bool>,
                                             r: seq<nat>)
    requires |undershoot| == |template| == |p| == |r| && Sum(p) > target
    requires forall i :: 0 <= i < |r| ==> r[i] >= Reserve(template)[i]
    requires var shrunk := Shrunk(p, Critical(template), target, Sum(p), undershoot);
             Sum(r) == if Sum(shrunk) <= target then Sum(shrunk) else Max(target, Sum(Reserve(template)))
    ensures Sum(r) <= Limit(template, p, target)
    ensures Sum(r) == Limit(template, p, target) <==> ReachesLimit(template, p, target, undershoot)
  {
    SumMonotone(Reserve(template), r);
  }

  /**
    For every plan, the extra PLC takes a scenario past its limit exactly when no
    controller gets a device, some field type does, and the planned types reach
    the limit by themselves; all three can be told from the planned counts.
   */
  lemma {:induction false} ControllerGuardExceedsExactly(template: seq<DeviceType>, requested: map<string, nat>,
                                                         target: nat, undershoot: seq<bool>, r: seq<nat>)
    requires |undershoot| == |template| && DistinctNames(template)
    requires Allocates(template, requested, target, undershoot, r)
    ensures var p := Planned(template, requested);
            GeneratedTotal(template, r) > Limit(template, p, target) <==>
              WillAddController(template, p, target, undershoot) && ReachesLimit(template, p, target, undershoot)
  {
    AddsExactly(template, requested, target, undershoot, r);
    LimitExactly(template, requested, target, undershoot, r);
  }

  /** In particular never after a scale-down whose template offers a PLC or an RTU. */
  lemma {:induction false} ControllerGuardRespectsLimit(template: seq<DeviceType>, requested: map<string, nat>,
                                                        target: nat, undershoot: seq<bool>, r: seq<nat>)
    requires |undershoot| == |template| && Allocates(template, requested, target, undershoot, r)
    requires Sum(Planned(template, requested)) > target && (Offers(template, "plc") || Offers(template, "rtu"))
    ensures GeneratedTotal(template, r) <= Max(target, Sum(Reserve(template)))
  {
    var i :| 0 <= i < |template| && (template[i].name == "plc" || template[i].name == "rtu");
    CriticalKept(template, requested, target, undershoot, r, i);
    LimitExactly(template, requested, target, undershoot, r);
  }

  lemma {:induction false} SumOfTwo(a: int, b: int)
    ensures Sum([a, b]) == a + b
  {
    assert [a, b][..1] == [a] && [a][..0] == [];
    assert Sum([a]) == a;
  }

  /** An explicit zero is enough: no PLCs and five sensors come to six devices. */
  lemma {:induction false} ControllerGuardExceedsTarget()
    ensures var template := [DeviceType("plc", 2, 10), DeviceType("sensor", 10, 50)];
            var requested: map<string, nat> := map["plc" := 0, "sensor" := 5];
            forall r :: Allocates(template, requested, 5, [false, false], r) ==> GeneratedTotal(template, r) == 6
  {
    var template := [DeviceType("plc", 2, 10), DeviceType("sensor", 10, 50)];
    var requested: map<string, nat> := map["plc" := 0, "sensor" := 5];
    var p := Planned(template, requested);
    assert p == [0, 5];
    SumOfTwo(0, 5);
    assert IsFieldType(template[1].name) && p[1] > 0;
  }

  /** So is a scale-down of a template without PLC and RTU: two power meters come to three devices. */
  lemma {:induction false} ControllerGuardExceedsAfterScaleDown()
    ensures var template := [DeviceType("power_meter", 5, 30), DeviceType("lighting_controller", 2, 20)];
            var requested: map<string, nat> := map["power_meter" := 2];
            forall r :: Allocates(template, requested, 2, [false, false], r) ==> GeneratedTotal(template, r) == 3
  {
    var template := [DeviceType("power_meter", 5, 30), DeviceType("lighting_controller", 2, 20)];
    var requested: map<string, nat> := map["power_meter" := 2];
    var p := Planned(template, requested);
    assert p == [2, 2];
    SumOfTwo(2, 2);
    var shrunk := Shrunk(p, Critical(template), 2, 4, [false, false]);
    assert shrunk == [1, 1];
    SumOfTwo(1, 1);
    forall r: seq<nat> | Allocates(template, requested, 2, [false, false], r) ensures GeneratedTotal(template, r) == 3 {
      SumMonotone(r, shrunk);
      assert r == [1, 1];
      assert IsFieldType(template[0].name) && r[0] > 0;
    }
  }

  /* ---------- manual mode ---------- */

  function AskedOf(requested: map<string, nat>, name: string): nat {
    if name in requested then requested[name] else 0
  }

  /** What the user asked for, type by type of the template. */
  function Asked(template: seq<DeviceType>, requested: map<string, nat>): (r: seq<nat>)
    ensures |r| == |template|
  {
    seq(|template|, i requires 0 <= i < |template| => AskedOf(requested, template[i].name))
  }

  /** What the user asked for beyond the template. */
  ghost function Outside(template: seq<DeviceType>, requested: map<string, nat>): map<string, nat> {
    map name | name in requested && !Offers(template, name) :: requested[name]
  }

  /** How many planned devices have a type. */
  function CountOf(template: seq<DeviceType>, counts: seq<nat>, name: string): nat
    requires |counts| == |template|
  {
    if template == [] then 0
    else
      var k := |template| - 1;
      CountOf(template[..k], counts[..k], name) + if template[k].name == name then counts[k] else 0
  }

  /** How many devices of a type are generated in the end. */
  ghost function GeneratedOf(template: seq<DeviceType>, counts: seq<nat>, name: string): nat
    requires |counts| == |template|
  {
    CountOf(template, counts, name) + if AddsController(template, counts) && name == "plc" then 1 else 0
  }

  /** The scenario has exactly the devices asked for. */
  ghost predicate Honours(template: seq<DeviceType>, counts: seq<nat>, requested: map<string, nat>)
    requires |counts| == |template|
  {
    forall name :: GeneratedOf(template, counts, name) == AskedOf(requested, name)
  }

  lemma {:induction false} CountOfType(template: seq<DeviceType>, counts: seq<nat>, name: string)
    requires |counts| == |template| && DistinctNames(template)
    ensures !Offers(template, name) ==> CountOf(template, counts, name) == 0
    ensures forall i :: 0 <= i < |template| && template[i].name == name ==> CountOf(template, counts, name) == counts[i]
  {
    if template != [] {
      var k := |template| - 1;
      assert forall i :: 0 <= i < k ==> template[..k][i] == template[i];
      CountOfType(template[..k], counts[..k], name);
    }
  }

  lemma {:induction false} OutsideStep(template: seq<DeviceType>, requested: map<string, nat>)
    requires template != [] && DistinctNames(template)
    ensures var k := |template| - 1;
            var rest := requested - {template[k].name};
            && Outside(template[..k], rest) == Outside(template, requested)
            && Asked(template, requested)[..k] == Asked(template[..k], rest)
  {
    var k := |template| - 1;
    var rest := requested - {template[k].name};
    forall name ensures Offers(template, name) <==> Offers(template[..k], name) || name == template[k].name {
      if i :| 0 <= i < |template| && template[i].name == name {
        assert i < k ==> template[..k][i] == template[i];
      }
      if i :| 0 <= i < k && template[..k][i].name == name {
        assert template[i].name == name;
      }
    }
    assert Outside(template[..k], rest) == Outside(template, requested);
  }

  /** The sum of a request is what it asks of the template and what it asks beyond it. */
  lemma {:induction false} AskedTotal(template: seq<DeviceType>, requested: map<string, nat>)
    requires DistinctNames(template)
    ensures Total(requested) == Sum(Asked(template, requested)) + Total(Outside(template, requested))
    decreases |template|
  {
    if template == [] {
      assert Outside(template, requested) == requested;
    } else {
      var k := |template| - 1;
      var name, rest := template[k].name, requested - {template[k].name};
      OutsideStep(template, requested);
      AskedTotal(template[..k], rest);
      if name in requested { TotalMinus(requested, name); } else { assert rest == requested; }
    }
  }

  lemma {:induction false} TotalOfZeros(m: map<string, nat>)
    requires forall name <- m :: m[name] == 0
    ensures Total(m) == 0
    decreases m
  {
    if m != map[] {
      var name :| name in m;
      TotalMinus(m, name);
      TotalOfZeros(m - {name});
    }
  }

  /** All of a request beyond a template is one `only`. */
  lemma {:induction false} TotalOfOne(m: map<string, nat>, only: string)
    requires only in m && m[only] == 1 && forall name <- m :: name != only ==> m[name] == 0
    ensures Total(m) == 1
  {
    TotalMinus(m, only);
    TotalOfZeros(m - {only});
  }

  lemma {:induction false} NothingLeftOut(template: seq<DeviceType>, requested: map<string, nat>)
    ensures Planned(template, requested) == Asked(template, requested) <==>
              forall t <- template :: t.name in requested || t.min == 0
    ensures Sum(Asked(template, requested)) <= Sum(Planned(template, requested))
    ensures Sum(Asked(template, requested)) == Sum(Planned(template, requested)) ==>
              Planned(template, requested) == Asked(template, requested)
  {
    var p, asked := Planned(template, requested), Asked(template, requested);
    SumMonotone(asked, p);
    if p == asked {
      forall t | t in template ensures t.name in requested || t.min == 0 {
        var i :| 0 <= i < |template| && template[i] == t;
        assert asked[i] == p[i];
      }
    }
    assert forall i :: 0 <= i < |template| ==> template[i] in template;
  }

  /** A scale-down can only leave a request as it is where the request is at its floor. */
  lemma {:induction false} KeptOnlyAtFloor(floors: seq<nat>, asked: seq<nat>, p: seq<nat>, shrunk: seq<nat>)
    requires |asked| == |p| == |shrunk| == |floors|
    requires forall i :: 0 <= i < |p| ==> (asked[i] == p[i] || asked[i] == 0) && floors[i] <= asked[i] <= shrunk[i]
    requires forall i :: 0 <= i < |p| && p[i] > floors[i] ==> shrunk[i] < p[i]
    ensures asked == floors
  {
    forall i | 0 <= i < |p| ensures asked[i] == floors[i] {
    }
  }

  lemma {:induction false} ScaledDownHonours(template: seq<DeviceType>, requested: map<string, nat>, target: nat,
                                             undershoot: seq<bool>, r: seq<nat>)
    requires |undershoot| == |template| && Sum(Planned(template, requested)) > target
    requires Allocates(template, requested, target, undershoot, r) && r == Asked(template, requested)
    ensures Asked(template, requested) == Reserve(template)
  {
    var p := Planned(template, requested);
    ShrunkSmaller(p, Critical(template), target, undershoot);
    KeptOnlyAtFloor(Reserve(template), Asked(template, requested), p,
                    Shrunk(p, Critical(template), target, Sum(p), undershoot));
  }

  lemma {:induction false} ReserveHonours(template: seq<DeviceType>, requested: map<string, nat>, target: nat,
                                          undershoot: seq<bool>, r: seq<nat>)
    requires |undershoot| == |template| && target == Sum(Asked(template, requested))
    requires Allocates(template, requested, target, undershoot, r) && Asked(template, requested) == Reserve(template)
    ensures r == Asked(template, requested)
  {
    NothingLeftOut(template, requested);
    if Sum(Planned(template, requested)) > target {
      SumMonotone(Reserve(template), r);
    }
  }

  /** When the plan, for a target of just the counts asked of the template, is those counts. */
  lemma {:induction false} PlanHonoursExactly(template: seq<DeviceType>, requested: map<string, nat>, target: nat,
                                              undershoot: seq<bool>, r: seq<nat>)
    requires |undershoot| == |template| && target == Sum(Asked(template, requested))
    requires Allocates(template, requested, target, undershoot, r)
    ensures r == Asked(template, requested) <==>
              || (forall t <- template :: t.name in requested || t.min == 0)
              || Asked(template, requested) == Reserve(template)
  {
    NothingLeftOut(template, requested);
    if Asked(template, requested) == Reserve(template) {
      ReserveHonours(template, requested, target, undershoot, r);
    } else if Sum(Planned(template, requested)) > target && r == Asked(template, requested) {
      ScaledDownHonours(template, requested, target, undershoot, r);
    }
  }

  lemma {:induction false} ReserveAddsNone(template: seq<DeviceType>)
    ensures !AddsController(template, Reserve(template))
  {
  }

  /** When the plan, for a target of one more, is still the counts asked for. */
  lemma {:induction false} PlanOneShortExactly(template: seq<DeviceType>, requested: map<string, nat>, target: nat,
                                               undershoot: seq<bool>, r: seq<nat>)
    requires |undershoot| == |template| && target == Sum(Asked(template, requested)) + 1
    requires Allocates(template, requested, target, undershoot, r)
    requires AddsController(template, Asked(template, requested))
    ensures r == Asked(template, requested) <==>
              && (forall t <- template :: t.name in requested || t.min == 0)
              && Sum(Room(Asked(template, requested), Maxs(template))) == 0
  {
    NothingLeftOut(template, requested);
    RequestHonoured(template, requested, target, undershoot, r);
    ReserveAddsNone(template);
    var p := Planned(template, requested);
    if Sum(p) > target && r == Asked(template, requested) {
      ScaledDownHonours(template, requested, target, undershoot, r);
    }
  }

  ghost predicate AllOptional(template: seq<DeviceType>, requested: map<string, nat>) {
    forall t <- template :: t.name in requested || t.min == 0
  }

  /** Nothing is asked for beyond the template, but `extra` devices of type `name`, if it is not offered. */
  ghost predicate OutsideIs(template: seq<DeviceType>, requested: map<string, nat>, name: string, extra: nat) {
    forall n :: !Offers(template, n) ==> AskedOf(requested, n) == if n == name then extra else 0
  }

  lemma {:induction false} OutsideTotal(template: seq<DeviceType>, requested: map<string, nat>, extra: nat)
    requires extra <= 1 && (extra == 1 ==> !Offers(template, "plc"))
    requires OutsideIs(template, requested, "plc", extra)
    ensures Total(Outside(template, requested)) == extra
  {
    var outside := Outside(template, requested);
    forall n | n in outside ensures outside[n] == if n == "plc" then extra else 0 {
      assert AskedOf(requested, n) == outside[n];
    }
    if extra == 1 {
      assert AskedOf(requested, "plc") == 1;
      TotalOfOne(outside, "plc");
    } else {
      TotalOfZeros(outside);
    }
  }

  lemma {:induction false} CountsAreAsked(template: seq<DeviceType>, r: seq<nat>, requested: map<string, nat>,
                                          extra: nat)
    requires |r| == |template| && DistinctNames(template) && (extra > 0 ==> !Offers(template, "plc"))
    ensures (forall name ::
              CountOf(template, r, name) + (if name == "plc" then extra else 0) == AskedOf(requested, name))
       <==> r == Asked(template, requested) && OutsideIs(template, requested, "plc", extra)
  {
    forall name ensures !Offers(template, name) ==> CountOf(template, r, name) == 0 {
      CountOfType(template, r, name);
    }
    forall i | 0 <= i < |r| ensures CountOf(template, r, template[i].name) == r[i] {
      CountOfType(template, r, template[i].name);
    }
    if forall name :: CountOf(template, r, name) + (if name == "plc" then extra else 0) == AskedOf(requested, name) {
      forall i | 0 <= i < |r| ensures r[i] == Asked(template, requested)[i] {
        assert CountOf(template, r, template[i].name) == r[i];
      }
    }
    if r == Asked(template, requested) && OutsideIs(template, requested, "plc", extra) {
      forall name
        ensures CountOf(template, r, name) + (if name == "plc" then extra else 0) == AskedOf(requested, name)
      {
        if i :| 0 <= i < |r| && template[i].name == name {
          assert CountOf(template, r, template[i].name) == r[i];
        }
      }
    }
  }

  /** A scenario without the extra PLC has the devices asked for when the plan has. */
  lemma {:induction false} HonoursWithoutPlc(template: seq<DeviceType>, r: seq<nat>, requested: map<string, nat>)
    requires |r| == |template| && DistinctNames(template) && !AddsController(template, r)
    ensures Honours(template, r, requested) <==>
              r == Asked(template, requested) && OutsideIs(template, requested, "plc", 0)
  {
    CountsAreAsked(template, r, requested, 0);
    assert forall name ::
        GeneratedOf(template, r, name) == CountOf(template, r, name) + (if name == "plc" then 0 else 0);
  }

  /** With it, when the plan has all but one PLC that the template does not offer. */
  lemma {:induction false} HonoursWithPlc(template: seq<DeviceType>, r: seq<nat>, requested: map<string, nat>)
    requires |r| == |template| && DistinctNames(template) && AddsController(template, r)
    requires forall i :: 0 <= i < |r| && template[i].name == "plc" && Asked(template, requested)[i] > 0 ==> r[i] > 0
    ensures Honours(template, r, requested) <==>
              !Offers(template, "plc") && r == Asked(template, requested) && OutsideIs(template, requested, "plc", 1)
  {
    if Offers(template, "plc") {
      var i :| 0 <= i < |r| && template[i].name == "plc";
      CountOfType(template, r, "plc");
      assert GeneratedOf(template, r, "plc") == 1 && AskedOf(requested, "plc") == Asked(template, requested)[i] == 0;
    } else {
      CountsAreAsked(template, r, requested, 1);
      assert forall name ::
          GeneratedOf(template, r, name) == CountOf(template, r, name) + (if name == "plc" then 1 else 0);
    }
  }

  /** An offered PLC that is asked for is generated. */
  lemma {:induction false} AskedPlcKept(template: seq<DeviceType>, requested: map<string, nat>, target: nat,
                                        undershoot: seq<bool>, r: seq<nat>, i: nat)
    requires |undershoot| == |template| && i < |template| && template[i].name == "plc"
    requires Allocates(template, requested, target, undershoot, r) && Asked(template, requested)[i] > 0
    ensures r[i] > 0
  {
    var p := Planned(template, requested);
    if Sum(p) < target {
      ScaledUpFacts(p, Maxs(template), target, undershoot);
    } else if Sum(p) > target {
      CriticalKept(template, requested, target, undershoot, r, i);
    }
  }

  /**
    When the devices asked for are the devices generated.  Either nothing is asked
    for beyond the template, and every type left out may be absent and no PLC
    needs adding, or it is one device of each critical type and nothing else.
    Or just the PLC that will be added is asked for beyond the template, and all
    other types are asked for at their maximum or above.
   */
  ghost predicate CanHonour(template: seq<DeviceType>, requested: map<string, nat>) {
    var asked := Asked(template, requested);
    || (&& OutsideIs(template, requested, "plc", 0)
        && ((AllOptional(template, requested) && !AddsController(template, asked)) || asked == Reserve(template)))
    || (&& !Offers(template, "plc") && OutsideIs(template, requested, "plc", 1)
        && AllOptional(template, requested) && Sum(Room(asked, Maxs(template))) == 0 && AddsController(template, asked))
  }

  /**
    Manual mode, whose target is the sum of the counts asked for, generates just
    those devices exactly under a condition on the template and the request.
   */
  lemma {:induction false} ManualModeExactly(template: seq<DeviceType>, requested: map<string, nat>, target: nat,
                                             undershoot: seq<bool>, r: seq<nat>)
    requires |undershoot| == |template| && DistinctNames(template)
    requires target == Total(requested) && Allocates(template, requested, target, undershoot, r)
    ensures Honours(template, r, requested) <==> CanHonour(template, requested)
  {
    var asked := Asked(template, requested);
    AskedTotal(template, requested);
    ReserveAddsNone(template);
    if OutsideIs(template, requested, "plc", 0) {
      OutsideTotal(template, requested, 0);
      PlanHonoursExactly(template, requested, target, undershoot, r);
    } else if !Offers(template, "plc") && OutsideIs(template, requested, "plc", 1) && AddsController(template, asked) {
      OutsideTotal(template, requested, 1);
      PlanOneShortExactly(template, requested, target, undershoot, r);
    }
    HonoursIfAdded(template, requested, target, undershoot, r);
  }

  lemma {:induction false} HonoursIfAdded(template: seq<DeviceType>, requested: map<string, nat>, target: nat,
                                          undershoot: seq<bool>, r: seq<nat>)
    requires |undershoot| == |template| && DistinctNames(template)
    requires Allocates(template, requested, target, undershoot, r)
    ensures Honours(template, r, requested) <==>
              && r == Asked(template, requested)
              && (if AddsController(template, r)
                  then !Offers(template, "plc") && OutsideIs(template, requested, "plc", 1)
                  else OutsideIs(template, requested, "plc", 0))
  {
    forall i | 0 <= i < |r| && template[i].name == "plc" && Asked(template, requested)[i] > 0 ensures r[i] > 0 {
      AskedPlcKept(template, requested, target, undershoot, r, i);
    }
    if AddsController(template, r) {
      HonoursWithPlc(template, r, requested);
    } else {
      HonoursWithoutPlc(template, r, requested);
    }
  }

  lemma {:induction false} TotalOfTwo(a: string, m: nat, b: string, n: nat)
    requires a != b
    ensures Total(map[a := m, b := n]) == m + n
  {
    TotalMinus(map[a := m, b := n], a);
    assert map[a := m, b := n] - {a} == map[b := n];
    TotalMinus(map[b := n], b);
    assert map[b := n] - {b} == map[];
  }

  /** A type left out: three PLCs are asked for; one is generated, and two sensors. */
  lemma {:induction false} ManualModeLeavesOut(undershoot: seq<bool>, r: seq<nat>)
    requires |undershoot| == 2
    requires Allocates([DeviceType("plc", 2, 10), DeviceType("sensor", 10, 50)], map["plc" := 3], 3, undershoot, r)
    ensures r == [1, 2] && Total(map["plc" := 3]) == 3
  {
    var template := [DeviceType("plc", 2, 10), DeviceType("sensor", 10, 50)];
    var p := Planned(template, map["plc" := 3]);
    TotalMinus(map["plc" := 3], "plc");
    assert map["plc" := 3] - {"plc"} == map[];
    assert p == [3, 10];
    SumOfTwo(3, 10);
    var shrunk := Shrunk(p, Critical(template), 3, 13, undershoot);
    assert shrunk == [1, 2];
    SumOfTwo(1, 2);
    SumMonotone(r, shrunk);
  }

  /** A controller asked for with an explicit zero: no PLC and five sensors are asked for; a PLC is generated. */
  lemma {:induction false} ManualModeAddsPlc(undershoot: seq<bool>, r: seq<nat>)
    requires |undershoot| == 2
    requires Allocates([DeviceType("plc", 2, 10), DeviceType("sensor", 10, 50)], map["plc" := 0, "sensor" := 5], 5,
                       undershoot, r)
    ensures Total(map["plc" := 0, "sensor" := 5]) == 5
    ensures GeneratedOf([DeviceType("plc", 2, 10), DeviceType("sensor", 10, 50)], r, "plc") == 1
  {
    var template := [DeviceType("plc", 2, 10), DeviceType("sensor", 10, 50)];
    TotalOfTwo("plc", 0, "sensor", 5);
    assert Planned(template, map["plc" := 0, "sensor" := 5]) == [0, 5];
    SumOfTwo(0, 5);
    assert IsFieldType(template[1].name) && r[1] > 0;
    CountOfType(template, r, "plc");
    assert template[0].name == "plc";
  }

  /** A type the template does not offer: five sensors and five robots are asked for; ten sensors are generated. */
  lemma {:induction false} ManualModeReplaces(undershoot: seq<bool>, r: seq<nat>)
    requires |undershoot| == 1
    requires Allocates([DeviceType("sensor", 10, 50)], map["sensor" := 5, "robot" := 5], 10, undershoot, r)
    ensures Total(map["sensor" := 5, "robot" := 5]) == 10 && r == [10]
  {
    var template := [DeviceType("sensor", 10, 50)];
    var requested: map<string, nat> := map["sensor" := 5, "robot" := 5];
    TotalOfTwo("sensor", 5, "robot", 5);
    var p := Planned(template, requested);
    assert p == [5];
    SumOfOne(5);
    assert Room(p, Maxs(template)) == [45];
    SumOfOne(45);
    TotalScaledUp(template, requested, 10, undershoot, r);
    SumOfOne(r[0]);
    assert r == [r[0]];
  }

  lemma {:induction false} SumOfOne(a: int)
    ensures Sum([a]) == a
  {
    assert [a][..0] == [];
  }
}
