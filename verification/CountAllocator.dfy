/**
  How many devices of each type a rule-based scenario gets.

  A plan starts from per-type counts and is scaled to a target total: upwards
  by proportional shares followed by round-robin sweeps, downwards by a common
  factor followed by trimming the largest counts.  Types are identified by
  their position in the template, whose order the loops follow.

  The code computes a share as `int(n * (r / t))` in floating point.  While
  the products stay below 2^52 that is the exact floor, except that a product
  which is exactly an integer may come out just below it.  `undershoot[i]` says
  whether that happens for type i, so every result below holds for every
  rounding.
 */
module CountAllocator {
  import opened Collections

  datatype DeviceType = DeviceType(name: string, min: nat, max: nat)

  const CRITICAL_TYPES := {"plc", "rtu", "hmi"}

  /** `int(n * (r / t))`, given whether the float product undershoots. */
  function Share(n: nat, r: nat, t: nat, undershoot: bool): nat
    requires t > 0
  {
    var exact := n * r / t;
    if undershoot && n * r % t == 0 && exact > 0 then exact - 1 else exact
  }

  lemma {:induction false} ShareBounds(n: nat, r: nat, t: nat, undershoot: bool)
    requires t > 0
    ensures n * r - t <= t * Share(n, r, t, undershoot) <= n * r
    ensures !undershoot ==> n * r - t < t * Share(n, r, t, undershoot)
    ensures n * r % t != 0 ==> n * r - t < t * Share(n, r, t, undershoot)
  {
    var exact := n * r / t;
    assert n * r == t * exact + n * r % t;
    assert t * (exact - 1) == t * exact - t;
  }

  /* ---------- scaling up ---------- */

  /** How far a count can still grow. */
  function RoomOf(count: nat, max: nat): nat {
    if max > count then max - count else 0
  }

  function Room(counts: seq<nat>, maxs: seq<nat>): (r: seq<nat>)
    requires |counts| == |maxs|
    ensures |r| == |counts|
  {
    seq(|counts|, i requires 0 <= i < |counts| => RoomOf(counts[i], maxs[i]))
  }

  /** One count after the proportional pass, when all the growth room together is `total`. */
  function Grown(count: nat, max: nat, toAdd: nat, total: nat, undershoot: bool): nat
    requires total > 0
  {
    if RoomOf(count, max) == 0 then count
    else Min(count + Share(toAdd, RoomOf(count, max), total, undershoot), max)
  }

  function Proportional(counts: seq<nat>, maxs: seq<nat>, toAdd: nat, total: nat, undershoot: seq<bool>): (r: seq<nat>)
    requires |counts| == |maxs| == |undershoot|
    requires total > 0
    ensures |r| == |counts|
  {
    seq(|counts|, i requires 0 <= i < |counts| => Grown(counts[i], maxs[i], toAdd, total, undershoot[i]))
  }

  function IsOpen(count: nat, max: nat): int {
    if count < max then 1 else 0
  }

  /** How many of the first n types are below their maximum. */
  function Open(counts: seq<nat>, maxs: seq<nat>, n: nat): (k: nat)
    requires n <= |counts| == |maxs|
    ensures k <= n
  {
    if n == 0 then 0 else Open(counts, maxs, n - 1) + IsOpen(counts[n - 1], maxs[n - 1])
  }

  /** One more device for each of the first `extra` types, in template order, that are below their maximum. */
  function TopUp(counts: seq<nat>, maxs: seq<nat>, extra: nat): (r: seq<nat>)
    requires |counts| == |maxs|
    ensures |r| == |counts|
  {
    seq(|counts|, i requires 0 <= i < |counts| =>
      if counts[i] < maxs[i] && Open(counts, maxs, i) < extra then counts[i] + 1 else counts[i])
  }

  lemma {:induction false} SumTopUp(counts: seq<nat>, maxs: seq<nat>, extra: nat, n: nat)
    requires n <= |counts| == |maxs|
    ensures Sum(TopUp(counts, maxs, extra)[..n]) == Sum(counts[..n]) + Min(extra, Open(counts, maxs, n))
  {
    if n > 0 {
      SumTopUp(counts, maxs, extra, n - 1);
      assert TopUp(counts, maxs, extra)[..n][..n - 1] == TopUp(counts, maxs, extra)[..n - 1];
      assert counts[..n][..n - 1] == counts[..n - 1];
    }
  }

  /** What a scale-up should deliver: the proportional pass, then one sweep over the leftover. */
  function ScaledUp(counts: seq<nat>, maxs: seq<nat>, target: nat, undershoot: seq<bool>): (r: seq<nat>)
    requires |counts| == |maxs| == |undershoot|
    requires Sum(counts) < target
    ensures |r| == |counts|
  {
    var total := Sum(Room(counts, maxs));
    if total <= 0 then counts
    else
      var mid := Proportional(counts, maxs, target - Sum(counts), total, undershoot);
      if Sum(mid) <= target then TopUp(mid, maxs, target - Sum(mid)) else mid
  }

  lemma {:induction false} SumRoom(counts: seq<nat>, maxs: seq<nat>)
    requires |counts| == |maxs|
    ensures Sum(Room(counts, maxs)) >= 0
    ensures Sum(Room(counts, maxs)) == 0 ==> forall i :: 0 <= i < |counts| ==> Room(counts, maxs)[i] == 0
  {
    var zero := seq(|counts|, i => 0);
    SumZero(zero);
    SumMonotone(zero, Room(counts, maxs));
    if Sum(Room(counts, maxs)) == 0 {
      forall i | 0 <= i < |counts| ensures Room(counts, maxs)[i] == 0 {
        assert zero[i] == 0;
      }
    }
  }

  lemma {:induction false} ShareAbove(n: nat, r: nat, t: nat, undershoot: bool)
    requires n > t > 0 && r > 0
    ensures Share(n, r, t, undershoot) >= r
  {
    var exact := n * r / t;
    var rest := n * r % t;
    assert n * r == t * exact + rest;
    MulLe(r, t + 1, n);
    assert n * r >= t * r + r;
    if exact < r {
      MulLe(t, exact + 1, r);
      Distribute(t, exact, 1);
    }
  }

  /** The proportional pass on one type: never past its share or its room, and short of both by less than one device. */
  lemma {:induction false} GrownBounds(count: nat, max: nat, toAdd: nat, total: nat, undershoot: bool)
    requires toAdd > 0 && total > 0
    ensures var gain := Grown(count, max, toAdd, total, undershoot) - count;
            && 0 <= gain <= RoomOf(count, max)
            && total * gain <= toAdd * RoomOf(count, max)
            && (gain < RoomOf(count, max) ==> toAdd <= total && toAdd * RoomOf(count, max) - total <= total * gain)
  {
    var room := RoomOf(count, max);
    if room > 0 {
      var share := Share(toAdd, room, total, undershoot);
      ShareBounds(toAdd, room, total, undershoot);
      if toAdd > total {
        ShareAbove(toAdd, room, total, undershoot);
      }
      MulLe(total, Min(share, room), share);
    }
  }

  lemma {:induction false} NoneOpen(counts: seq<nat>, maxs: seq<nat>, n: nat)
    requires n <= |counts| == |maxs|
    ensures Open(counts, maxs, n) == 0 <==> forall i :: 0 <= i < n ==> counts[i] >= maxs[i]
  {
    if n > 0 { NoneOpen(counts, maxs, n - 1); }
  }

  /** The proportional pass as a relation, which is all the sums below need. */
  ghost predicate IsProportional(counts: seq<nat>, mid: seq<nat>, maxs: seq<nat>, toAdd: nat, total: nat) {
    && |counts| == |mid| == |maxs|
    && forall i :: 0 <= i < |mid| ==> Bounded(counts[i], mid[i], maxs[i], toAdd, total)
  }

  ghost predicate Bounded(count: nat, mid: nat, max: nat, toAdd: nat, total: nat) {
    && 0 <= mid - count <= RoomOf(count, max)
    && total * (mid - count) <= toAdd * RoomOf(count, max)
    && (toAdd <= total ==> toAdd * RoomOf(count, max) <= total * (mid - count + IsOpen(mid, max)))
  }

  lemma {:induction false} ProportionalIs(counts: seq<nat>, maxs: seq<nat>, toAdd: nat, total: nat,
                                          undershoot: seq<bool>)
    requires |counts| == |maxs| == |undershoot| && toAdd > 0 && total > 0
    ensures IsProportional(counts, Proportional(counts, maxs, toAdd, total, undershoot), maxs, toAdd, total)
  {
    var mid := Proportional(counts, maxs, toAdd, total, undershoot);
    forall i | 0 <= i < |mid| ensures Bounded(counts[i], mid[i], maxs[i], toAdd, total) {
      GrownIsBounded(counts[i], maxs[i], toAdd, total, undershoot[i]);
    }
  }

  lemma {:induction false} GrownIsBounded(count: nat, max: nat, toAdd: nat, total: nat, undershoot: bool)
    requires toAdd > 0 && total > 0
    ensures Bounded(count, Grown(count, max, toAdd, total, undershoot), max, toAdd, total)
  {
    var mid := Grown(count, max, toAdd, total, undershoot);
    GrownBounds(count, max, toAdd, total, undershoot);
    Distribute(total, mid - count, 1);
    if toAdd <= total {
      MulLe(RoomOf(count, max), toAdd, total);
    }
  }

  lemma {:induction false} ProportionalSum(counts: seq<nat>, mid: seq<nat>, maxs: seq<nat>, toAdd: nat, total: nat)
    requires IsProportional(counts, mid, maxs, toAdd, total)
    requires 0 < total == Sum(Room(counts, maxs))
    ensures Sum(counts) <= Sum(mid) <= Sum(counts) + Min(toAdd, total)
  {
    var room := Room(counts, maxs);
    SumMonotone(counts, mid);
    SumWeighted(1, counts, mid, 1, room);
    SumWeighted(total, counts, mid, toAdd, room);
    CancelLe(total, Sum(mid) - Sum(counts), toAdd);
  }

  lemma {:induction false} CoverPrefix(counts: seq<nat>, mid: seq<nat>, maxs: seq<nat>, toAdd: nat, total: nat, n: nat)
    requires IsProportional(counts, mid, maxs, toAdd, total)
    requires toAdd <= total && n <= |mid|
    ensures toAdd * Sum(Room(counts, maxs)[..n]) <= total * (Sum(mid[..n]) - Sum(counts[..n]) + Open(mid, maxs, n))
  {
    if n > 0 {
      var room, k := Room(counts, maxs), n - 1;
      CoverPrefix(counts, mid, maxs, toAdd, total, k);
      assert room[..n][..k] == room[..k] && mid[..n][..k] == mid[..k] && counts[..n][..k] == counts[..k];
      assert Bounded(counts[k], mid[k], maxs[k], toAdd, total);
      Distribute(toAdd, Sum(room[..k]), room[k]);
      Distribute(total, Sum(mid[..k]) - Sum(counts[..k]) + Open(mid, maxs, k),
        mid[k] - counts[k] + IsOpen(mid[k], maxs[k]));
    }
  }

  /** What the proportional pass leaves over, one device for each open type can absorb. */
  lemma {:induction false} ProportionalCover(counts: seq<nat>, mid: seq<nat>, maxs: seq<nat>, toAdd: nat, total: nat)
    requires IsProportional(counts, mid, maxs, toAdd, total)
    requires 0 < toAdd <= total == Sum(Room(counts, maxs))
    ensures Sum(mid) + Open(mid, maxs, |mid|) >= Sum(counts) + toAdd
  {
    var room, n := Room(counts, maxs), |mid|;
    CoverPrefix(counts, mid, maxs, toAdd, total, n);
    assert counts[..n] == counts && mid[..n] == mid && room[..n] == room;
    Absorbed(toAdd, Sum(room), total, Sum(mid) - Sum(counts) + Open(mid, maxs, n));
  }

  lemma {:induction false} Absorbed(toAdd: nat, room: int, total: nat, x: int)
    requires total > 0 && room == total && toAdd * room <= total * x
    ensures toAdd <= x
  {
    CancelLe(total, toAdd, x);
  }

  /** A request beyond all the room fills every type. */
  lemma {:induction false} ProportionalFull(counts: seq<nat>, maxs: seq<nat>, toAdd: nat, total: nat,
                                            undershoot: seq<bool>)
    requires |counts| == |maxs| == |undershoot|
    requires 0 < total < toAdd
    ensures var mid := Proportional(counts, maxs, toAdd, total, undershoot);
            && Sum(mid) == Sum(counts) + Sum(Room(counts, maxs))
            && Open(mid, maxs, |mid|) == 0
  {
    var room := Room(counts, maxs);
    var mid := Proportional(counts, maxs, toAdd, total, undershoot);
    forall i | 0 <= i < |mid|
      ensures mid[i] == counts[i] + room[i]
    {
      GrownBounds(counts[i], maxs[i], toAdd, total, undershoot[i]);
    }
    SumAdded(counts, room, mid);
    NoneOpen(mid, maxs, |mid|);
  }

  /** One type's gain, against its proportional share of what is added in total. */
  ghost predicate FairGain(gain: int, room: nat, added: nat, total: nat) {
    0 <= gain <= room && added * room - total <= total * gain <= added * room + total
  }

  lemma {:induction false} TopUpSum(mid: seq<nat>, maxs: seq<nat>, extra: nat)
    requires |mid| == |maxs|
    ensures Sum(TopUp(mid, maxs, extra)) == Sum(mid) + Min(extra, Open(mid, maxs, |mid|))
  {
    SumTopUp(mid, maxs, extra, |mid|);
    var r := TopUp(mid, maxs, extra);
    assert r[..|r|] == r && mid[..|mid|] == mid;
  }

  /**
    The proportional pass never overshoots; what it leaves over, one sweep can
    place, or nothing can.
   */
  lemma {:induction false} LeftoverFits(counts: seq<nat>, maxs: seq<nat>, target: nat, total: nat,
                                        undershoot: seq<bool>, mid: seq<nat>)
    requires |counts| == |maxs| == |undershoot|
    requires Sum(counts) < target && 0 < total == Sum(Room(counts, maxs))
    requires mid == Proportional(counts, maxs, target - Sum(counts), total, undershoot)
    ensures Sum(mid) <= target
    ensures Sum(mid) + Min(target - Sum(mid), Open(mid, maxs, |mid|)) == Min(target, Sum(counts) + total)
    ensures Sum(mid) + Open(mid, maxs, |mid|) < target ==> Open(mid, maxs, |mid|) == 0
  {
    var toAdd := target - Sum(counts);
    ProportionalIs(counts, maxs, toAdd, total, undershoot);
    ProportionalSum(counts, mid, maxs, toAdd, total);
    if toAdd <= total {
      ProportionalCover(counts, mid, maxs, toAdd, total);
    } else {
      ProportionalFull(counts, maxs, toAdd, total, undershoot);
    }
  }

  lemma {:induction false} FairAfterTopUp(count: nat, max: nat, toAdd: nat, total: nat, undershoot: bool, after: nat)
    requires toAdd > 0 && total > 0
    requires var grown := Grown(count, max, toAdd, total, undershoot);
             after == grown || (grown < max && after == grown + 1)
    ensures FairGain(after - count, RoomOf(count, max), Min(toAdd, total), total)
  {
    var room, gain := RoomOf(count, max), Grown(count, max, toAdd, total, undershoot) - count;
    GrownBounds(count, max, toAdd, total, undershoot);
    Distribute(total, gain, 1);
    if gain == room {
      MulLe(room, Min(toAdd, total), total);
    }
  }

  lemma {:induction false} ScaledUpSum(counts: seq<nat>, maxs: seq<nat>, target: nat, undershoot: seq<bool>)
    requires |counts| == |maxs| == |undershoot|
    requires Sum(counts) < target
    ensures Sum(ScaledUp(counts, maxs, target, undershoot)) == Min(target, Sum(counts) + Sum(Room(counts, maxs)))
  {
    SumRoom(counts, maxs);
    if Sum(Room(counts, maxs)) > 0 {
      SumWithRoom(counts, maxs, target, Sum(Room(counts, maxs)), undershoot);
    }
  }

  lemma {:induction false} SumWithRoom(counts: seq<nat>, maxs: seq<nat>, target: nat, total: nat, undershoot: seq<bool>)
    requires |counts| == |maxs| == |undershoot|
    requires Sum(counts) < target && 0 < total == Sum(Room(counts, maxs))
    ensures Sum(ScaledUp(counts, maxs, target, undershoot)) == Min(target, Sum(counts) + total)
  {
    var mid := Proportional(counts, maxs, target - Sum(counts), total, undershoot);
    LeftoverFits(counts, maxs, target, total, undershoot, mid);
    TopUpReaches(mid, maxs, target, Min(target, Sum(counts) + total));
    ScaledUpIs(counts, maxs, target, total, undershoot, mid);
  }

  lemma {:induction false} ScaledUpIs(counts: seq<nat>, maxs: seq<nat>, target: nat, total: nat, undershoot: seq<bool>,
                                      mid: seq<nat>)
    requires |counts| == |maxs| == |undershoot|
    requires Sum(counts) < target && 0 < total == Sum(Room(counts, maxs)) && Sum(mid) <= target
    requires mid == Proportional(counts, maxs, target - Sum(counts), total, undershoot)
    ensures ScaledUp(counts, maxs, target, undershoot) == TopUp(mid, maxs, target - Sum(mid))
  {
  }

  lemma {:induction false} TopUpReaches(mid: seq<nat>, maxs: seq<nat>, target: nat, goal: int)
    requires |mid| == |maxs| && Sum(mid) <= target
    requires Sum(mid) + Min(target - Sum(mid), Open(mid, maxs, |mid|)) == goal
    ensures Sum(TopUp(mid, maxs, target - Sum(mid))) == goal
  {
    TopUpSum(mid, maxs, target - Sum(mid));
  }

  /**
    Scaling up is exact and fair: the total is the target or, failing that,
    everything at its maximum; no count falls or leaves its range; and each
    type's gain is within one device of its proportional share.
   */
  lemma {:induction false} ScaledUpFacts(counts: seq<nat>, maxs: seq<nat>, target: nat, undershoot: seq<bool>)
    requires |counts| == |maxs| == |undershoot|
    requires Sum(counts) < target
    ensures var r, total := ScaledUp(counts, maxs, target, undershoot), Sum(Room(counts, maxs));
            && total >= 0
            && Sum(r) == Min(target, Sum(counts) + total)
            && forall i :: 0 <= i < |r| ==>
                 FairGain(r[i] - counts[i], RoomOf(counts[i], maxs[i]), Min(target - Sum(counts), total), total)
  {
    SumRoom(counts, maxs);
    ScaledUpSum(counts, maxs, target, undershoot);
    var r, total := ScaledUp(counts, maxs, target, undershoot), Sum(Room(counts, maxs));
    AllFair(counts, maxs, target, total, undershoot, r);
  }

  lemma {:induction false} AllFair(counts: seq<nat>, maxs: seq<nat>, target: nat, total: nat, undershoot: seq<bool>,
                                   r: seq<nat>)
    requires |counts| == |maxs| == |undershoot|
    requires Sum(counts) < target && total == Sum(Room(counts, maxs)) && r == ScaledUp(counts, maxs, target, undershoot)
    ensures forall i :: 0 <= i < |r| ==>
              FairGain(r[i] - counts[i], RoomOf(counts[i], maxs[i]), Min(target - Sum(counts), total), total)
  {
    forall i | 0 <= i < |r|
      ensures FairGain(r[i] - counts[i], RoomOf(counts[i], maxs[i]), Min(target - Sum(counts), total), total)
    {
      ScaledUpFair(counts, maxs, target, total, undershoot, i, r);
    }
  }

  lemma {:induction false} ScaledUpFair(counts: seq<nat>, maxs: seq<nat>, target: nat, total: nat,
                                        undershoot: seq<bool>, i: nat, r: seq<nat>)
    requires |counts| == |maxs| == |undershoot| == |r| && i < |counts|
    requires Sum(counts) < target && total == Sum(Room(counts, maxs)) && r == ScaledUp(counts, maxs, target, undershoot)
    ensures FairGain(r[i] - counts[i], RoomOf(counts[i], maxs[i]), Min(target - Sum(counts), total), total)
  {
    if total > 0 {
      ScaledUpAt(counts, maxs, target, total, undershoot, i);
      FairAfterTopUp(counts[i], maxs[i], target - Sum(counts), total, undershoot[i], r[i]);
    } else {
      SumRoom(counts, maxs);
      assert Room(counts, maxs)[i] == 0;
    }
  }

  lemma {:induction false} ScaledUpAt(counts: seq<nat>, maxs: seq<nat>, target: nat, total: nat, undershoot: seq<bool>,
                                      i: nat)
    requires |counts| == |maxs| == |undershoot| && i < |counts|
    requires Sum(counts) < target && 0 < total == Sum(Room(counts, maxs))
    ensures var grown, after := Grown(counts[i], maxs[i], target - Sum(counts), total, undershoot[i]),
              ScaledUp(counts, maxs, target, undershoot)[i];
            after == grown || (grown < maxs[i] && after == grown + 1)
  {
  }

  /**
    One type's gain in the proportional pass: its share rounded down, or all its
    room where that is less; a share that comes out just below an integer counts
    one less.
   */
  ghost predicate IsGain(count: int, after: int, room: int, toAdd: int, total: int, undershoot: bool) {
    var gain := after - count;
    && 0 <= gain <= room && total * gain <= toAdd * room
    && (gain < room ==> toAdd * room < total * (gain + 1) || (undershoot && toAdd * room == total * (gain + 1)))
    && (undershoot && gain > 0 ==> total * gain < toAdd * room)
  }

  lemma {:induction false} ShareRest(n: nat, r: nat, t: nat, undershoot: bool)
    requires t > 0
    ensures var share := Share(n, r, t, undershoot);
            && t * share <= n * r
            && (n * r < t * (share + 1) || (undershoot && n * r == t * (share + 1)))
            && (undershoot && share > 0 ==> t * share < n * r)
  {
    var share := Share(n, r, t, undershoot);
    ShareBounds(n, r, t, undershoot);
    Distribute(t, share, 1);
    var exact, rest := n * r / t, n * r % t;
    assert n * r == t * exact + rest;
    if share < exact { Distribute(t, exact, -1); }
  }

  lemma {:induction false} GrownExactly(count: nat, max: nat, toAdd: nat, total: nat, undershoot: bool)
    requires toAdd > 0 && total > 0
    ensures IsGain(count, Grown(count, max, toAdd, total, undershoot), RoomOf(count, max), toAdd, total, undershoot)
  {
    var room, gain := RoomOf(count, max), Grown(count, max, toAdd, total, undershoot) - count;
    GrownBounds(count, max, toAdd, total, undershoot);
    if room > 0 {
      var share := Share(toAdd, room, total, undershoot);
      ShareRest(toAdd, room, total, undershoot);
      if share > gain {
        GainBelowShare(gain, share, toAdd * room, total);
      }
    }
  }

  lemma {:induction false} GainBelowShare(gain: nat, share: nat, product: nat, total: nat)
    requires gain < share && total > 0 && total * share <= product
    ensures total * gain < product
  {
    MulLe(total, gain + 1, share);
    Distribute(total, gain, 1);
  }

  /** The leftover goes to the first types, in template order, that are below their maximum, one device each. */
  ghost predicate FirstServed(mid: seq<nat>, r: seq<nat>, maxs: seq<nat>) {
    && |mid| == |r| == |maxs|
    && (forall i :: 0 <= i < |r| ==> r[i] == mid[i] || (r[i] == mid[i] + 1 && mid[i] < maxs[i]))
    && forall i, j :: 0 <= i < j < |r| && mid[i] < maxs[i] && r[j] > mid[j] ==> r[i] > mid[i]
  }

  lemma {:induction false} TopUpServes(mid: seq<nat>, maxs: seq<nat>, extra: nat)
    requires |mid| == |maxs|
    ensures FirstServed(mid, TopUp(mid, maxs, extra), maxs)
  {
    var r := TopUp(mid, maxs, extra);
    forall i, j | 0 <= i < j < |r| && mid[i] < maxs[i] && r[j] > mid[j] ensures r[i] > mid[i] {
      OpenMonotone(mid, maxs, i, j);
    }
  }

  /** What scaling up comes to: shares of the growth room, then the leftover in template order. */
  ghost predicate IsScaledUp(r: seq<nat>, counts: seq<nat>, maxs: seq<nat>, target: nat, undershoot: seq<bool>,
                             room: seq<nat>, mid: seq<nat>)
  {
    && |counts| == |maxs| == |undershoot| == |room| == |mid| == |r|
    && (forall i :: 0 <= i < |r| ==> room[i] == if counts[i] < maxs[i] then maxs[i] - counts[i] else 0)
    && (forall i :: 0 <= i < |r| ==>
          IsGain(counts[i], mid[i], room[i], target - Sum(counts), Sum(room), undershoot[i]))
    && FirstServed(mid, r, maxs) && Sum(r) == Min(target, Sum(counts) + Sum(room))
  }

  /** Scaling up, for every rounding of the shares; its total fixes how far the leftover reaches. */
  lemma {:induction false} ScaledUpExactly(counts: seq<nat>, maxs: seq<nat>, target: nat, undershoot: seq<bool>)
    requires |counts| == |maxs| == |undershoot| && Sum(counts) < target
    ensures exists room, mid :: IsScaledUp(ScaledUp(counts, maxs, target, undershoot), counts, maxs, target, undershoot,
                                           room, mid)
  {
    var r, room := ScaledUp(counts, maxs, target, undershoot), Room(counts, maxs);
    SumRoom(counts, maxs);
    ScaledUpSum(counts, maxs, target, undershoot);
    if Sum(room) > 0 {
      ScaledUpShares(counts, maxs, target, Sum(room), undershoot);
    } else {
      assert r == counts;
      forall i | 0 <= i < |r|
        ensures IsGain(counts[i], counts[i], room[i], target - Sum(counts), Sum(room), undershoot[i])
      {
      }
      assert IsScaledUp(r, counts, maxs, target, undershoot, room, counts);
    }
  }

  lemma {:induction false} ScaledUpShares(counts: seq<nat>, maxs: seq<nat>, target: nat, total: nat,
                                          undershoot: seq<bool>)
    requires |counts| == |maxs| == |undershoot| && Sum(counts) < target && 0 < total == Sum(Room(counts, maxs))
    requires Sum(ScaledUp(counts, maxs, target, undershoot)) == Min(target, Sum(counts) + total)
    ensures exists room, mid :: IsScaledUp(ScaledUp(counts, maxs, target, undershoot), counts, maxs, target, undershoot,
                                           room, mid)
  {
    var room, toAdd := Room(counts, maxs), target - Sum(counts);
    var mid := Proportional(counts, maxs, toAdd, total, undershoot);
    LeftoverFits(counts, maxs, target, total, undershoot, mid);
    ScaledUpIs(counts, maxs, target, total, undershoot, mid);
    TopUpServes(mid, maxs, target - Sum(mid));
    GainsOf(counts, maxs, toAdd, total, undershoot, room, mid);
    assert IsScaledUp(TopUp(mid, maxs, target - Sum(mid)), counts, maxs, target, undershoot, room, mid);
  }

  lemma {:induction false} GainsOf(counts: seq<nat>, maxs: seq<nat>, toAdd: nat, total: nat, undershoot: seq<bool>,
                                   room: seq<nat>, mid: seq<nat>)
    requires |counts| == |maxs| == |undershoot| && toAdd > 0 && total > 0
    requires room == Room(counts, maxs) && mid == Proportional(counts, maxs, toAdd, total, undershoot)
    ensures forall i :: 0 <= i < |mid| ==> IsGain(counts[i], mid[i], room[i], toAdd, total, undershoot[i])
  {
    forall i | 0 <= i < |mid| ensures IsGain(counts[i], mid[i], room[i], toAdd, total, undershoot[i]) {
      GrownExactly(counts[i], maxs[i], toAdd, total, undershoot[i]);
    }
  }

  lemma {:induction false} OpenMonotone(counts: seq<nat>, maxs: seq<nat>, m: nat, n: nat)
    requires m <= n <= |counts| == |maxs|
    ensures Open(counts, maxs, m) <= Open(counts, maxs, n)
  {
    if m < n { OpenMonotone(counts, maxs, m, n - 1); }
  }

  /** One round-robin sweep of the fix-up loop. */
  method Sweep(counts: seq<nat>, maxs: seq<nat>, budget: nat) returns (r: seq<nat>, remaining: nat, addedAny: bool)
    requires |counts| == |maxs|
    ensures r == TopUp(counts, maxs, budget)
    ensures remaining == budget - Min(budget, Open(counts, maxs, |counts|))
    ensures addedAny <==> budget > 0 && Open(counts, maxs, |counts|) > 0
  {
    r, remaining, addedAny := counts, budget, false;
    for i := 0 to |counts|
      invariant |r| == |counts|
      invariant forall k :: 0 <= k < i ==> r[k] == TopUp(counts, maxs, budget)[k]
      invariant forall k :: i <= k < |r| ==> r[k] == counts[k]
      invariant remaining == budget - Min(budget, Open(counts, maxs, i))
      invariant addedAny <==> budget > 0 && Open(counts, maxs, i) > 0
    {
      if remaining == 0 {
        forall k | i <= k <= |counts| ensures Open(counts, maxs, i) <= Open(counts, maxs, k) {
          OpenMonotone(counts, maxs, i, k);
        }
        break;
      }
      if r[i] < maxs[i] {
        r := r[i := r[i] + 1];
        remaining := remaining - 1;
        addedAny := true;
      }
    }
  }

  /** Raises counts towards the target, never past a type's maximum. */
  method ScaleUp(counts: seq<nat>, maxs: seq<nat>, target: nat, undershoot: seq<bool>) returns (r: seq<nat>)
    requires |counts| == |maxs| == |undershoot|
    requires Sum(counts) < target
    ensures r == ScaledUp(counts, maxs, target, undershoot)
  {
    var toAdd := target - Sum(counts);
    var room := Room(counts, maxs);
    var total := Sum(room);
    SumRoom(counts, maxs);
    r := counts;
    if total > 0 {
      for i := 0 to |counts|
        invariant |r| == |counts|
        invariant forall k :: 0 <= k < i ==> r[k] == Grown(counts[k], maxs[k], toAdd, total, undershoot[k])
        invariant forall k :: i <= k < |r| ==> r[k] == counts[k]
      {
        if room[i] > 0 {
          var additional := Share(toAdd, room[i], total, undershoot[i]);
          r := r[i := Min(r[i] + additional, maxs[i])];
        }
      }
      ghost var mid := Proportional(counts, maxs, toAdd, total, undershoot);
      assert r == mid;
      LeftoverFits(counts, maxs, target, total, undershoot, mid);
      var remaining := target - Sum(r);
      while remaining > 0
        invariant remaining >= 0
        invariant || (r == mid && remaining == target - Sum(mid))
                  || (r == TopUp(mid, maxs, target - Sum(mid)) && remaining == 0)
      {
        var addedAny;
        r, remaining, addedAny := Sweep(r, maxs, remaining);
        if !addedAny {
          break;
        }
      }
      assert target == Sum(mid) ==> TopUp(mid, maxs, target - Sum(mid)) == mid;
    }
  }

  /* ---------- scaling down ---------- */

  /** The least a type can be scaled down to. */
  function Floors(critical: seq<bool>): (r: seq<nat>)
    ensures |r| == |critical|
  {
    seq(|critical|, i requires 0 <= i < |critical| => if critical[i] then 1 else 0)
  }

  function ShrunkOf(count: nat, critical: bool, target: nat, total: nat, undershoot: bool): nat
    requires total > 0
  {
    Max(if critical then 1 else 0, Share(count, target, total, undershoot))
  }

  /** Every count times target / total, rounded down, but at least 1 for a critical type. */
  function Shrunk(counts: seq<nat>, critical: seq<bool>, target: nat, total: nat, undershoot: seq<bool>): (r: seq<nat>)
    requires |counts| == |critical| == |undershoot|
    requires total > 0
    ensures |r| == |counts|
  {
    seq(|counts|, i requires 0 <= i < |counts| => ShrunkOf(counts[i], critical[i], target, total, undershoot[i]))
  }

  /**
    `to` is `from` with its peaks cut level: a type that lost devices ends
    within one of every other type of its class, an earlier type never above a
    later trimmed one, and critical types lose devices only once every other
    type is at zero.
   */
  ghost predicate Leveled(from: seq<nat>, to: seq<nat>, critical: seq<bool>) {
    && |from| == |to| == |critical|
    && (forall i :: 0 <= i < |to| ==> to[i] <= from[i])
    && (forall i, j :: 0 <= i < |to| && 0 <= j < |to| && to[j] < from[j] && critical[i] == critical[j] ==>
          to[i] <= to[j] + (if i > j then 1 else 0))
    && (forall i, j :: 0 <= i < |to| && 0 <= j < |to| && to[j] < from[j] && critical[j] && !critical[i] ==> to[i] == 0)
  }

  /** The position of the first largest count above `least` in one class, if there is one. */
  method Largest(counts: seq<nat>, critical: seq<bool>, wanted: bool, least: nat) returns (at: Option<nat>)
    requires |counts| == |critical|
    ensures at.None? ==> forall i :: 0 <= i < |counts| && critical[i] == wanted ==> counts[i] <= least
    ensures at.Some? ==>
      && at.value < |counts| && critical[at.value] == wanted && counts[at.value] > least
      && (forall i :: 0 <= i < |counts| && critical[i] == wanted ==> counts[i] <= counts[at.value])
      && (forall i :: 0 <= i < at.value && critical[i] == wanted ==> counts[i] < counts[at.value])
  {
    at := None;
    for i := 0 to |counts|
      invariant at.None? ==> forall k :: 0 <= k < i && critical[k] == wanted ==> counts[k] <= least
      invariant at.Some? ==>
        && at.value < i && critical[at.value] == wanted && counts[at.value] > least
        && (forall k :: 0 <= k < i && critical[k] == wanted ==> counts[k] <= counts[at.value])
        && (forall k :: 0 <= k < at.value && critical[k] == wanted ==> counts[k] < counts[at.value])
    {
      if critical[i] == wanted && counts[i] > least && (at.None? || counts[i] > counts[at.value]) {
        at := Some(i);
      }
    }
  }

  /** The trim loop of the scale-down. */
  method Trim(counts: seq<nat>, critical: seq<bool>, target: nat) returns (r: seq<nat>)
    requires |counts| == |critical|
    requires forall i :: 0 <= i < |counts| ==> counts[i] >= Floors(critical)[i]
    ensures Leveled(counts, r, critical)
    ensures forall i :: 0 <= i < |r| ==> r[i] >= Floors(critical)[i]
    ensures Sum(r) == if Sum(counts) <= target then Sum(counts) else Max(target, Sum(Floors(critical)))
  {
    r := counts;
    while Sum(r) > target
      invariant Leveled(counts, r, critical)
      invariant forall i :: 0 <= i < |r| ==> r[i] >= Floors(critical)[i]
      invariant if Sum(counts) <= target then r == counts else Sum(r) >= target
      decreases Sum(r) - target
    {
      var largest := Largest(r, critical, false, 0);
      if largest.None? {
        largest := Largest(r, critical, true, 1);
        if largest.None? {
          assert r == Floors(critical);
          return;
        }
      }
      SumUpdate(r, largest.value, r[largest.value] - 1);
      r := r[largest.value := r[largest.value] - 1];
    }
    SumMonotone(Floors(critical), r);
  }

  method ScaleDown(counts: seq<nat>, critical: seq<bool>, target: nat, undershoot: seq<bool>) returns (r: seq<nat>)
    requires |counts| == |critical| == |undershoot|
    requires Sum(counts) > target
    ensures var shrunk := Shrunk(counts, critical, target, Sum(counts), undershoot);
            && Leveled(shrunk, r, critical)
            && (forall i :: 0 <= i < |r| ==> r[i] >= Floors(critical)[i])
            && Sum(r) == if Sum(shrunk) <= target then Sum(shrunk) else Max(target, Sum(Floors(critical)))
  {
    var total := Sum(counts);
    var scaled: seq<nat> := [];
    for i := 0 to |counts|
      invariant |scaled| == i
      invariant forall k :: 0 <= k < i ==> scaled[k] == ShrunkOf(counts[k], critical[k], target, total, undershoot[k])
    {
      scaled := scaled + [ShrunkOf(counts[i], critical[i], target, total, undershoot[i])];
    }
    assert scaled == Shrunk(counts, critical, target, total, undershoot);
    r := Trim(scaled, critical, target);
  }

  /** The contract of Trim leaves one result: two levelled cuts of the same size are the same. */
  lemma {:induction false} LeveledUnique(from: seq<nat>, f: seq<nat>, g: seq<nat>, critical: seq<bool>)
    requires Leveled(from, f, critical) && Leveled(from, g, critical)
    requires forall i :: 0 <= i < |f| ==> f[i] >= Floors(critical)[i] && g[i] >= Floors(critical)[i]
    requires Sum(f) == Sum(g)
    ensures f == g
  {
    forall i, j | 0 <= i < |f| && 0 <= j < |f| ensures f[i] <= g[i] || g[j] <= f[j] {
      CutsDoNotCross(from, f, g, critical, i, j);
    }
    if forall i :: 0 <= i < |f| ==> f[i] <= g[i] {
      SumMonotone(f, g);
    } else {
      SumMonotone(g, f);
    }
  }

  /**
    Were one cut lower at i and the other at j, each would have been trimmed there,
    and one of the trims breaks the level.
   */
  lemma {:induction false} CutsDoNotCross(from: seq<nat>, f: seq<nat>, g: seq<nat>, critical: seq<bool>, i: nat, j: nat)
    requires Leveled(from, f, critical) && Leveled(from, g, critical)
    requires forall k :: 0 <= k < |f| ==> f[k] >= Floors(critical)[k] && g[k] >= Floors(critical)[k]
    requires i < |f| && j < |f|
    ensures f[i] <= g[i] || g[j] <= f[j]
  {
    assert g[i] < f[i] ==> g[i] < from[i];
    assert f[j] < g[j] ==> f[j] < from[j];
  }

  /**
    One count, scaled down by the common factor: rounded down, but at least 1
    for a critical type; a product that comes out just below an integer counts
    one less.
   */
  ghost predicate IsShrunk(shrunk: nat, count: nat, critical: bool, target: int, total: int, undershoot: bool) {
    && (critical ==> shrunk >= 1)
    && (total * shrunk <= count * target || (critical && shrunk == 1))
    && (count * target < total * (shrunk + 1) || (undershoot && count * target == total * (shrunk + 1)))
    && (undershoot && shrunk > 0 ==> total * shrunk < count * target || (critical && shrunk == 1))
  }

  lemma {:induction false} ShrunkExactly(count: nat, critical: bool, target: nat, total: nat, undershoot: bool)
    requires total > 0
    ensures IsShrunk(ShrunkOf(count, critical, target, total, undershoot), count, critical, target, total, undershoot)
  {
    var share := Share(count, target, total, undershoot);
    ShareRest(count, target, total, undershoot);
    if critical && share == 0 { Distribute(total, 1, 1); }
  }

  lemma {:induction false} ShrunkNear(count: nat, critical: bool, target: nat, total: nat, undershoot: bool)
    requires total > 0
    ensures NearShare(count, ShrunkOf(count, critical, target, total, undershoot), target, total, !undershoot)
  {
    var share := Share(count, target, total, undershoot);
    ShareBounds(count, target, total, undershoot);
    Distribute(total, share, 1);
    MulLe(total, share + 1, ShrunkOf(count, critical, target, total, undershoot) + 1);
  }

  /** A count is less than one device short of its share, or exactly one when the float product undershot. */
  ghost predicate NearShare(count: nat, shrunk: nat, target: nat, total: nat, strict: bool) {
    target * count + (if strict then 1 else 0) <= total * (shrunk + 1)
  }

  lemma {:induction false} ShrunkPrefix(counts: seq<nat>, shrunk: seq<nat>, target: nat, total: nat, strict: bool,
                                        n: nat)
    requires n <= |counts| == |shrunk|
    requires forall i :: 0 <= i < n ==> NearShare(counts[i], shrunk[i], target, total, strict)
    ensures target * Sum(counts[..n]) + (if strict then n else 0) <= total * (Sum(shrunk[..n]) + n)
  {
    if n > 0 {
      var k := n - 1;
      ShrunkPrefix(counts, shrunk, target, total, strict, k);
      assert counts[..n][..k] == counts[..k] && shrunk[..n][..k] == shrunk[..k];
      assert NearShare(counts[k], shrunk[k], target, total, strict);
      Distribute(target, Sum(counts[..k]), counts[k]);
      Distribute(total, Sum(shrunk[..k]) + k, shrunk[k] + 1);
    }
  }

  lemma {:induction false} ShrunkSum(counts: seq<nat>, critical: seq<bool>, target: nat, total: nat,
                                     undershoot: seq<bool>)
    requires |counts| == |critical| == |undershoot|
    requires total == Sum(counts) > 0
    ensures var strict := forall i :: 0 <= i < |undershoot| ==> !undershoot[i];
            var shrunk := Shrunk(counts, critical, target, total, undershoot);
            target < Sum(shrunk) + |counts| + (if strict then 0 else 1)
  {
    var shrunk := Shrunk(counts, critical, target, total, undershoot);
    var strict := forall i :: 0 <= i < |undershoot| ==> !undershoot[i];
    forall i | 0 <= i < |counts| ensures NearShare(counts[i], shrunk[i], target, total, strict) {
      ShrunkNear(counts[i], critical[i], target, total, undershoot[i]);
    }
    NearSum(counts, shrunk, target, total, strict);
  }

  lemma {:induction false} NearSum(counts: seq<nat>, shrunk: seq<nat>, target: nat, total: nat, strict: bool)
    requires |counts| == |shrunk| && total == Sum(counts) > 0
    requires forall i :: 0 <= i < |counts| ==> NearShare(counts[i], shrunk[i], target, total, strict)
    ensures target < Sum(shrunk) + |counts| + (if strict then 0 else 1)
  {
    var n := |counts|;
    ShrunkPrefix(counts, shrunk, target, total, strict, n);
    assert counts[..n] == counts && shrunk[..n] == shrunk;
    TargetBelow(target, total, Sum(shrunk) + n, if strict then n else 0);
  }

  lemma {:induction false} TargetBelow(target: nat, total: nat, reach: int, slack: nat)
    requires total > 0 && target * total + slack <= total * reach
    ensures target <= reach && (slack > 0 ==> target < reach)
  {
    CancelLe(total, target, reach);
    assert total * target == target * total;
  }

  /* ---------- the whole plan ---------- */

  function Maxs(template: seq<DeviceType>): (r: seq<nat>)
    ensures |r| == |template|
  {
    seq(|template|, i requires 0 <= i < |template| => template[i].max)
  }

  function Critical(template: seq<DeviceType>): (r: seq<bool>)
    ensures |r| == |template|
  {
    seq(|template|, i requires 0 <= i < |template| => template[i].name in CRITICAL_TYPES)
  }

  /** The counts before scaling to a target: what the user asked for, else the minimum. */
  function Planned(template: seq<DeviceType>, requested: map<string, nat>): (r: seq<nat>)
    ensures |r| == |template|
  {
    seq(|template|, i requires 0 <= i < |template| =>
      if template[i].name in requested then requested[template[i].name] else template[i].min)
  }

  /** The critical types of a template, as the count each must keep. */
  function Reserve(template: seq<DeviceType>): (r: seq<nat>)
    ensures |r| == |template|
  {
    Floors(Critical(template))
  }

  /** What a plan for a given total must be. */
  ghost predicate Allocates(template: seq<DeviceType>, requested: map<string, nat>, target: nat, undershoot: seq<bool>,
                            r: seq<nat>)
    requires |undershoot| == |template|
  {
    var p := Planned(template, requested);
    && |r| == |template|
    && (Sum(p) == target ==> r == p)
    && (Sum(p) < target ==> r == ScaledUp(p, Maxs(template), target, undershoot))
    && (Sum(p) > target ==>
          var shrunk := Shrunk(p, Critical(template), target, Sum(p), undershoot);
          && Leveled(shrunk, r, Critical(template))
          && (forall i :: 0 <= i < |r| ==> r[i] >= Reserve(template)[i])
          && Sum(r) == if Sum(shrunk) <= target then Sum(shrunk) else Max(target, Sum(Reserve(template))))
  }

  method AllocateCounts(template: seq<DeviceType>, requested: map<string, nat>, target: Option<nat>,
                        undershoot: seq<bool>)
    returns (r: seq<nat>)
    requires |undershoot| == |template|
    requires target.None? ==> forall t <- template :: t.name in requested || t.min <= t.max
    ensures |r| == |template|
    ensures target.None? ==> forall i :: 0 <= i < |r| ==>
      if template[i].name in requested then r[i] == requested[template[i].name]
      else template[i].min <= r[i] <= template[i].max
    ensures target.Some? ==> Allocates(template, requested, target.value, undershoot, r)
  {
    r := [];
    for i := 0 to |template|
      invariant |r| == i
      invariant target.Some? ==> forall k :: 0 <= k < i ==> r[k] == Planned(template, requested)[k]
      invariant target.None? ==> forall k :: 0 <= k < i ==>
        if template[k].name in requested then r[k] == requested[template[k].name]
        else template[k].min <= r[k] <= template[k].max
    {
      var t := template[i];
      if t.name in requested {
        r := r + [requested[t.name]];
      } else if target.Some? {
        r := r + [t.min];
      } else {
        var count: nat :| t.min <= count <= t.max;
        r := r + [count];
      }
    }
    if target.Some? {
      assert r == Planned(template, requested);
      if Sum(r) < target.value {
        r := ScaleUp(r, Maxs(template), target.value, undershoot);
      } else if Sum(r) > target.value {
        r := ScaleDown(r, Critical(template), target.value, undershoot);
      }
    }
  }

  /** What scaling down comes to: shrunk counts, their peaks trimmed as far as the target or the critical types say. */
  ghost predicate IsScaledDown(r: seq<nat>, p: seq<nat>, critical: seq<bool>, target: nat, undershoot: seq<bool>,
                               shrunk: seq<nat>, floors: seq<nat>)
  {
    && |p| == |critical| == |undershoot| == |shrunk| == |floors| == |r|
    && (forall i :: 0 <= i < |r| ==> IsShrunk(shrunk[i], p[i], critical[i], target, Sum(p), undershoot[i]))
    && (forall i :: 0 <= i < |r| ==> floors[i] == if critical[i] then 1 else 0)
    && Leveled(shrunk, r, critical) && (forall i :: 0 <= i < |r| ==> r[i] >= floors[i])
    && Sum(r) == if Sum(shrunk) <= target then Sum(shrunk) else Max(target, Sum(floors))
  }

  /**
    Every plan for a target: p are the counts asked for, or else the minimum.  It
    is p, or p scaled up, or p scaled down, in which no type exceeds its share of
    the target, unless it is critical and gets the one device it must have.
   */
  lemma {:induction false} PlanExactly(template: seq<DeviceType>, requested: map<string, nat>, target: nat,
                                       undershoot: seq<bool>, r: seq<nat>, p: seq<nat>, maxs: seq<nat>,
                                       critical: seq<bool>)
    requires |undershoot| == |template| == |p| == |maxs| == |critical|
    requires forall i :: 0 <= i < |p| ==>
      p[i] == if template[i].name in requested then requested[template[i].name] else template[i].min
    requires forall i :: 0 <= i < |maxs| ==> maxs[i] == template[i].max
    requires forall i :: 0 <= i < |critical| ==> critical[i] == (template[i].name in {"plc", "rtu", "hmi"})
    requires Allocates(template, requested, target, undershoot, r)
    ensures Sum(p) == target ==> r == p
    ensures Sum(p) < target ==> exists room, mid :: IsScaledUp(r, p, maxs, target, undershoot, room, mid)
    ensures Sum(p) > target ==>
              exists shrunk, floors :: IsScaledDown(r, p, critical, target, undershoot, shrunk, floors)
    ensures Sum(p) > target ==> forall i :: 0 <= i < |r| ==>
              Sum(p) * r[i] <= p[i] * target || (critical[i] && r[i] == 1)
  {
    assert p == Planned(template, requested) && maxs == Maxs(template) && critical == Critical(template);
    if Sum(p) < target {
      ScaledUpExactly(p, maxs, target, undershoot);
    } else if Sum(p) > target {
      var shrunk := Shrunk(p, critical, target, Sum(p), undershoot);
      forall i | 0 <= i < |r|
        ensures IsShrunk(shrunk[i], p[i], critical[i], target, Sum(p), undershoot[i])
        ensures Sum(p) * r[i] <= p[i] * target || (critical[i] && r[i] == 1)
      {
        ShrunkExactly(p[i], critical[i], target, Sum(p), undershoot[i]);
        MulLe(Sum(p), r[i], shrunk[i]);
        assert r[i] >= Reserve(template)[i];
      }
      assert IsScaledDown(r, p, critical, target, undershoot, shrunk, Reserve(template));
    }
  }

  /** A plan scaled up, or not at all, reaches the target or, failing that, every maximum. */
  lemma {:induction false} TotalScaledUp(template: seq<DeviceType>, requested: map<string, nat>, target: nat,
                                         undershoot: seq<bool>, r: seq<nat>)
    requires |undershoot| == |template| && Sum(Planned(template, requested)) <= target
    requires Allocates(template, requested, target, undershoot, r)
    ensures var p := Planned(template, requested);
            Sum(r) == Min(target, Sum(p) + Sum(Room(p, Maxs(template))))
  {
    var p := Planned(template, requested);
    SumRoom(p, Maxs(template));
    if Sum(p) < target {
      ScaledUpSum(p, Maxs(template), target, undershoot);
    }
  }

  /**
    A plan scaled down ends less than one device per type below the target (or
    at most one per type, where float products undershoot), and above it only to
    keep one device of each critical type.
   */
  lemma {:induction false} TotalScaledDown(template: seq<DeviceType>, requested: map<string, nat>, target: nat,
                                           undershoot: seq<bool>, r: seq<nat>)
    requires |undershoot| == |template| && Sum(Planned(template, requested)) > target
    requires Allocates(template, requested, target, undershoot, r)
    ensures target - |template| <= Sum(r) <= Max(target, Sum(Reserve(template)))
    ensures (forall i :: 0 <= i < |template| ==> !undershoot[i]) ==> target - |template| < Sum(r)
    ensures forall i :: 0 <= i < |r| && template[i].name in CRITICAL_TYPES ==> r[i] >= 1
  {
    ScaledDownTotal(template, Planned(template, requested), target, undershoot, r);
    ReserveKept(template, r);
  }

  lemma {:induction false} ScaledDownTotal(template: seq<DeviceType>, p: seq<nat>, target: nat, undershoot: seq<bool>,
                                           r: seq<nat>)
    requires |undershoot| == |template| == |p| && Sum(p) > target
    requires var shrunk := Shrunk(p, Critical(template), target, Sum(p), undershoot);
             Sum(r) == if Sum(shrunk) <= target then Sum(shrunk) else Max(target, Sum(Reserve(template)))
    ensures target - |template| <= Sum(r) <= Max(target, Sum(Reserve(template)))
    ensures (forall i :: 0 <= i < |template| ==> !undershoot[i]) ==> target - |template| < Sum(r)
  {
    ShrunkSum(p, Critical(template), target, Sum(p), undershoot);
  }

  lemma {:induction false} ReserveKept(template: seq<DeviceType>, r: seq<nat>)
    requires |r| == |template|
    requires forall i :: 0 <= i < |r| ==> r[i] >= Reserve(template)[i]
    ensures forall i :: 0 <= i < |r| && template[i].name in CRITICAL_TYPES ==> r[i] >= 1
  {
    forall i | 0 <= i < |r| && template[i].name in CRITICAL_TYPES ensures r[i] >= 1 {
      assert Reserve(template)[i] == 1;
    }
  }

  /**
    The counts asked for are the counts generated exactly when they add up to
    the target, or fall short with every type at its maximum, or exceed it with
    nothing but one device of each critical type.
   */
  lemma {:induction false} RequestHonoured(template: seq<DeviceType>, requested: map<string, nat>, target: nat,
                                           undershoot: seq<bool>, r: seq<nat>)
    requires |undershoot| == |template|
    requires Allocates(template, requested, target, undershoot, r)
    ensures var p := Planned(template, requested);
            r == p <==>
              || Sum(p) == target
              || (Sum(p) < target && Sum(Room(p, Maxs(template))) == 0)
              || (Sum(p) > target && p == Reserve(template))
  {
    var p := Planned(template, requested);
    if Sum(p) < target {
      UnchangedByScaleUp(p, Maxs(template), target, undershoot);
    } else if Sum(p) > target {
      UnchangedByScaleDown(template, p, target, undershoot, r);
    }
  }

  lemma {:induction false} UnchangedByScaleUp(p: seq<nat>, maxs: seq<nat>, target: nat, undershoot: seq<bool>)
    requires |p| == |maxs| == |undershoot| && Sum(p) < target
    ensures ScaledUp(p, maxs, target, undershoot) == p <==> Sum(Room(p, maxs)) == 0
  {
    SumRoom(p, maxs);
    ScaledUpSum(p, maxs, target, undershoot);
  }

  lemma {:induction false} UnchangedByScaleDown(template: seq<DeviceType>, p: seq<nat>, target: nat,
                                                undershoot: seq<bool>, r: seq<nat>)
    requires |undershoot| == |template| == |p| && Sum(p) > target
    requires Leveled(Shrunk(p, Critical(template), target, Sum(p), undershoot), r, Critical(template))
    requires forall i :: 0 <= i < |r| ==> r[i] >= Reserve(template)[i]
    ensures r == p <==> p == Reserve(template)
  {
    ShrunkSmaller(p, Critical(template), target, undershoot);
    if p == Reserve(template) {
      ShrunkOfFloors(p, Critical(template), target, undershoot);
    }
    if r == p {
      forall i | 0 <= i < |p| ensures p[i] == Reserve(template)[i] {
      }
    }
  }

  lemma {:induction false} ShareBelow(n: nat, r: nat, t: nat, undershoot: bool)
    requires r < t
    ensures Share(n, r, t, undershoot) <= n
    ensures n > 0 ==> Share(n, r, t, undershoot) < n
  {
    var share := Share(n, r, t, undershoot);
    ShareBounds(n, r, t, undershoot);
    if n > 0 {
      MulLe(n, r + 1, t);
      Distribute(n, r, 1);
      assert t * n == n * t;
      CancelLt(t, share, n);
    } else {
      CancelLe(t, share, 0);
    }
  }

  lemma {:induction false} ShrunkOfFloors(p: seq<nat>, critical: seq<bool>, target: nat, undershoot: seq<bool>)
    requires |p| == |critical| == |undershoot|
    requires Sum(p) > target && p == Floors(critical)
    ensures Shrunk(p, critical, target, Sum(p), undershoot) == p
  {
    forall i | 0 <= i < |p| ensures Shrunk(p, critical, target, Sum(p), undershoot)[i] == p[i] {
      ShareBelow(p[i], target, Sum(p), undershoot[i]);
    }
  }

  /** Scaling down lowers every count that is not already at its floor. */
  lemma {:induction false} ShrunkSmaller(p: seq<nat>, critical: seq<bool>, target: nat, undershoot: seq<bool>)
    requires |p| == |critical| == |undershoot|
    requires Sum(p) > target
    ensures forall i :: 0 <= i < |p| && p[i] > Floors(critical)[i] ==>
              Shrunk(p, critical, target, Sum(p), undershoot)[i] < p[i]
  {
    forall i | 0 <= i < |p| && p[i] > Floors(critical)[i]
      ensures Shrunk(p, critical, target, Sum(p), undershoot)[i] < p[i]
    {
      ShareBelow(p[i], target, Sum(p), undershoot[i]);
    }
  }
}
