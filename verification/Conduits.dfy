/** Conduits between zones: those an AI design names, and one for every other pair of zones that traffic crosses. */
module Conduits {
  import opened Collections
  import opened Text
  import opened Topology

  datatype Zone = Zone(id: string, name: string, deviceIds: seq<string>)

  datatype Conduit = Conduit(id: string, name: string, source: string, target: string, direction: string,
                             allowed: seq<string>, securityLevel: string, description: Option<string>, auto: bool)

  /* ---------- the order of strings ---------- */

  predicate Le(a: string, b: string) {
    a == [] || (b != [] && (a[0] < b[0] || (a[0] == b[0] && Le(a[1..], b[1..]))))
  }

  lemma {:induction false} LeTotal(a: string, b: string)
    ensures Le(a, b) || Le(b, a)
    ensures Le(a, b) && Le(b, a) ==> a == b
  {
    if a != [] && b != [] {
      LeTotal(a[1..], b[1..]);
      assert a == [a[0]] + a[1..] && b == [b[0]] + b[1..];
    }
  }

  lemma {:induction false} LeTransitive(a: string, b: string, c: string)
    requires Le(a, b) && Le(b, c)
    ensures Le(a, c)
  {
    if a != [] { LeTransitiveStep(a, b, c); }
  }

  lemma {:induction false} LeTransitiveStep(a: string, b: string, c: string)
    requires Le(a, b) && Le(b, c) && a != []
    ensures Le(a, c)
    decreases a
  {
    if a[0] == b[0] && b[0] == c[0] && a[1..] != [] { LeTransitiveStep(a[1..], b[1..], c[1..]); }
  }

  /** a and b first differ at i, where a is smaller. */
  ghost predicate SmallerAt(a: string, b: string, i: int) {
    0 <= i < |a| && i < |b| && a[i] < b[i] && forall k :: 0 <= k < i ==> a[k] == b[k]
  }

  /** The order of strings: a prefix comes first, otherwise the first difference decides. */
  lemma {:induction false} LeExactly(a: string, b: string)
    ensures Le(a, b) <==> a <= b || exists i :: SmallerAt(a, b, i)
  {
    if a != [] && b != [] {
      var x, y := a[1..], b[1..];
      assert a == [a[0]] + x && b == [b[0]] + y;
      if a[0] == b[0] {
        LeExactly(x, y);
        if i :| SmallerAt(x, y, i) { assert SmallerAt(a, b, i + 1); }
        if i :| SmallerAt(a, b, i) { assert SmallerAt(x, y, i - 1); }
      } else if a[0] < b[0] {
        assert SmallerAt(a, b, 0);
      }
    }
  }

  /** A pair of zones with its order forgotten. */
  type Pair = (string, string)

  function PairOf(a: string, b: string): Pair {
    if Le(a, b) then (a, b) else (b, a)
  }

  lemma {:induction false} PairForgetsOrder(a: string, b: string, c: string, d: string)
    ensures PairOf(a, b) == PairOf(c, d) <==> (a == c && b == d) || (a == d && b == c)
  {
    LeTotal(a, b);
    LeTotal(c, d);
  }

  ghost predicate StrictlySorted(s: seq<string>) {
    forall i, j :: 0 <= i < j < |s| ==> s[i] != s[j] && Le(s[i], s[j])
  }

  /** The members of a set in order, which is what `sorted` makes of it. */
  ghost predicate SortedMembers(s: seq<string>, members: set<string>) {
    StrictlySorted(s) && ToSet(s) == members
  }

  method InsertName(name: string, s: seq<string>) returns (r: seq<string>)
    requires StrictlySorted(s) && name !in s
    ensures SortedMembers(r, ToSet(s) + {name})
  {
    var i := 0;
    while i < |s| && Le(s[i], name)
      invariant i <= |s| && forall k :: 0 <= k < i ==> Le(s[k], name)
    {
      i := i + 1;
    }
    r := s[..i] + [name] + s[i..];
    forall k | i <= k < |s| ensures Le(name, s[k]) {
      LeTotal(s[i], name);
      if i < k { LeTransitive(name, s[i], s[k]); }
    }
    InsertedMembers(s, i, name);
  }

  lemma {:induction false} InsertedMembers(s: seq<string>, i: nat, name: string)
    requires i <= |s|
    ensures ToSet(s[..i] + [name] + s[i..]) == ToSet(s) + {name}
  {
    assert s == s[..i] + s[i..];
  }

  method SortNames(names: set<string>) returns (r: seq<string>)
    ensures SortedMembers(r, names)
  {
    r := [];
    var rest := names;
    while rest != {}
      invariant rest <= names && SortedMembers(r, names - rest)
      decreases rest
    {
      var name :| name in rest;
      assert name !in ToSet(r);
      r := InsertName(name, r);
      rest := rest - {name};
    }
  }

  lemma {:induction false} SortedMembersUnique(a: seq<string>, b: seq<string>, members: set<string>)
    requires SortedMembers(a, members) && SortedMembers(b, members)
    ensures a == b
    decreases a
  {
    assert a != [] ==> a[0] in members;
    assert b != [] ==> b[0] in members;
    if a != [] {
      assert a[0] in ToSet(b) && b[0] in ToSet(a);
      var i :| 0 <= i < |b| && b[i] == a[0];
      var j :| 0 <= j < |a| && a[j] == b[0];
      LeTotal(a[0], b[0]);
      assert ToSet(a[1..]) == members - {a[0]} by { assert a == [a[0]] + a[1..]; }
      assert ToSet(b[1..]) == members - {b[0]} by { assert b == [b[0]] + b[1..]; }
      SortedMembersUnique(a[1..], b[1..], members - {a[0]});
      assert a == [a[0]] + a[1..] && b == [b[0]] + b[1..];
    }
  }

  /* ---------- what the conduits should be ---------- */

  function ZoneIds(zones: seq<Zone>): set<string> { set z | z in zones :: z.id }

  /** The AI conduits between declared zones; of several with one id the last counts. */
  function Accepted(zoneIds: set<string>, ai: seq<Conduit>): map<string, Conduit> {
    if ai == [] then map[]
    else
      var before, c := Accepted(zoneIds, ai[..|ai| - 1]), ai[|ai| - 1];
      if c.source in zoneIds && c.target in zoneIds then before[c.id := c.(auto := false)] else before
  }

  function PairsOf(conduits: map<string, Conduit>): set<Pair> {
    set id | id in conduits :: PairOf(conduits[id].source, conduits[id].target)
  }

  function PutAll(m: map<string, string>, ids: seq<string>, zone: string): map<string, string> {
    if ids == [] then m else PutAll(m, ids[..|ids| - 1], zone)[ids[|ids| - 1] := zone]
  }

  /** Which zone a device is in. */
  function ZoneOf(zones: seq<Zone>): map<string, string> {
    if zones == [] then map[]
    else PutAll(ZoneOf(zones[..|zones| - 1]), zones[|zones| - 1].deviceIds, zones[|zones| - 1].id)
  }

  function ZoneNames(zones: seq<Zone>): map<string, string> {
    if zones == [] then map[] else ZoneNames(zones[..|zones| - 1])[zones[|zones| - 1].id := zones[|zones| - 1].name]
  }

  /** The zones a flow runs between, where both are known and differ. */
  function Crosses(f: Flow, zoneOf: map<string, string>): Option<(string, string)> {
    if f.source in zoneOf && f.destination in zoneOf && zoneOf[f.source] != zoneOf[f.destination]
    then Some((zoneOf[f.source], zoneOf[f.destination])) else None
  }

  /** The pair of zones the backfill sees: it takes a zone with an empty id for no zone. */
  function PairSeen(f: Flow, zoneOf: map<string, string>): Option<Pair> {
    match Crosses(f, zoneOf)
    case Some((a, b)) => if a == "" || b == "" then None else Some(PairOf(a, b))
    case None => None
  }

  /** The pairs seen in the flows that are not covered, in order of first appearance. */
  function MissingPairs(flows: seq<Flow>, zoneOf: map<string, string>, covered: set<Pair>): seq<Pair> {
    if flows == [] then []
    else
      var before, pair := MissingPairs(flows[..|flows| - 1], zoneOf, covered), PairSeen(flows[|flows| - 1], zoneOf);
      if pair.Some? && pair.value !in covered && pair.value !in before then before + [pair.value] else before
  }

  function ProtocolsAcross(flows: seq<Flow>, zoneOf: map<string, string>, pair: Pair): set<string> {
    set f | f in flows && PairSeen(f, zoneOf) == Some(pair) :: f.protocol
  }

  /** The id of the k-th backfilled conduit, when there are `accepted` conduits before it. */
  function GeneratedId(accepted: nat, k: nat): string { "conduit_" + Pad3(accepted + 1 + k) }

  lemma {:induction false} GeneratedIdInjective(accepted: nat, j: nat, k: nat)
    ensures GeneratedId(accepted, j) == GeneratedId(accepted, k) ==> j == k
  {
    assert GeneratedId(accepted, j)[8..] == Pad3(accepted + 1 + j)
        && GeneratedId(accepted, k)[8..] == Pad3(accepted + 1 + k);
    Pad3Injective(accepted + 1 + j, accepted + 1 + k);
  }

  /** The ids the backfill hands out, in order. */
  function GeneratedIds(accepted: nat, n: nat): (ids: seq<string>)
    ensures |ids| == n
  {
    seq(n, (k: nat) => GeneratedId(accepted, k))
  }

  ghost predicate IsGenerated(c: Conduit, id: string, pair: Pair, names: map<string, string>, protocols: set<string>) {
    c == AutoConduit(id, pair, names, c.allowed) && SortedMembers(c.allowed, protocols)
  }

  /** The accepted conduits, overwritten by one conduit for each missing pair. */
  ghost predicate Backfilled(r: map<string, Conduit>, accepted: map<string, Conduit>, ids: seq<string>,
                             missing: seq<Pair>, names: map<string, string>, protocols: map<Pair, set<string>>) {
    && |ids| == |missing|
    && r.Keys == accepted.Keys + ToSet(ids)
    && (forall id <- accepted :: id !in ids ==> r[id] == accepted[id])
    && (forall k :: 0 <= k < |missing| ==>
          missing[k] in protocols && IsGenerated(r[ids[k]], ids[k], missing[k], names, protocols[missing[k]]))
  }

  /** The protocols that cross each missing pair. */
  function Crossing(flows: seq<Flow>, zoneOf: map<string, string>, missing: seq<Pair>): map<Pair, set<string>> {
    map p | p in missing :: ProtocolsAcross(flows, zoneOf, p)
  }

  function AcceptedIn(ai: seq<Conduit>, zones: seq<Zone>): map<string, Conduit> { Accepted(ZoneIds(zones), ai) }

  function MissingIn(ai: seq<Conduit>, zones: seq<Zone>, flows: seq<Flow>): seq<Pair> {
    MissingPairs(flows, ZoneOf(zones), PairsOf(AcceptedIn(ai, zones)))
  }

  /** The ids the backfill hands out in one scenario. */
  function GeneratedIn(ai: seq<Conduit>, zones: seq<Zone>, flows: seq<Flow>): seq<string> {
    GeneratedIds(|AcceptedIn(ai, zones)|, |MissingIn(ai, zones, flows)|)
  }

  ghost predicate Built(r: map<string, Conduit>, ai: seq<Conduit>, zones: seq<Zone>, flows: seq<Flow>) {
    var missing := MissingIn(ai, zones, flows);
    Backfilled(r, AcceptedIn(ai, zones), GeneratedIn(ai, zones, flows), missing, ZoneNames(zones),
               Crossing(flows, ZoneOf(zones), missing))
  }

  /* ---------- building them ---------- */

  method AcceptConduits(zoneIds: set<string>, ai: seq<Conduit>) returns (conduits: map<string, Conduit>)
    ensures conduits == Accepted(zoneIds, ai)
  {
    conduits := map[];
    for i := 0 to |ai|
      invariant conduits == Accepted(zoneIds, ai[..i])
    {
      assert ai[..i + 1][..i] == ai[..i];
      if ai[i].source !in zoneIds {
        continue;
      }
      if ai[i].target !in zoneIds {
        continue;
      }
      conduits := conduits[ai[i].id := ai[i].(auto := false)];
    }
    assert ai[..|ai|] == ai;
  }

  method LocateDevices(zones: seq<Zone>) returns (zoneOf: map<string, string>)
    ensures zoneOf == ZoneOf(zones)
  {
    zoneOf := map[];
    for i := 0 to |zones|
      invariant zoneOf == ZoneOf(zones[..i])
    {
      assert zones[..i + 1][..i] == zones[..i];
      var ids := zones[i].deviceIds;
      for j := 0 to |ids|
        invariant zoneOf == PutAll(ZoneOf(zones[..i]), ids[..j], zones[i].id)
      {
        assert ids[..j + 1][..j] == ids[..j];
        zoneOf := zoneOf[ids[j] := zones[i].id];
      }
      assert ids[..|ids|] == ids;
    }
    assert zones[..|zones|] == zones;
  }

  method CollectMissing(flows: seq<Flow>, zoneOf: map<string, string>, covered: set<Pair>)
    returns (order: seq<Pair>, protocols: map<Pair, set<string>>)
    ensures order == MissingPairs(flows, zoneOf, covered)
    ensures protocols == Crossing(flows, zoneOf, order)
  {
    order, protocols := [], map[];
    for i := 0 to |flows|
      invariant order == MissingPairs(flows[..i], zoneOf, covered)
      invariant protocols == Crossing(flows[..i], zoneOf, order)
    {
      assert flows[..i + 1] == flows[..i] + [flows[i]];
      order, protocols := CollectOne(flows[..i], flows[i], zoneOf, covered, order, protocols);
    }
    assert flows[..|flows|] == flows;
  }

  /** The body of the collecting loop. */
  method CollectOne(ghost before: seq<Flow>, f: Flow, zoneOf: map<string, string>, covered: set<Pair>, order: seq<Pair>,
                    protocols: map<Pair, set<string>>)
    returns (newOrder: seq<Pair>, newProtocols: map<Pair, set<string>>)
    requires order == MissingPairs(before, zoneOf, covered) && protocols == Crossing(before, zoneOf, order)
    ensures newOrder == MissingPairs(before + [f], zoneOf, covered)
    ensures newProtocols == Crossing(before + [f], zoneOf, newOrder)
  {
    newOrder, newProtocols := order, protocols;
    CollectStep(before, f, zoneOf, covered);
    CrossingStep(before, f, zoneOf, covered);
    var pair := PairSeen(f, zoneOf);
    if pair.Some? && pair.value !in covered {
      if pair.value !in newProtocols {
        newOrder, newProtocols := newOrder + [pair.value], newProtocols[pair.value := {}];
      }
      newProtocols := newProtocols[pair.value := newProtocols[pair.value] + {f.protocol}];
    }
  }

  /** `known` together with the protocol of f, if f crosses p. */
  function WithFlow(known: set<string>, f: Flow, zoneOf: map<string, string>, p: Pair): set<string> {
    if PairSeen(f, zoneOf) == Some(p) then known + {f.protocol} else known
  }

  lemma {:induction false} CrossingStep(flows: seq<Flow>, f: Flow, zoneOf: map<string, string>, covered: set<Pair>)
    ensures var pair, earlier := PairSeen(f, zoneOf), Crossing(flows, zoneOf, MissingPairs(flows, zoneOf, covered));
            Crossing(flows + [f], zoneOf, MissingPairs(flows + [f], zoneOf, covered))
            == if pair.None? || pair.value in covered then earlier
               else earlier[pair.value := (if pair.value in earlier then earlier[pair.value] else {}) + {f.protocol}]
  {
    CollectStep(flows, f, zoneOf, covered);
    var before, after := MissingPairs(flows, zoneOf, covered), MissingPairs(flows + [f], zoneOf, covered);
    forall p | p in after
      ensures p !in covered
      ensures ProtocolsAcross(flows + [f], zoneOf, p)
           == WithFlow(if p in before then ProtocolsAcross(flows, zoneOf, p) else {}, f, zoneOf, p)
    {
      AcrossAfter(flows, f, zoneOf, covered, p);
    }
    assert PairSeen(f, zoneOf).Some? && PairSeen(f, zoneOf).value !in covered ==>
             forall p :: p in after <==> p in before || p == PairSeen(f, zoneOf).value;
  }

  lemma {:induction false} AcrossAfter(flows: seq<Flow>, f: Flow, zoneOf: map<string, string>, covered: set<Pair>,
                                       p: Pair)
    requires p in MissingPairs(flows + [f], zoneOf, covered)
    ensures p !in covered
    ensures ProtocolsAcross(flows + [f], zoneOf, p)
         == WithFlow(if p in MissingPairs(flows, zoneOf, covered) then ProtocolsAcross(flows, zoneOf, p) else {},
                     f, zoneOf, p)
  {
    MissingExactly(flows + [f], zoneOf, covered);
    AcrossStep(flows, f, zoneOf, p);
    if p !in MissingPairs(flows, zoneOf, covered) { NoneAcross(flows, zoneOf, covered, p); }
  }

  lemma {:induction false} CollectStep(flows: seq<Flow>, f: Flow, zoneOf: map<string, string>, covered: set<Pair>)
    ensures var before, pair := MissingPairs(flows, zoneOf, covered), PairSeen(f, zoneOf);
            MissingPairs(flows + [f], zoneOf, covered)
            == if pair.Some? && pair.value !in covered && pair.value !in before then before + [pair.value] else before
  {
    assert (flows + [f])[..|flows|] == flows;
  }

  lemma {:induction false} AcrossStep(flows: seq<Flow>, f: Flow, zoneOf: map<string, string>, p: Pair)
    ensures ProtocolsAcross(flows + [f], zoneOf, p) == WithFlow(ProtocolsAcross(flows, zoneOf, p), f, zoneOf, p)
  {
  }

  lemma {:induction false} NoneAcross(flows: seq<Flow>, zoneOf: map<string, string>, covered: set<Pair>, pair: Pair)
    requires pair !in covered && pair !in MissingPairs(flows, zoneOf, covered)
    ensures ProtocolsAcross(flows, zoneOf, pair) == {}
  {
    if flows != [] {
      var k := |flows| - 1;
      NoneAcross(flows[..k], zoneOf, covered, pair);
      CollectStep(flows[..k], flows[k], zoneOf, covered);
      AcrossStep(flows[..k], flows[k], zoneOf, pair);
      assert flows == flows[..k] + [flows[k]];
    }
  }

  method BuildConduits(ai: seq<Conduit>, zones: seq<Zone>, flows: seq<Flow>) returns (r: map<string, Conduit>)
    ensures Built(r, ai, zones, flows)
  {
    var accepted := AcceptConduits(ZoneIds(zones), ai);
    var covered := PairsOf(accepted);
    var zoneOf := LocateDevices(zones);
    var missing, protocols := CollectMissing(flows, zoneOf, covered);
    r := Backfill(accepted, missing, ZoneNames(zones), protocols);
  }

  /** One more conduit for each missing pair. */
  method Backfill(accepted: map<string, Conduit>, missing: seq<Pair>, names: map<string, string>,
                  protocols: map<Pair, set<string>>)
    returns (r: map<string, Conduit>)
    requires forall p <- missing :: p in protocols
    ensures Backfilled(r, accepted, GeneratedIds(|accepted|, |missing|), missing, names, protocols)
  {
    var ids := GeneratedIds(|accepted|, |missing|);
    GeneratedIdsDistinct(|accepted|, |missing|);
    r := accepted;
    for k := 0 to |missing|
      invariant Backfilled(r, accepted, ids[..k], missing[..k], names, protocols)
    {
      var cid, pair := ids[k], missing[k];
      var allowed := SortNames(protocols[pair]);
      var conduit := AutoConduit(cid, pair, names, allowed);
      BackfillStep(r, accepted, ids[..k], missing[..k], cid, pair, names, protocols, conduit);
      TakeNext(ids, k);
      TakeNext(missing, k);
      r := r[cid := conduit];
    }
    assert missing[..|missing|] == missing && ids[..|missing|] == ids;
  }

  function AutoConduit(id: string, pair: Pair, names: map<string, string>, allowed: seq<string>): Conduit {
    var (z1, z2) := pair;
    Conduit(id, Lookup(names, z1, z1) + " \U{2194} " + Lookup(names, z2, z2), z1, z2, "bidirectional", allowed,
      "standard", None, true)
  }

  lemma {:induction false} BackfillStep(r: map<string, Conduit>, accepted: map<string, Conduit>, ids: seq<string>,
                                        missing: seq<Pair>, id: string, pair: Pair, names: map<string, string>,
                                        protocols: map<Pair, set<string>>, c: Conduit)
    requires Backfilled(r, accepted, ids, missing, names, protocols) && pair in protocols && id !in ids
    requires IsGenerated(c, id, pair, names, protocols[pair])
    ensures Backfilled(r[id := c], accepted, ids + [id], missing + [pair], names, protocols)
  {
    assert ToSet(ids + [id]) == ToSet(ids) + {id};
    assert forall k :: 0 <= k < |ids| ==> ids[k] in ids;
  }

  lemma {:induction false} GeneratedIdsDistinct(accepted: nat, n: nat)
    ensures var ids := GeneratedIds(accepted, n); forall j, k :: 0 <= j < k < n ==> ids[j] != ids[k]
  {
    forall j, k | 0 <= j < k < n ensures GeneratedId(accepted, j) != GeneratedId(accepted, k) {
      GeneratedIdInjective(accepted, j, k);
    }
  }

  /* ---------- coverage ---------- */

  function Ends(c: Conduit): Pair { PairOf(c.source, c.target) }

  ghost predicate IsSeen(p: Pair, flows: seq<Flow>, zoneOf: map<string, string>) {
    exists f <- flows :: PairSeen(f, zoneOf) == Some(p)
  }

  lemma {:induction false} SeenSnoc(p: Pair, flows: seq<Flow>, f: Flow, zoneOf: map<string, string>)
    ensures IsSeen(p, flows + [f], zoneOf) <==> IsSeen(p, flows, zoneOf) || PairSeen(f, zoneOf) == Some(p)
  {
    if PairSeen(f, zoneOf) == Some(p) { assert f in flows + [f]; }
    if g :| g in flows && PairSeen(g, zoneOf) == Some(p) { assert g in flows + [f]; }
  }

  lemma {:induction false} MissingExactly(flows: seq<Flow>, zoneOf: map<string, string>, covered: set<Pair>)
    ensures var missing := MissingPairs(flows, zoneOf, covered);
            && (forall p :: p in missing <==> p !in covered && exists f <- flows :: PairSeen(f, zoneOf) == Some(p))
            && (forall i, j :: 0 <= i < j < |missing| ==> missing[i] != missing[j])
  {
    if flows != [] {
      var k := |flows| - 1;
      MissingExactly(flows[..k], zoneOf, covered);
      assert flows == flows[..k] + [flows[k]];
      CollectStep(flows[..k], flows[k], zoneOf, covered);
      var missing := MissingPairs(flows, zoneOf, covered);
      forall p ensures p in missing <==> p !in covered && IsSeen(p, flows, zoneOf) {
        SeenSnoc(p, flows[..k], flows[k], zoneOf);
        assert p in MissingPairs(flows[..k], zoneOf, covered) <==> p !in covered && IsSeen(p, flows[..k], zoneOf);
      }
    }
  }

  lemma {:induction false} SeenPairs(f: Flow, zoneOf: map<string, string>, zones: seq<Zone>)
    requires PairSeen(f, zoneOf).Some? && forall d <- zoneOf :: zoneOf[d] in ZoneIds(zones)
    ensures var p := PairSeen(f, zoneOf).value;
            PairOf(p.0, p.1) == p && p.0 in ZoneIds(zones) && p.1 in ZoneIds(zones) && p.0 != "" && p.1 != ""
  {
    var (a, b) := Crosses(f, zoneOf).value;
    LeTotal(a, b);
  }

  lemma {:induction false} AcceptedConduits(zoneIds: set<string>, ai: seq<Conduit>)
    ensures forall id <- Accepted(zoneIds, ai) :: IsAccepted(Accepted(zoneIds, ai)[id], id, zoneIds)
  {
    if ai != [] { AcceptedConduits(zoneIds, ai[..|ai| - 1]); }
  }

  ghost predicate IsAccepted(c: Conduit, id: string, zoneIds: set<string>) {
    c.id == id && !c.auto && c.source in zoneIds && c.target in zoneIds
  }

  lemma {:induction false} PutAllValues(m: map<string, string>, ids: seq<string>, zone: string)
    ensures forall d <- PutAll(m, ids, zone) ::
              PutAll(m, ids, zone)[d] == zone || (d in m && PutAll(m, ids, zone)[d] == m[d])
  {
    if ids != [] { PutAllValues(m, ids[..|ids| - 1], zone); }
  }

  lemma {:induction false} ZoneOfNamesZones(zones: seq<Zone>)
    ensures forall d <- ZoneOf(zones) :: ZoneOf(zones)[d] in ZoneIds(zones)
  {
    if zones != [] {
      var k := |zones| - 1;
      ZoneOfNamesZones(zones[..k]);
      PutAllValues(ZoneOf(zones[..k]), zones[k].deviceIds, zones[k].id);
      assert zones == zones[..k] + [zones[k]];
    }
  }

  /** What the theorems below use of the inputs. */
  ghost predicate Facts(accepted: map<string, Conduit>, missing: seq<Pair>, zoneIds: set<string>) {
    && (forall id <- accepted :: IsAccepted(accepted[id], id, zoneIds))
    && (forall i, j :: 0 <= i < j < |missing| ==> missing[i] != missing[j])
    && (forall p <- missing :: PairOf(p.0, p.1) == p && p.0 in zoneIds && p.1 in zoneIds && p !in PairsOf(accepted))
  }

  lemma {:induction false} FactsHold(ai: seq<Conduit>, zones: seq<Zone>, flows: seq<Flow>)
    ensures Facts(AcceptedIn(ai, zones), MissingIn(ai, zones, flows), ZoneIds(zones))
  {
    AcceptedConduits(ZoneIds(zones), ai);
    MissingExactly(flows, ZoneOf(zones), PairsOf(AcceptedIn(ai, zones)));
    ZoneOfNamesZones(zones);
    forall p | p in MissingIn(ai, zones, flows)
      ensures PairOf(p.0, p.1) == p && p.0 in ZoneIds(zones) && p.1 in ZoneIds(zones)
    {
      var f :| f in flows && PairSeen(f, ZoneOf(zones)) == Some(p);
      SeenPairs(f, ZoneOf(zones), zones);
    }
  }

  /** Where each conduit comes from: the backfill, for the k-th missing pair, or the AI design, unchanged. */
  lemma {:induction false} Origin(r: map<string, Conduit>, accepted: map<string, Conduit>, ids: seq<string>,
                                  missing: seq<Pair>, names: map<string, string>, protocols: map<Pair, set<string>>,
                                  zoneIds: set<string>, id: string) returns (k: nat)
    requires Backfilled(r, accepted, ids, missing, names, protocols) && Facts(accepted, missing, zoneIds) && id in r
    ensures if id in ids then k < |missing| && id == ids[k] && Ends(r[id]) == missing[k] && r[id].auto
            else id in accepted && r[id] == accepted[id] && !r[id].auto
  {
    k := 0;
    if id in ids {
      k :| 0 <= k < |missing| && ids[k] == id;
      assert missing[k] in missing;
    } else {
      assert IsAccepted(accepted[id], id, zoneIds);
    }
  }

  /** The last of the AI conduits with an id that join declared zones. */
  ghost predicate IsLastAccepted(ai: seq<Conduit>, zoneIds: set<string>, id: string, k: int) {
    && 0 <= k < |ai| && ai[k].id == id && ai[k].source in zoneIds && ai[k].target in zoneIds
    && forall m :: k < m < |ai| && ai[m].id == id ==> !(ai[m].source in zoneIds && ai[m].target in zoneIds)
  }

  /** Which AI conduits are accepted; all they hold is kept but the mark of a generated one. */
  lemma {:induction false} AcceptedExactly(zoneIds: set<string>, ai: seq<Conduit>, id: string)
    ensures id in Accepted(zoneIds, ai) <==> exists k :: IsLastAccepted(ai, zoneIds, id, k)
    ensures forall k :: IsLastAccepted(ai, zoneIds, id, k) ==>
              id in Accepted(zoneIds, ai) && Accepted(zoneIds, ai)[id] == ai[k].(auto := false)
  {
    if ai != [] {
      var n := |ai| - 1;
      var before, c := ai[..n], ai[n];
      AcceptedExactly(zoneIds, before, id);
      if c.id == id && c.source in zoneIds && c.target in zoneIds {
        assert IsLastAccepted(ai, zoneIds, id, n);
      } else {
        forall k ensures IsLastAccepted(ai, zoneIds, id, k) <==> IsLastAccepted(before, zoneIds, id, k) {
        }
      }
    }
  }

  /**
    Under every id that the backfill does not hand out stands just what the design
    has for it, the last conduit with that id between declared zones; and all such
    conduits survive exactly when the backfill hands out none of their ids.
   */
  lemma {:induction false} AiConduitsSurvive(r: map<string, Conduit>, ai: seq<Conduit>, zones: seq<Zone>,
                                             flows: seq<Flow>)
    requires Built(r, ai, zones, flows)
    ensures forall id :: id !in GeneratedIn(ai, zones, flows) ==>
              (id in r <==> exists k :: IsLastAccepted(ai, ZoneIds(zones), id, k))
    ensures forall id, k :: id !in GeneratedIn(ai, zones, flows) && IsLastAccepted(ai, ZoneIds(zones), id, k) ==>
              r[id] == ai[k].(auto := false)
    ensures (forall id, k :: IsLastAccepted(ai, ZoneIds(zones), id, k) ==> id in r && r[id] == ai[k].(auto := false))
       <==> forall id, k :: IsLastAccepted(ai, ZoneIds(zones), id, k) ==> id !in GeneratedIn(ai, zones, flows)
  {
    var accepted, ids := AcceptedIn(ai, zones), GeneratedIn(ai, zones, flows);
    FactsHold(ai, zones, flows);
    forall id ensures id in accepted <==> exists k :: IsLastAccepted(ai, ZoneIds(zones), id, k) {
      AcceptedExactly(ZoneIds(zones), ai, id);
    }
    forall id, k | IsLastAccepted(ai, ZoneIds(zones), id, k)
      ensures id in accepted && accepted[id] == ai[k].(auto := false)
      ensures id in r && (r[id] == accepted[id] <==> id !in ids)
    {
      AcceptedExactly(ZoneIds(zones), ai, id);
      OverwrittenExactly(r, ai, zones, flows, id);
    }
  }

  lemma {:induction false} OverwrittenExactly(r: map<string, Conduit>, ai: seq<Conduit>, zones: seq<Zone>,
                                              flows: seq<Flow>, id: string)
    requires Built(r, ai, zones, flows) && id in AcceptedIn(ai, zones)
    ensures id in r && (r[id] == AcceptedIn(ai, zones)[id] <==> id !in GeneratedIn(ai, zones, flows))
  {
    var accepted, missing := AcceptedIn(ai, zones), MissingIn(ai, zones, flows);
    FactsHold(ai, zones, flows);
    assert IsAccepted(accepted[id], id, ZoneIds(zones));
    var k := Origin(r, accepted, GeneratedIn(ai, zones, flows), missing, ZoneNames(zones),
                    Crossing(flows, ZoneOf(zones), missing), ZoneIds(zones), id);
  }

  /** The last zone that lists a device. */
  ghost predicate IsLastListing(zones: seq<Zone>, d: string, j: int) {
    0 <= j < |zones| && d in zones[j].deviceIds && forall i :: j < i < |zones| ==> d !in zones[i].deviceIds
  }

  lemma {:induction false} PutAllExactly(m: map<string, string>, ids: seq<string>, zone: string, d: string)
    ensures d in PutAll(m, ids, zone) <==> d in ids || d in m
    ensures d in PutAll(m, ids, zone) ==> PutAll(m, ids, zone)[d] == if d in ids then zone else m[d]
  {
    if ids != [] {
      PutAllExactly(m, ids[..|ids| - 1], zone, d);
      assert ids == ids[..|ids| - 1] + [ids[|ids| - 1]];
    }
  }

  /** Which zone a device is found in: the last that lists it. */
  lemma {:induction false} ZoneOfExactly(zones: seq<Zone>, d: string)
    ensures d in ZoneOf(zones) <==> exists j :: IsLastListing(zones, d, j)
    ensures forall j :: IsLastListing(zones, d, j) ==> d in ZoneOf(zones) && ZoneOf(zones)[d] == zones[j].id
  {
    if zones != [] {
      var n := |zones| - 1;
      ZoneOfExactly(zones[..n], d);
      PutAllExactly(ZoneOf(zones[..n]), zones[n].deviceIds, zones[n].id, d);
      if d in zones[n].deviceIds {
        assert IsLastListing(zones, d, n);
      } else {
        forall j ensures IsLastListing(zones, d, j) <==> IsLastListing(zones[..n], d, j) {
        }
      }
    }
  }

  /** The name of a zone: that of the last with its id, or the id where there is none. */
  ghost predicate IsNameOf(name: string, zones: seq<Zone>, id: string) {
    if id in ZoneIds(zones)
    then exists j :: && 0 <= j < |zones| && zones[j].id == id && zones[j].name == name
                     && forall i :: j < i < |zones| ==> zones[i].id != id
    else name == id
  }

  lemma {:induction false} ZoneNamesExactly(zones: seq<Zone>, id: string)
    ensures id in ZoneNames(zones) <==> id in ZoneIds(zones)
    ensures IsNameOf(Lookup(ZoneNames(zones), id, id), zones, id)
  {
    if zones != [] {
      var n := |zones| - 1;
      ZoneNamesExactly(zones[..n], id);
      assert zones == zones[..n] + [zones[n]];
      if zones[n].id != id && id in ZoneIds(zones[..n]) {
        var name := Lookup(ZoneNames(zones[..n]), id, id);
        var j :| && 0 <= j < n && zones[..n][j].id == id && zones[..n][j].name == name
                 && forall i :: j < i < n ==> zones[..n][i].id != id;
        assert zones[j].id == id && forall i :: j < i < n ==> zones[..n][i] == zones[i];
      }
    }
  }

  /** A flow between zones a and b, in either direction, as the lookup of devices places its ends. */
  ghost predicate RunsBetween(f: Flow, zones: seq<Zone>, a: string, b: string) {
    exists i, j ::
      && IsLastListing(zones, f.source, i) && IsLastListing(zones, f.destination, j)
      && ((zones[i].id == a && zones[j].id == b) || (zones[i].id == b && zones[j].id == a))
  }

  /** A pair is seen in a flow that runs between two different zones, neither with an empty id. */
  lemma {:induction false} SeenExactly(f: Flow, zones: seq<Zone>, pair: Pair)
    ensures PairSeen(f, ZoneOf(zones)) == Some(pair) <==>
              pair.0 != "" && pair.1 != "" && pair.0 != pair.1 && Le(pair.0, pair.1)
                && RunsBetween(f, zones, pair.0, pair.1)
  {
    var zoneOf := ZoneOf(zones);
    ZoneOfExactly(zones, f.source);
    ZoneOfExactly(zones, f.destination);
    LeTotal(pair.0, pair.1);
    if f.source in zoneOf && f.destination in zoneOf {
      LeTotal(zoneOf[f.source], zoneOf[f.destination]);
    }
  }

  /** The missing pairs are in the order in which the flows first cross them. */
  lemma {:induction false} MissingInOrder(flows: seq<Flow>, zoneOf: map<string, string>, covered: set<Pair>)
    ensures var missing := MissingPairs(flows, zoneOf, covered);
            forall i, j :: 0 <= i < j < |missing| ==> IsSeenBefore(flows, zoneOf, missing[i], missing[j])
  {
    if flows != [] {
      var n := |flows| - 1;
      var before, missing := MissingPairs(flows[..n], zoneOf, covered), MissingPairs(flows, zoneOf, covered);
      MissingInOrder(flows[..n], zoneOf, covered);
      MissingExactly(flows[..n], zoneOf, covered);
      CollectStep(flows[..n], flows[n], zoneOf, covered);
      assert flows == flows[..n] + [flows[n]];
      forall i, j | 0 <= i < j < |missing| ensures IsSeenBefore(flows, zoneOf, missing[i], missing[j]) {
        if j < |before| {
          SeenBeforeLonger(flows, zoneOf, before[i], before[j]);
        } else {
          SeenBeforeNew(flows, zoneOf, covered, before[i], missing[j]);
        }
      }
    }
  }

  /** Some flow crosses p, and none up to it crosses q. */
  ghost predicate IsSeenBefore(flows: seq<Flow>, zoneOf: map<string, string>, p: Pair, q: Pair) {
    exists a :: && 0 <= a < |flows| && PairSeen(flows[a], zoneOf) == Some(p)
                && forall b :: 0 <= b <= a ==> PairSeen(flows[b], zoneOf) != Some(q)
  }

  lemma {:induction false} SeenBeforeLonger(flows: seq<Flow>, zoneOf: map<string, string>, p: Pair, q: Pair)
    requires flows != [] && IsSeenBefore(flows[..|flows| - 1], zoneOf, p, q)
    ensures IsSeenBefore(flows, zoneOf, p, q)
  {
    var before := flows[..|flows| - 1];
    var a :| && 0 <= a < |before| && PairSeen(before[a], zoneOf) == Some(p)
             && forall b :: 0 <= b <= a ==> PairSeen(before[b], zoneOf) != Some(q);
    assert forall b :: 0 <= b <= a ==> before[b] == flows[b];
  }

  lemma {:induction false} SeenBeforeNew(flows: seq<Flow>, zoneOf: map<string, string>, covered: set<Pair>, p: Pair,
                                         q: Pair)
    requires flows != [] && p in MissingPairs(flows[..|flows| - 1], zoneOf, covered)
    requires q !in covered && q !in MissingPairs(flows[..|flows| - 1], zoneOf, covered)
    ensures IsSeenBefore(flows, zoneOf, p, q)
  {
    var before := flows[..|flows| - 1];
    MissingExactly(before, zoneOf, covered);
    var f :| f in before && PairSeen(f, zoneOf) == Some(p);
    var a :| 0 <= a < |before| && before[a] == f;
    forall b | 0 <= b <= a ensures PairSeen(flows[b], zoneOf) != Some(q) {
      assert flows[b] == before[b] && before[b] in before;
    }
  }

  /**
    The conduit the backfill makes for the k-th missing pair: under the next free
    number in its count, from the lesser zone to the greater, in both directions,
    for exactly the protocols of the flows between them, in order.
   */
  ghost predicate IsBackfill(c: Conduit, number: nat, pair: Pair, zones: seq<Zone>, flows: seq<Flow>) {
    && c.id == "conduit_" + Pad3(number) && c.auto && c.source == pair.0 && c.target == pair.1
    && (exists from, to :: && IsNameOf(from, zones, pair.0) && IsNameOf(to, zones, pair.1)
                           && c.name == from + " \U{2194} " + to)
    && c.direction == "bidirectional" && c.securityLevel == "standard" && c.description.None?
    && StrictlySorted(c.allowed)
    && forall p :: p in c.allowed <==> exists f <- flows :: f.protocol == p && RunsBetween(f, zones, pair.0, pair.1)
  }

  lemma {:induction false} BackfilledExactly(r: map<string, Conduit>, ai: seq<Conduit>, zones: seq<Zone>,
                                             flows: seq<Flow>, k: nat)
    requires Built(r, ai, zones, flows) && k < |MissingIn(ai, zones, flows)|
    ensures var number, pair := |AcceptedIn(ai, zones)| + 1 + k, MissingIn(ai, zones, flows)[k];
            && "conduit_" + Pad3(number) in r
            && IsBackfill(r["conduit_" + Pad3(number)], number, pair, zones, flows)
  {
    var missing, pair := MissingIn(ai, zones, flows), MissingIn(ai, zones, flows)[k];
    var ids, protocols := GeneratedIn(ai, zones, flows), Crossing(flows, ZoneOf(zones), missing);
    assert ids[k] == "conduit_" + Pad3(|AcceptedIn(ai, zones)| + 1 + k) && ids[k] in ids;
    var c := r[ids[k]];
    assert IsGenerated(c, ids[k], pair, ZoneNames(zones), protocols[pair]);
    ZoneNamesExactly(zones, pair.0);
    ZoneNamesExactly(zones, pair.1);
    CrossingProtocols(ai, zones, flows, pair, c.allowed);
  }

  lemma {:induction false} CrossingProtocols(ai: seq<Conduit>, zones: seq<Zone>, flows: seq<Flow>, pair: Pair,
                                             allowed: seq<string>)
    requires pair in MissingIn(ai, zones, flows)
    requires SortedMembers(allowed, ProtocolsAcross(flows, ZoneOf(zones), pair))
    ensures forall p :: p in allowed <==> exists f <- flows :: f.protocol == p && RunsBetween(f, zones, pair.0, pair.1)
  {
    MissingExactly(flows, ZoneOf(zones), PairsOf(AcceptedIn(ai, zones)));
    var g :| g in flows && PairSeen(g, ZoneOf(zones)) == Some(pair);
    SeenExactly(g, zones, pair);
    forall f | f in flows
      ensures PairSeen(f, ZoneOf(zones)) == Some(pair) <==> RunsBetween(f, zones, pair.0, pair.1)
    {
      SeenExactly(f, zones, pair);
    }
    assert forall p :: p in allowed <==> p in ToSet(allowed);
  }

  lemma {:induction false} OnlyConduitFor(r: map<string, Conduit>, accepted: map<string, Conduit>, ids: seq<string>,
                                          missing: seq<Pair>, names: map<string, string>,
                                          protocols: map<Pair, set<string>>, zoneIds: set<string>, k: nat,
                                          other: string)
    requires Backfilled(r, accepted, ids, missing, names, protocols) && Facts(accepted, missing, zoneIds)
    requires k < |missing| && other in r && Ends(r[other]) == missing[k]
    ensures other == ids[k]
  {
    var j := Origin(r, accepted, ids, missing, names, protocols, zoneIds, other);
    assert missing[k] in missing;
  }

  ghost predicate IsOnlyConduit(r: map<string, Conduit>, id: string, pair: Pair, protocols: set<string>) {
    && id in r && Ends(r[id]) == pair && r[id].auto && ToSet(r[id].allowed) == protocols
    && forall other <- r :: Ends(r[other]) == pair ==> other == id
  }

  /** Each missing pair gets exactly one conduit, an auto one that allows exactly the protocols crossing the pair. */
  lemma {:induction false} OneConduitPerMissingPair(r: map<string, Conduit>, ai: seq<Conduit>, zones: seq<Zone>,
                                                    flows: seq<Flow>, pair: Pair)
    requires Built(r, ai, zones, flows) && pair in MissingIn(ai, zones, flows)
    ensures exists id :: IsOnlyConduit(r, id, pair, ProtocolsAcross(flows, ZoneOf(zones), pair))
  {
    var accepted, missing := AcceptedIn(ai, zones), MissingIn(ai, zones, flows);
    var names, protocols := ZoneNames(zones), Crossing(flows, ZoneOf(zones), missing);
    FactsHold(ai, zones, flows);
    var k :| 0 <= k < |missing| && missing[k] == pair;
    var ids := GeneratedIn(ai, zones, flows);
    var id := ids[k];
    assert IsGenerated(r[id], id, pair, names, protocols[pair]);
    forall other | other in r && Ends(r[other]) == pair ensures other == id {
      OnlyConduitFor(r, accepted, ids, missing, names, protocols, ZoneIds(zones), k, other);
    }
    assert IsOnlyConduit(r, id, pair, ProtocolsAcross(flows, ZoneOf(zones), pair));
  }

  /** Every conduit joins two declared zones, and every auto one joins a missing pair. */
  lemma {:induction false} ConduitsJoinDeclaredZones(r: map<string, Conduit>, ai: seq<Conduit>, zones: seq<Zone>,
                                                     flows: seq<Flow>, id: string)
    requires Built(r, ai, zones, flows) && id in r
    ensures r[id].source in ZoneIds(zones) && r[id].target in ZoneIds(zones)
    ensures r[id].auto <==> Ends(r[id]) in MissingIn(ai, zones, flows)
  {
    var accepted, missing := AcceptedIn(ai, zones), MissingIn(ai, zones, flows);
    FactsHold(ai, zones, flows);
    var k := Origin(r, accepted, GeneratedIn(ai, zones, flows), missing, ZoneNames(zones),
                      Crossing(flows, ZoneOf(zones), missing), ZoneIds(zones), id);
    if id in GeneratedIn(ai, zones, flows) {
      assert missing[k] in missing;
    } else {
      assert IsAccepted(accepted[id], id, ZoneIds(zones)) && Ends(accepted[id]) in PairsOf(accepted);
    }
  }

  ghost predicate CoveredBy(r: map<string, Conduit>, pair: Pair) {
    exists id <- r :: Ends(r[id]) == pair
  }

  /**
    What a flow between zones a and b needs, before the backfill, to end up
    covered: an AI conduit on its pair whose id the backfill does not hand out,
    or no AI conduit on the pair at all and two zones with non-empty ids.
   */
  ghost predicate WillBeCovered(accepted: map<string, Conduit>, generated: seq<string>, a: string, b: string) {
    if PairOf(a, b) in PairsOf(accepted)
    then exists id <- accepted :: Ends(accepted[id]) == PairOf(a, b) && id !in generated
    else a != "" && b != ""
  }

  lemma {:induction false} MissingMeansSeen(ai: seq<Conduit>, zones: seq<Zone>, flows: seq<Flow>, f: Flow)
    requires f in flows && Crosses(f, ZoneOf(zones)).Some?
    ensures var (a, b) := Crosses(f, ZoneOf(zones)).value;
            PairOf(a, b) in MissingIn(ai, zones, flows) <==>
              PairOf(a, b) !in PairsOf(AcceptedIn(ai, zones)) && a != "" && b != ""
  {
    var (a, b) := Crosses(f, ZoneOf(zones)).value;
    MissingExactly(flows, ZoneOf(zones), PairsOf(AcceptedIn(ai, zones)));
    if PairOf(a, b) in MissingIn(ai, zones, flows) {
      var g :| g in flows && PairSeen(g, ZoneOf(zones)) == Some(PairOf(a, b));
      var (c, d) := Crosses(g, ZoneOf(zones)).value;
      PairForgetsOrder(a, b, c, d);
    } else if a != "" && b != "" {
      assert PairSeen(f, ZoneOf(zones)) == Some(PairOf(a, b));
    }
  }

  /** Whether a flow between two distinct zones is covered, decided before the conduits are built. */
  lemma {:induction false} CoverageExactly(r: map<string, Conduit>, ai: seq<Conduit>, zones: seq<Zone>,
                                           flows: seq<Flow>, f: Flow)
    requires Built(r, ai, zones, flows)
    requires f in flows && Crosses(f, ZoneOf(zones)).Some?
    ensures var (a, b) := Crosses(f, ZoneOf(zones)).value;
            CoveredBy(r, PairOf(a, b)) <==> WillBeCovered(AcceptedIn(ai, zones), GeneratedIn(ai, zones, flows), a, b)
  {
    var (a, b) := Crosses(f, ZoneOf(zones)).value;
    var pair, accepted, missing := PairOf(a, b), AcceptedIn(ai, zones), MissingIn(ai, zones, flows);
    FactsHold(ai, zones, flows);
    MissingMeansSeen(ai, zones, flows, f);
    if CoveredBy(r, pair) {
      var id :| id in r && Ends(r[id]) == pair;
      var k := Origin(r, accepted, GeneratedIn(ai, zones, flows), missing, ZoneNames(zones),
                      Crossing(flows, ZoneOf(zones), missing), ZoneIds(zones), id);
      assert id in GeneratedIn(ai, zones, flows) ==> pair in missing;
    }
    if pair in PairsOf(accepted) {
      if id :| id in accepted && Ends(accepted[id]) == pair && id !in GeneratedIn(ai, zones, flows) {
        assert r[id] == accepted[id];
      }
    } else if a != "" && b != "" {
      OneConduitPerMissingPair(r, ai, zones, flows, pair);
    }
  }

  /** In particular, with no clash of ids and no empty zone id, every flow between two zones is covered. */
  lemma {:induction false} AllCrossingsCovered(r: map<string, Conduit>, ai: seq<Conduit>, zones: seq<Zone>,
                                               flows: seq<Flow>)
    requires Built(r, ai, zones, flows)
    requires AcceptedIn(ai, zones).Keys !! ToSet(GeneratedIn(ai, zones, flows)) && "" !in ZoneIds(zones)
    ensures forall f <- flows :: Crosses(f, ZoneOf(zones)).Some? ==>
              CoveredBy(r, PairOf(Crosses(f, ZoneOf(zones)).value.0, Crosses(f, ZoneOf(zones)).value.1))
  {
    ZoneOfNamesZones(zones);
    forall f | f in flows && Crosses(f, ZoneOf(zones)).Some?
      ensures CoveredBy(r, PairOf(Crosses(f, ZoneOf(zones)).value.0, Crosses(f, ZoneOf(zones)).value.1))
    {
      CoverageExactly(r, ai, zones, flows, f);
    }
  }

  /* ---------- two uncovered flows ---------- */

  /** A flow out of a zone with an empty id has no conduit. */
  lemma {:induction false} EmptyZoneIdUncovered(r: map<string, Conduit>, f: Flow)
    requires f.source == "d1" && f.destination == "d2"
    requires Built(r, [], [Zone("", "Cell", ["d1"]), Zone("b", "Plant", ["d2"])], [f])
    ensures Crosses(f, ZoneOf([Zone("", "Cell", ["d1"]), Zone("b", "Plant", ["d2"])])) == Some(("", "b"))
    ensures !CoveredBy(r, PairOf("", "b"))
  {
    var zones := [Zone("", "Cell", ["d1"]), Zone("b", "Plant", ["d2"])];
    TwoZones(zones[0], zones[1], "d1", "d2");
    CoverageExactly(r, [], zones, [f], f);
  }

  lemma {:induction false} PutOne(m: map<string, string>, d: string, zone: string)
    ensures PutAll(m, [d], zone) == m[d := zone]
  {
    assert [d][..0] == [];
  }

  lemma {:induction false} TwoZones(x: Zone, y: Zone, d1: string, d2: string)
    requires x.deviceIds == [d1] && y.deviceIds == [d2]
    ensures ZoneOf([x, y]) == map[][d1 := x.id][d2 := y.id]
  {
    assert [x, y][..1] == [x] && [x][..0] == [];
    PutOne(map[], d1, x.id);
    assert ZoneOf([x]) == PutAll(map[], [d1], x.id);
    PutOne(ZoneOf([x]), d2, y.id);
  }

  lemma {:induction false} ThreeZones(x: Zone, y: Zone, z: Zone, d1: string, d2: string, d3: string)
    requires x.deviceIds == [d1] && y.deviceIds == [d2] && z.deviceIds == [d3]
    ensures ZoneOf([x, y, z]) == map[][d1 := x.id][d2 := y.id][d3 := z.id]
  {
    assert [x, y, z][..2] == [x, y];
    TwoZones(x, y, d1, d2);
    PutOne(ZoneOf([x, y]), d3, z.id);
  }

  lemma {:induction false} ClashNames()
    ensures Le("a", "b") && Le("a", "c") && Pad3(2) == "002" && GeneratedId(1, 0) == "conduit_002"
  {
    assert Decimal(2) == "2" && Pad3(2) == "00" + "2" == "002";
    assert "conduit_" + "002" == "conduit_002";
  }

  /** The conduit an AI design asks for between zones a and b, under the id the backfill hands out first. */
  function ClashingConduit(): Conduit { Conduit("conduit_002", "", "a", "b", "", [], "", None, false) }

  function ThreeCells(): seq<Zone> { [Zone("a", "A", ["d1"]), Zone("b", "B", ["d2"]), Zone("c", "C", ["d3"])] }

  lemma {:induction false} ClashAccepted()
    ensures AcceptedIn([ClashingConduit()], ThreeCells()) == map["conduit_002" := ClashingConduit()]
    ensures PairsOf(AcceptedIn([ClashingConduit()], ThreeCells())) == {("a", "b")}
  {
    var c, zones := ClashingConduit(), ThreeCells();
    ClashNames();
    assert zones[0] in zones && zones[1] in zones;
    assert [c][..0] == [] && Accepted(ZoneIds(zones), []) == map[];
    var accepted := AcceptedIn([c], zones);
    assert accepted == map["conduit_002" := c];
    assert PairOf(accepted["conduit_002"].source, accepted["conduit_002"].target) == ("a", "b");
  }

  lemma {:induction false} ClashMissing(f: Flow, g: Flow)
    requires f.source == "d1" && f.destination == "d2" && g.source == "d1" && g.destination == "d3"
    ensures MissingIn([ClashingConduit()], ThreeCells(), [f, g]) == [("a", "c")]
  {
    var zones := ThreeCells();
    ClashNames();
    ClashAccepted();
    ThreeZones(zones[0], zones[1], zones[2], "d1", "d2", "d3");
    TwoFlows(f, g, ZoneOf(zones), ("a", "b"), ("a", "c"));
  }

  lemma {:induction false} TwoFlows(f: Flow, g: Flow, zoneOf: map<string, string>, seen: Pair, missing: Pair)
    requires PairSeen(f, zoneOf) == Some(seen) && PairSeen(g, zoneOf) == Some(missing) && seen != missing
    ensures MissingPairs([f, g], zoneOf, {seen}) == [missing]
  {
    assert [f, g] == [f] + [g] && [f] == [] + [f];
    CollectStep([], f, zoneOf, {seen});
    CollectStep([f], g, zoneOf, {seen});
  }

  /**
    Nor has a flow whose conduit is overwritten: the backfill for zones a and c
    takes the id of the AI conduit between a and b.
   */
  lemma {:induction false} ClashingIdUncovered(r: map<string, Conduit>, f: Flow, g: Flow)
    requires f.source == "d1" && f.destination == "d2" && g.source == "d1" && g.destination == "d3"
    requires Built(r, [ClashingConduit()], ThreeCells(), [f, g])
    ensures Crosses(f, ZoneOf(ThreeCells())) == Some(("a", "b")) && !CoveredBy(r, PairOf("a", "b"))
  {
    var zones := ThreeCells();
    ClashNames();
    ThreeZones(zones[0], zones[1], zones[2], "d1", "d2", "d3");
    ClashAccepted();
    ClashMissing(f, g);
    assert GeneratedIn([ClashingConduit()], zones, [f, g]) == ["conduit_002"];
    CoverageExactly(r, [ClashingConduit()], zones, [f, g], f);
  }
}
