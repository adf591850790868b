/**
  Random anomalies with a countdown per flow, and campaigns.

  The first half is the injector's state as a value and one step of it; whole
  runs are reasoned about there.  The second half is the injector itself, whose
  events are objects counted down in place, and whose methods are shown to take
  exactly those steps.
 */
module AnomalyInjector {
  import opened Collections

  /** An anomaly event as a caller sees it. */
  datatype EventView = EventView(id: nat, kind: string, target: Option<string>, duration: int, remaining: int)

  /** Optional fields are dictionary keys the code reads with a default. */
  datatype Template = Template(kind: Option<string>, mode: Option<string>, probability: Option<real>,
                               targetProtocols: seq<string>, duration: Option<int>)

  datatype Campaign<+E> = Campaign(isActive: bool, start: real, end: Option<real>, events: seq<E>)

  /** `nextId` stands for the supply of fresh UUIDs. */
  datatype State = State(templates: seq<Template>, active: map<string, seq<EventView>>,
                         campaigns: seq<Campaign<EventView>>,
                         count: int, byType: map<string, int>, nextId: nat)

  /** `draws[i]` is the number drawn in [0, 1) if template i is tried. */
  datatype Op =
    | Call(flow: string, protocol: string, now: real, draws: seq<real>)
    | AddTemplate(template: Template)
    | CreateCampaign(kinds: seq<string>, start: real, duration: Option<real>, flows: seq<string>)
    | SetActive(campaign: nat, isActive: bool)

  /* ---------- one call ---------- */

  /** The first position from i on whose event has cycles left. */
  function FirstLive(events: seq<EventView>, i: nat): (r: nat)
    requires i <= |events|
    ensures i <= r <= |events|
    ensures forall k :: i <= k < r ==> events[k].remaining <= 0
    ensures r < |events| ==> events[r].remaining > 0
    decreases |events| - i
  {
    if i == |events| || events[i].remaining > 0 then i else FirstLive(events, i + 1)
  }

  predicate Running(c: Campaign<EventView>, now: real) {
    c.isActive && c.start <= now && (c.end.None? || now <= c.end.value)
  }

  predicate Addresses(e: EventView, flow: string) {
    (e.target.None? || e.target.value == flow) && e.remaining > 0
  }

  function FirstAddressing(events: seq<EventView>, flow: string): Option<EventView> {
    if events == [] then None
    else if Addresses(events[0], flow) then Some(events[0])
    else FirstAddressing(events[1..], flow)
  }

  function FromCampaigns(campaigns: seq<Campaign<EventView>>, flow: string, now: real): Option<EventView> {
    if campaigns == [] then None
    else if Running(campaigns[0], now) && FirstAddressing(campaigns[0].events, flow).Some? then
      FirstAddressing(campaigns[0].events, flow)
    else FromCampaigns(campaigns[1..], flow, now)
  }

  predicate Eligible(t: Template, protocol: string) {
    t.targetProtocols == [] || protocol in t.targetProtocols
  }

  predicate Fires(t: Template, protocol: string, draws: seq<real>, i: nat) {
    && Eligible(t, protocol)
    && t.mode == Some("random")
    && i < |draws| && draws[i] < t.probability.GetOr(0.01)
  }

  /** The first template from i on that fires. */
  function FirstFiring(templates: seq<Template>, protocol: string, draws: seq<real>, i: nat): (r: nat)
    requires i <= |templates|
    ensures i <= r <= |templates|
    ensures r < |templates| ==> Fires(templates[r], protocol, draws, r)
    decreases |templates| - i
  {
    if i == |templates| || Fires(templates[i], protocol, draws, i) then i
    else FirstFiring(templates, protocol, draws, i + 1)
  }

  function NewEvent(t: Template, flow: string, id: nat): EventView {
    var duration := t.duration.GetOr(1);
    EventView(id, t.kind.GetOr("unknown"), Some(flow), duration, duration)
  }

  function ActiveOn(active: map<string, seq<EventView>>, flow: string): seq<EventView> {
    if flow in active then active[flow] else []
  }

  function Tally(byType: map<string, int>, kind: string): map<string, int> {
    byType[kind := (if kind in byType then byType[kind] else 0) + 1]
  }

  predicate Live(e: EventView) { e.remaining > 0 }

  /** A call that counts down the flow's i-th active event. */
  function CountedDown(s: State, flow: string, i: nat): (State, Option<EventView>)
    requires i < |ActiveOn(s.active, flow)|
  {
    var events := ActiveOn(s.active, flow);
    var e := events[i].(remaining := events[i].remaining - 1);
    (s.(active := s.active[flow := events[i := e]]), Some(e))
  }

  /** What creating an event from a template does to the state. */
  function Created(s: State, flow: string, t: Template): (State, Option<EventView>) {
    var e := NewEvent(t, flow, s.nextId);
    (s.(active := s.active[flow := ActiveOn(s.active, flow) + [e]],
        count := s.count + 1, byType := Tally(s.byType, e.kind), nextId := s.nextId + 1),
     Some(e))
  }

  function Drawn(s: State, flow: string, protocol: string, draws: seq<real>): (State, Option<EventView>) {
    var k := FirstFiring(s.templates, protocol, draws, 0);
    if k < |s.templates| then Created(s, flow, s.templates[k]) else (s, None)
  }

  function CleanedUp(s: State, flow: string): State {
    s.(active := s.active[flow := Keep(Live, ActiveOn(s.active, flow))])
  }

  function Inject(s: State, flow: string, protocol: string, now: real, draws: seq<real>): (State, Option<EventView>) {
    var i := FirstLive(ActiveOn(s.active, flow), 0);
    if i < |ActiveOn(s.active, flow)| then CountedDown(s, flow, i)
    else
      var planned := FromCampaigns(s.campaigns, flow, now);
      if planned.Some? then (CleanedUp(s, flow), planned)
      else Drawn(CleanedUp(s, flow), flow, protocol, draws)
  }

  /* ---------- campaigns ---------- */

  function FindTemplate(templates: seq<Template>, kind: string): Option<Template> {
    if templates == [] then None
    else if templates[0].kind == Some(kind) then Some(templates[0])
    else FindTemplate(templates[1..], kind)
  }

  function CampaignEvent(t: Template, kind: string, target: Option<string>, id: nat): EventView {
    var duration := t.duration.GetOr(10);
    EventView(id, kind, target, duration, duration)
  }

  function Targets(flows: seq<string>): (r: seq<Option<string>>) {
    if flows == [] then [None] else seq(|flows|, i requires 0 <= i < |flows| => Some(flows[i]))
  }

  /** One event for each kind that has a template and each target, with ids counting up from `id`. */
  function CampaignEvents(templates: seq<Template>, kinds: seq<string>, targets: seq<Option<string>>,
                          id: nat): seq<EventView> {
    if kinds == [] then []
    else
      var before := CampaignEvents(templates, kinds[..|kinds| - 1], targets, id);
      var kind := kinds[|kinds| - 1];
      match FindTemplate(templates, kind)
      case None => before
      case Some(t) => before + EventsFor(t, kind, targets, id + |before|)
  }

  function EventsFor(t: Template, kind: string, targets: seq<Option<string>>, id: nat): seq<EventView> {
    seq(|targets|, i requires 0 <= i < |targets| => CampaignEvent(t, kind, targets[i], id + i))
  }

  function CampaignEnd(start: real, duration: Option<real>): Option<real> {
    if duration.Some? && duration.value != 0.0 then Some(start + duration.value) else None
  }

  function Plan(s: State, kinds: seq<string>, start: real, duration: Option<real>, flows: seq<string>): State {
    var events := CampaignEvents(s.templates, kinds, Targets(flows), s.nextId);
    s.(campaigns := s.campaigns + [Campaign(true, start, CampaignEnd(start, duration), events)],
      nextId := s.nextId + |events|)
  }

  function Step(s: State, op: Op): (State, Option<EventView>) {
    match op
    case Call(flow, protocol, now, draws) => Inject(s, flow, protocol, now, draws)
    case AddTemplate(t) => (s.(templates := s.templates + [t]), None)
    case CreateCampaign(kinds, start, duration, flows) => (Plan(s, kinds, start, duration, flows), None)
    case SetActive(i, isActive) =>
      (if i < |s.campaigns| then s.(campaigns := s.campaigns[i := s.campaigns[i].(isActive := isActive)]) else s, None)
  }

  function Start(): State { State([], map[], [], 0, map[], 0) }

  ghost function Final(s: State, ops: seq<Op>): State
    decreases ops
  {
    if ops == [] then s else Final(Step(s, ops[0]).0, ops[1..])
  }

  /** What each call of a run returns; operations that are not calls return nothing. */
  ghost function Returned(s: State, ops: seq<Op>): (r: seq<Option<EventView>>)
    ensures |r| == |ops|
    decreases ops
  {
    if ops == [] then [] else [Step(s, ops[0]).1] + Returned(Step(s, ops[0]).0, ops[1..])
  }

  ghost function CallsOn(ops: seq<Op>, flow: string): nat {
    if ops == [] then 0
    else CallsOn(ops[1..], flow) + if ops[0].Call? && ops[0].flow == flow then 1 else 0
  }

  /* ---------- invariants of every run ---------- */

  lemma {:induction false} TotalTally(m: map<string, int>, kind: string)
    ensures Total(Tally(m, kind)) == Total(m) + 1
  {
    TotalMinus(Tally(m, kind), kind);
    if kind in m {
      TotalMinus(m, kind);
      assert Tally(m, kind) - {kind} == m - {kind};
    } else {
      assert Tally(m, kind) - {kind} == m;
    }
  }

  /** Whether an event with this id is still held, by a flow or by a campaign. */
  ghost predicate HeldByFlow(s: State, id: nat, flow: string) {
    flow in s.active && exists e <- s.active[flow] :: e.id == id
  }

  ghost predicate HeldByCampaign(s: State, id: nat) {
    exists c <- s.campaigns :: exists e <- c.events :: e.id == id
  }

  ghost predicate Inv(s: State) {
    && (forall f <- s.active :: |s.active[f]| <= 1)
    && (forall f <- s.active :: forall e <- s.active[f] :: e.id < s.nextId && e.target == Some(f))
    && (forall c <- s.campaigns :: forall e <- c.events :: e.id < s.nextId)
    && (forall f, id | HeldByFlow(s, id, f) :: !HeldByCampaign(s, id))
    && (forall f, g, id | HeldByFlow(s, id, f) && HeldByFlow(s, id, g) :: f == g)
    && s.count == Total(s.byType)
  }

  lemma {:induction false} CampaignEventsBound(templates: seq<Template>, kinds: seq<string>,
                                               targets: seq<Option<string>>, id: nat)
    ensures var events := CampaignEvents(templates, kinds, targets, id);
            forall e <- events :: id <= e.id < id + |events|
  {
    if kinds != [] {
      CampaignEventsBound(templates, kinds[..|kinds| - 1], targets, id);
    }
  }

  /** The two ways a call can leave the flow it is made for. */
  lemma {:induction false} InjectCases(s: State, flow: string, protocol: string, now: real, draws: seq<real>)
    requires Inv(s)
    ensures var events := ActiveOn(s.active, flow);
            var (s', r) := Inject(s, flow, protocol, now, draws);
            if events != [] && events[0].remaining > 0 then
              && events == [events[0]]
              && r == Some(events[0].(remaining := events[0].remaining - 1))
              && s' == s.(active := s.active[flow := [r.value]])
            else
              && Keep(Live, events) == []
              && (s' == s.(active := s.active[flow := []])
                  || (r.Some? && s' == s.(active := s.active[flow := [r.value]], count := s.count + 1,
                                          byType := Tally(s.byType, r.value.kind), nextId := s.nextId + 1)
                      && r.value.id == s.nextId && r.value.target == Some(flow)
                      && r.value.remaining == r.value.duration))
  {
    var events := ActiveOn(s.active, flow);
    if events == [] || events[0].remaining <= 0 {
      QuietCase(s, flow, protocol, now, draws);
    } else {
      var e := events[0].(remaining := events[0].remaining - 1);
      assert events[0 := e] == [e];
    }
  }

  lemma {:induction false} QuietCase(s: State, flow: string, protocol: string, now: real, draws: seq<real>)
    requires forall e <- ActiveOn(s.active, flow) :: e.remaining <= 0
    ensures Keep(Live, ActiveOn(s.active, flow)) == [] && CleanedUp(s, flow).active == s.active[flow := []]
    ensures var cleaned := CleanedUp(s, flow);
            Inject(s, flow, protocol, now, draws) ==
              var planned := FromCampaigns(s.campaigns, flow, now);
              if planned.Some? then (cleaned, planned) else Drawn(cleaned, flow, protocol, draws)
    ensures Drawn(CleanedUp(s, flow), flow, protocol, draws).1.Some? ==>
              Drawn(CleanedUp(s, flow), flow, protocol, draws).0.active ==
                s.active[flow := [Drawn(CleanedUp(s, flow), flow, protocol, draws).1.value]]
  {
    KeepNone(Live, ActiveOn(s.active, flow));
    var r := Drawn(CleanedUp(s, flow), flow, protocol, draws).1;
    if r.Some? {
      assert [] + [r.value] == [r.value];
      assert s.active[flow := []][flow := [r.value]] == s.active[flow := [r.value]];
    }
  }

  lemma {:induction false} InjectKeepsInv(s: State, flow: string, protocol: string, now: real, draws: seq<real>)
    requires Inv(s)
    ensures Inv(Inject(s, flow, protocol, now, draws).0)
  {
    InjectCases(s, flow, protocol, now, draws);
    var (s', r) := Inject(s, flow, protocol, now, draws);
    var events := ActiveOn(s.active, flow);
    assert forall id :: HeldByCampaign(s', id) == HeldByCampaign(s, id);
    forall f, id | HeldByFlow(s', id, f)
      ensures HeldByFlow(s, id, f) || (f == flow && id == s.nextId)
    {
      if f == flow && events != [] && events[0].remaining > 0 {
        assert events[0] in s.active[flow];
      }
    }
    if r.Some? {
      TotalTally(s.byType, r.value.kind);
    }
  }

  lemma {:induction false} StepKeepsInv(s: State, op: Op)
    requires Inv(s)
    ensures Inv(Step(s, op).0)
  {
    var s' := Step(s, op).0;
    match op
    case Call(flow, protocol, now, draws) =>
      InjectKeepsInv(s, flow, protocol, now, draws);
    case AddTemplate(t) =>
      assert forall f, id :: HeldByFlow(s', id, f) == HeldByFlow(s, id, f);
      assert forall id :: HeldByCampaign(s', id) == HeldByCampaign(s, id);
    case CreateCampaign(kinds, start, duration, flows) =>
      CampaignEventsBound(s.templates, kinds, Targets(flows), s.nextId);
      assert forall f, id :: HeldByFlow(s', id, f) == HeldByFlow(s, id, f);
      assert forall f, id: nat :: HeldByFlow(s', id, f) ==> id < s.nextId;
      assert forall id: nat :: HeldByCampaign(s', id) ==> HeldByCampaign(s, id) || id >= s.nextId;
    case SetActive(i, isActive) =>
      assert forall f, id :: HeldByFlow(s', id, f) == HeldByFlow(s, id, f);
      assert forall id :: HeldByCampaign(s', id) ==> HeldByCampaign(s, id);
  }

  /**
    In every state a run can reach, each flow has at most one active event, no
    event is shared between flows or with a campaign, and the injection count
    is the sum of the counts by type.
   */
  lemma {:induction false} InvInEveryRun(s: State, ops: seq<Op>)
    requires Inv(s)
    ensures Inv(Final(s, ops))
    decreases ops
  {
    if ops != [] {
      StepKeepsInv(s, ops[0]);
      InvInEveryRun(Step(s, ops[0]).0, ops[1..]);
    }
  }

  lemma {:induction false} RunsStartWell()
    ensures Inv(Start())
  {
  }

  /** A call for one flow leaves every other flow's events, and all campaigns, as they were. */
  lemma {:induction false} OtherFlowsUntouched(s: State, flow: string, protocol: string, now: real, draws: seq<real>,
                                               other: string)
    requires other != flow
    ensures var s' := Inject(s, flow, protocol, now, draws).0;
            && (other in s'.active <==> other in s.active)
            && ActiveOn(s'.active, other) == ActiveOn(s.active, other)
            && s'.campaigns == s.campaigns
  {
  }

  /* ---------- the life of one event ---------- */

  ghost predicate Returns(r: Option<EventView>, id: nat) {
    r.Some? && r.value.id == id
  }

  ghost predicate Gone(s: State, id: nat) {
    && id < s.nextId
    && !HeldByCampaign(s, id)
    && forall f :: !HeldByFlow(s, id, f)
  }

  lemma {:induction false} AddressingIsOneOf(events: seq<EventView>, flow: string)
    ensures var r := FirstAddressing(events, flow); r.Some? ==> r.value in events && Addresses(r.value, flow)
  {
    if events != [] { AddressingIsOneOf(events[1..], flow); }
  }

  lemma {:induction false} CampaignsReturnTheirOwn(campaigns: seq<Campaign<EventView>>, flow: string, now: real)
    ensures var r := FromCampaigns(campaigns, flow, now);
            r.Some? ==> exists c <- campaigns :: r.value in c.events
  {
    if campaigns != [] {
      AddressingIsOneOf(campaigns[0].events, flow);
      CampaignsReturnTheirOwn(campaigns[1..], flow, now);
      var r := FromCampaigns(campaigns, flow, now);
      if r.Some? {
        if r.value !in campaigns[0].events {
          var c :| c in campaigns[1..] && r.value in c.events;
          assert c in campaigns;
        } else {
          assert campaigns[0] in campaigns;
        }
      }
    }
  }

  /** Where a call's result comes from. */
  lemma {:induction false} ReturnedFrom(s: State, flow: string, protocol: string, now: real, draws: seq<real>, id: nat)
    requires Inv(s)
    requires Returns(Inject(s, flow, protocol, now, draws).1, id)
    ensures HeldByFlow(s, id, flow) || HeldByCampaign(s, id) || id == s.nextId
  {
    var events := ActiveOn(s.active, flow);
    InjectCases(s, flow, protocol, now, draws);
    CampaignsReturnTheirOwn(s.campaigns, flow, now);
    if events != [] && events[0].remaining > 0 {
      assert events[0] in s.active[flow];
    }
  }

  lemma {:induction false} GoneForGood(s: State, id: nat, ops: seq<Op>, j: nat)
    requires Inv(s) && Gone(s, id) && j < |ops|
    ensures !Returns(Returned(s, ops)[j], id)
    decreases ops
  {
    var op, s' := ops[0], Step(s, ops[0]).0;
    StepKeepsInv(s, op);
    if op.Call? && Returns(Step(s, op).1, id) {
      ReturnedFrom(s, op.flow, op.protocol, op.now, op.draws, id);
    }
    if j > 0 {
      StepKeepsGone(s, id, op);
      GoneForGood(s', id, ops[1..], j - 1);
    }
  }

  lemma {:induction false} StepKeepsGone(s: State, id: nat, op: Op)
    requires Inv(s) && Gone(s, id)
    ensures Gone(Step(s, op).0, id)
  {
    var s' := Step(s, op).0;
    match op
    case Call(flow, protocol, now, draws) =>
      InjectCases(s, flow, protocol, now, draws);
      assert HeldByCampaign(s', id) == HeldByCampaign(s, id);
      forall f ensures !HeldByFlow(s', id, f) {
        assert !HeldByFlow(s, id, f);
      }
    case AddTemplate(t) =>
      assert forall f :: HeldByFlow(s', id, f) == HeldByFlow(s, id, f);
      assert HeldByCampaign(s', id) == HeldByCampaign(s, id);
    case CreateCampaign(kinds, start, duration, flows) =>
      CampaignEventsBound(s.templates, kinds, Targets(flows), s.nextId);
      assert forall f :: HeldByFlow(s', id, f) == HeldByFlow(s, id, f);
    case SetActive(i, isActive) =>
      assert forall f :: HeldByFlow(s', id, f) == HeldByFlow(s, id, f);
      assert HeldByCampaign(s', id) ==> HeldByCampaign(s, id);
  }

  /**
    An active event with r cycles left is returned by exactly the next r calls
    for its flow, whatever else happens in between, and by no call after them.
   */
  lemma {:induction false} Countdown(s: State, flow: string, e: EventView, ops: seq<Op>, j: nat)
    requires Inv(s) && flow in s.active && s.active[flow] == [e]
    requires j < |ops|
    ensures Returns(Returned(s, ops)[j], e.id) <==>
              ops[j].Call? && ops[j].flow == flow && CallsOn(ops[..j], flow) < e.remaining
    decreases ops
  {
    var op, s', r := ops[0], Step(s, ops[0]).0, Step(s, ops[0]).1;
    StepKeepsInv(s, op);
    if j > 0 { CallsOnSplit(ops, flow, j); }
    if op.Call? && op.flow == flow {
      if e.remaining > 0 {
        CountedEvent(s, flow, e, op);
        if j > 0 { Countdown(s', flow, r.value, ops[1..], j - 1); }
      } else {
        ExpiredIsGone(s, flow, e, op);
        if j > 0 { GoneForGood(s', e.id, ops[1..], j - 1); }
      }
    } else {
      UndisturbedEvent(s, flow, e, op);
      if j > 0 { Countdown(s', flow, e, ops[1..], j - 1); }
    }
  }

  lemma {:induction false} CallsOnSplit(ops: seq<Op>, flow: string, j: nat)
    requires 0 < j < |ops|
    ensures CallsOn(ops[..j], flow)
         == CallsOn(ops[1..][..j - 1], flow) + if ops[0].Call? && ops[0].flow == flow then 1 else 0
  {
    assert ops[..j][1..] == ops[1..][..j - 1];
  }

  /** A call for the flow of a live event returns that event, with one cycle less. */
  lemma {:induction false} CountedEvent(s: State, flow: string, e: EventView, op: Op)
    requires Inv(s) && flow in s.active && s.active[flow] == [e] && e.remaining > 0
    requires op.Call? && op.flow == flow
    ensures var (s', r) := Step(s, op);
            r == Some(e.(remaining := e.remaining - 1)) && flow in s'.active && s'.active[flow] == [r.value]
  {
    InjectCases(s, flow, op.protocol, op.now, op.draws);
  }

  /** Any other operation leaves it alone and does not return it. */
  lemma {:induction false} UndisturbedEvent(s: State, flow: string, e: EventView, op: Op)
    requires Inv(s) && flow in s.active && s.active[flow] == [e]
    requires !(op.Call? && op.flow == flow)
    ensures var (s', r) := Step(s, op);
            !Returns(r, e.id) && flow in s'.active && s'.active[flow] == [e]
  {
    assert e in s.active[flow];
    assert HeldByFlow(s, e.id, flow);
    if op.Call? {
      OtherFlowsUntouched(s, op.flow, op.protocol, op.now, op.draws, flow);
      if Returns(Step(s, op).1, e.id) { ReturnedFrom(s, op.flow, op.protocol, op.now, op.draws, e.id); }
    }
  }

  lemma {:induction false} ExpiredIsGone(s: State, flow: string, e: EventView, op: Op)
    requires Inv(s) && flow in s.active && s.active[flow] == [e] && e.remaining <= 0
    requires op.Call? && op.flow == flow
    ensures !Returns(Step(s, op).1, e.id) && Gone(Step(s, op).0, e.id)
  {
    var (s', r) := Step(s, op);
    assert e in s.active[flow];
    assert HeldByFlow(s, e.id, flow);
    InjectCases(s, flow, op.protocol, op.now, op.draws);
    CampaignsReturnTheirOwn(s.campaigns, flow, op.now);
    assert HeldByCampaign(s', e.id) == HeldByCampaign(s, e.id);
    forall f ensures !HeldByFlow(s', e.id, f) {
      if f != flow { assert HeldByFlow(s', e.id, f) == HeldByFlow(s, e.id, f); }
    }
  }

  /**
    The whole life of a random event: the call that creates it returns it, and
    then exactly the next `duration` calls for its flow do.
   */
  lemma {:induction false} RandomEventLifetime(s: State, call: Op, ops: seq<Op>, j: nat)
    requires Inv(s) && call.Call? && Step(s, call).0.nextId == s.nextId + 1
    requires j < |ops|
    ensures var (s', r) := Step(s, call);
            && r.Some? && r.value.id == s.nextId && s'.count == s.count + 1
            && (Returns(Returned(s', ops)[j], r.value.id) <==>
                  ops[j].Call? && ops[j].flow == call.flow && CallsOn(ops[..j], call.flow) < r.value.duration)
  {
    var (s', r) := Step(s, call);
    InjectCases(s, call.flow, call.protocol, call.now, call.draws);
    StepKeepsInv(s, call);
    Countdown(s', call.flow, r.value, ops, j);
  }

  /* ---------- the life of a campaign event ---------- */

  ghost predicate Quiet(s: State, flow: string) {
    forall e <- ActiveOn(s.active, flow) :: e.remaining <= 0
  }

  ghost predicate InCampaign(s: State, e: EventView) {
    exists c <- s.campaigns :: e in c.events
  }

  /** Whether a call is one that campaign event e gets: its flow has no live event and e is planned for it now. */
  ghost predicate Due(s: State, op: Op, e: EventView) {
    op.Call? && Quiet(s, op.flow) && FromCampaigns(s.campaigns, op.flow, op.now) == Some(e)
  }

  lemma {:induction false} StepKeepsCampaign(s: State, op: Op, i: nat)
    requires i < |s.campaigns|
    ensures var after := Step(s, op).0.campaigns;
            i < |after| && exists isActive :: after[i] == s.campaigns[i].(isActive := isActive)
  {
    var c, after := s.campaigns[i], Step(s, op).0.campaigns;
    assert after[i] == c.(isActive := after[i].isActive);
  }

  /** No run ever changes a campaign's events or times: in particular no event of a campaign is counted down. */
  lemma {:induction false} CampaignsNeverChange(s: State, ops: seq<Op>, i: nat)
    requires i < |s.campaigns|
    ensures var after := Final(s, ops).campaigns;
            i < |after| && exists isActive :: after[i] == s.campaigns[i].(isActive := isActive)
    decreases ops
  {
    if ops == [] {
      assert s.campaigns[i] == s.campaigns[i].(isActive := s.campaigns[i].isActive);
    } else {
      StepKeepsCampaign(s, ops[0], i);
      CampaignsNeverChange(Step(s, ops[0]).0, ops[1..], i);
    }
  }

  lemma {:induction false} StepKeepsInCampaign(s: State, op: Op, e: EventView)
    requires InCampaign(s, e)
    ensures InCampaign(Step(s, op).0, e)
  {
    var c :| c in s.campaigns && e in c.events;
    var i :| 0 <= i < |s.campaigns| && s.campaigns[i] == c;
    StepKeepsCampaign(s, op, i);
    assert Step(s, op).0.campaigns[i] in Step(s, op).0.campaigns;
  }

  /** A call returns a campaign's event exactly when the call is due to it. */
  lemma {:induction false} ReturnsCampaignEvent(s: State, op: Op, e: EventView)
    requires Inv(s) && InCampaign(s, e)
    ensures Step(s, op).1 == Some(e) <==> Due(s, op, e)
  {
    var c :| c in s.campaigns && e in c.events;
    assert HeldByCampaign(s, e.id);
    if op.Call? {
      var events := ActiveOn(s.active, op.flow);
      if Quiet(s, op.flow) {
        QuietCase(s, op.flow, op.protocol, op.now, op.draws);
      } else {
        InjectCases(s, op.flow, op.protocol, op.now, op.draws);
        assert events[0] in s.active[op.flow];
        assert HeldByFlow(s, events[0].id, op.flow);
      }
    }
  }

  lemma {:induction false} ReturnedAt(s: State, ops: seq<Op>, j: nat)
    requires j < |ops|
    ensures Returned(s, ops)[j] == Step(Final(s, ops[..j]), ops[j]).1
    decreases ops
  {
    if j > 0 {
      ReturnedAt(Step(s, ops[0]).0, ops[1..], j - 1);
      assert ops[..j][1..] == ops[1..][..j - 1];
    }
  }

  lemma {:induction false} StaysInCampaign(s: State, ops: seq<Op>, e: EventView)
    requires InCampaign(s, e)
    ensures InCampaign(Final(s, ops), e)
    decreases ops
  {
    if ops != [] {
      StepKeepsInCampaign(s, ops[0], e);
      StaysInCampaign(Step(s, ops[0]).0, ops[1..], e);
    }
  }

  /**
    In any run, an operation returns a campaign's event exactly when it is a call
    for a flow without a live event for which the event is planned at that point;
    how often it was returned before does not matter.
   */
  lemma {:induction false} CampaignEventReturnedExactly(s: State, e: EventView, ops: seq<Op>, j: nat)
    requires Inv(s) && InCampaign(s, e) && j < |ops|
    ensures Returned(s, ops)[j] == Some(e) <==> Due(Final(s, ops[..j]), ops[j], e)
  {
    ReturnedAt(s, ops, j);
    InvInEveryRun(s, ops[..j]);
    StaysInCampaign(s, ops[..j], e);
    ReturnsCampaignEvent(Final(s, ops[..j]), ops[j], e);
  }

  ghost function TimesReturned(s: State, ops: seq<Op>, e: EventView): nat
    decreases ops
  {
    if ops == [] then 0
    else TimesReturned(Step(s, ops[0]).0, ops[1..], e) + if Step(s, ops[0]).1 == Some(e) then 1 else 0
  }

  ghost function TimesDue(s: State, ops: seq<Op>, e: EventView): nat
    decreases ops
  {
    if ops == [] then 0
    else TimesDue(Step(s, ops[0]).0, ops[1..], e) + if Due(s, ops[0], e) then 1 else 0
  }

  /**
    So a campaign event outlives its duration exactly in the runs with more due
    calls than that; a random event never does.
   */
  lemma {:induction false} CampaignEventNeverExpires(s: State, e: EventView, ops: seq<Op>)
    requires Inv(s) && InCampaign(s, e)
    ensures TimesReturned(s, ops, e) == TimesDue(s, ops, e)
    ensures TimesReturned(s, ops, e) > e.duration <==> TimesDue(s, ops, e) > e.duration
    decreases ops
  {
    if ops != [] {
      ReturnsCampaignEvent(s, ops[0], e);
      StepKeepsInv(s, ops[0]);
      StepKeepsInCampaign(s, ops[0], e);
      CampaignEventNeverExpires(Step(s, ops[0]).0, e, ops[1..]);
    }
  }

  /** A flow without a live event and a planned campaign event: the call leaves the same situation behind. */
  lemma {:induction false} DueStaysDue(s: State, flow: string, op: Op, e: EventView)
    requires Inv(s) && Quiet(s, flow)
    requires op.Call? && op.flow == flow ==> Due(s, op, e)
    ensures Quiet(Step(s, op).0, flow)
  {
    if op.Call? && op.flow == flow {
      QuietCase(s, flow, op.protocol, op.now, op.draws);
    }
  }

  /**
    While a campaign event is planned whenever its flow is asked about, every call
    for the flow returns it, for ever, whatever happens on other flows.
   */
  lemma {:induction false} CampaignEventRepeats(s: State, flow: string, e: EventView, ops: seq<Op>, j: nat)
    requires Inv(s) && Quiet(s, flow) && j < |ops| && ops[j].Call? && ops[j].flow == flow
    requires forall k :: 0 <= k <= j && ops[k].Call? && ops[k].flow == flow ==>
      FromCampaigns(Final(s, ops[..k]).campaigns, flow, ops[k].now) == Some(e)
    ensures Returned(s, ops)[j] == Some(e)
    decreases ops
  {
    var op, rest := ops[0], ops[1..];
    var s' := Step(s, op).0;
    assert Final(s, ops[..0]) == s;
    StepKeepsInv(s, op);
    DueStaysDue(s, flow, op, e);
    if j == 0 {
      QuietCase(s, flow, op.protocol, op.now, op.draws);
    } else {
      forall k | 0 <= k <= j - 1 && rest[k].Call? && rest[k].flow == flow
        ensures FromCampaigns(Final(s', rest[..k]).campaigns, flow, rest[k].now) == Some(e)
      {
        assert ops[..k + 1][1..] == rest[..k];
        assert Final(s, ops[..k + 1]) == Final(s', rest[..k]);
      }
      CampaignEventRepeats(s', flow, e, rest, j - 1);
    }
  }

  lemma {:induction false} ReturnedTwice(s: State, call: Op, e: EventView)
    requires Inv(s) && InCampaign(s, e) && Due(s, call, e)
    ensures Returned(s, [call, call]) == [Some(e), Some(e)]
  {
    var s' := Step(s, call).0;
    ReturnsCampaignEvent(s, call, e);
    StepKeepsInv(s, call);
    DueStaysDue(s, call.flow, call, e);
    StepKeepsInCampaign(s, call, e);
    ReturnsCampaignEvent(s', call, e);
    assert [call, call][1..] == [call] && [call][1..] == [];
    assert Returned(s', [call]) == [Some(e)] + [];
  }

  /** A campaign's timeout, given one cycle, on every flow. */
  lemma {:induction false} OneCycleCampaign()
    ensures var t := Template(Some("timeout"), None, None, [], Some(1));
            var e := EventView(0, "timeout", None, 1, 1);
            Plan(Start().(templates := [t]), ["timeout"], 0.0, None, [])
            == State([t], map[], [Campaign(true, 0.0, None, [e])], 0, map[], 1)
  {
    var t := Template(Some("timeout"), None, None, [], Some(1));
    var e := EventView(0, "timeout", None, 1, 1);
    assert ["timeout"][..0] == [] && Targets([]) == [None];
    assert EventsFor(t, "timeout", [None], 0) == [e];
    assert FindTemplate([t], "timeout") == Some(t);
    assert CampaignEvents([t], [], [None], 0) == [];
    assert CampaignEvents([t], ["timeout"], [None], 0) == [] + EventsFor(t, "timeout", [None], 0) == [e];
    assert Start().campaigns + [Campaign(true, 0.0, None, [e])] == [Campaign(true, 0.0, None, [e])];
  }

  /** One cycle was asked for; the second call returns the event again, with that cycle still remaining. */
  lemma {:induction false} CampaignEventOutlivesItsDuration(draws: seq<real>)
    ensures var t := Template(Some("timeout"), None, None, [], Some(1));
            var e, call := EventView(0, "timeout", None, 1, 1), Call("f", "modbus_tcp", 1.0, draws);
            var s := Plan(Step(Start(), Op.AddTemplate(t)).0, ["timeout"], 0.0, None, []);
            Returned(s, [call, call]) == [Some(e), Some(e)] && e.duration == 1
  {
    var t := Template(Some("timeout"), None, None, [], Some(1));
    var e, call := EventView(0, "timeout", None, 1, 1), Call("f", "modbus_tcp", 1.0, draws);
    assert Step(Start(), Op.AddTemplate(t)).0 == Start().(templates := [t]);
    OneCycleCampaign();
    RunsStartWell();
    var s1 := Step(Start(), Op.AddTemplate(t)).0;
    StepKeepsInv(Start(), Op.AddTemplate(t));
    StepKeepsInv(s1, Op.CreateCampaign(["timeout"], 0.0, None, []));
    var s := Plan(s1, ["timeout"], 0.0, None, []);
    assert s.campaigns[0] in s.campaigns && e in s.campaigns[0].events;
    assert FirstAddressing([e], "f") == Some(e);
    ReturnedTwice(s, call, e);
  }

  /* ---------- exactly what a call does ---------- */

  /** Event j of campaign i is one that a call for this flow can get now. */
  ghost predicate IsPlanned(campaigns: seq<Campaign<EventView>>, flow: string, now: real, i: int, j: int) {
    && 0 <= i < |campaigns| && 0 <= j < |campaigns[i].events|
    && campaigns[i].isActive && campaigns[i].start <= now && (campaigns[i].end.Some? ==> now <= campaigns[i].end.value)
    && (campaigns[i].events[j].target.Some? ==> campaigns[i].events[j].target.value == flow)
    && campaigns[i].events[j].remaining > 0
  }

  /** And the first such: no earlier campaign has one, nor has this one an earlier one. */
  ghost predicate IsNext(campaigns: seq<Campaign<EventView>>, flow: string, now: real, i: int, j: int) {
    && IsPlanned(campaigns, flow, now, i, j)
    && forall m, n :: IsPlanned(campaigns, flow, now, m, n) ==> i < m || (i == m && j <= n)
  }

  lemma {:induction false} FirstAddressingExactly(events: seq<EventView>, flow: string)
    ensures FirstAddressing(events, flow).None? ==> forall j :: 0 <= j < |events| ==> !Addresses(events[j], flow)
    ensures FirstAddressing(events, flow).Some? ==> exists j ::
              && 0 <= j < |events| && Addresses(events[j], flow) && FirstAddressing(events, flow) == Some(events[j])
              && forall n :: 0 <= n < j ==> !Addresses(events[n], flow)
  {
    if events != [] && !Addresses(events[0], flow) {
      var rest := events[1..];
      FirstAddressingExactly(rest, flow);
      if FirstAddressing(rest, flow).Some? {
        var j :| && 0 <= j < |rest| && Addresses(rest[j], flow) && FirstAddressing(rest, flow) == Some(rest[j])
                 && forall n :: 0 <= n < j ==> !Addresses(rest[n], flow);
        assert events[j + 1] == rest[j];
        forall n | 0 <= n < j + 1 ensures !Addresses(events[n], flow) {
          assert n > 0 ==> events[n] == rest[n - 1];
        }
      } else {
        forall j | 0 <= j < |events| ensures !Addresses(events[j], flow) {
          assert j > 0 ==> events[j] == rest[j - 1];
        }
      }
    }
  }

  /** Which campaign event a call gets, if it comes to campaigns at all. */
  lemma {:induction false} PlannedExactly(campaigns: seq<Campaign<EventView>>, flow: string, now: real)
    ensures if exists i, j :: IsPlanned(campaigns, flow, now, i, j)
            then exists i, j :: && IsNext(campaigns, flow, now, i, j)
                                && FromCampaigns(campaigns, flow, now) == Some(campaigns[i].events[j])
            else FromCampaigns(campaigns, flow, now) == None
  {
    if campaigns != [] {
      var c, rest := campaigns[0], campaigns[1..];
      FirstAddressingExactly(c.events, flow);
      assert forall j :: 0 <= j < |c.events| ==>
          (IsPlanned(campaigns, flow, now, 0, j) <==> Running(c, now) && Addresses(c.events[j], flow));
      if Running(c, now) && FirstAddressing(c.events, flow).Some? {
        var j :| && 0 <= j < |c.events| && Addresses(c.events[j], flow)
                 && FirstAddressing(c.events, flow) == Some(c.events[j])
                 && forall n :: 0 <= n < j ==> !Addresses(c.events[n], flow);
        assert IsNext(campaigns, flow, now, 0, j);
      } else {
        PlannedExactly(rest, flow, now);
        PlannedBehind(campaigns, flow, now);
      }
    }
  }

  lemma {:induction false} PlannedBehind(campaigns: seq<Campaign<EventView>>, flow: string, now: real)
    requires campaigns != [] && forall j :: !IsPlanned(campaigns, flow, now, 0, j)
    ensures forall i, j :: i > 0 ==>
              (IsPlanned(campaigns, flow, now, i, j) <==> IsPlanned(campaigns[1..], flow, now, i - 1, j))
    ensures forall i, j :: IsNext(campaigns[1..], flow, now, i, j) ==> IsNext(campaigns, flow, now, i + 1, j)
    ensures forall i, j :: IsPlanned(campaigns[1..], flow, now, i, j) ==> IsPlanned(campaigns, flow, now, i + 1, j)
  {
    var rest := campaigns[1..];
    forall i, j | i > 0
      ensures IsPlanned(campaigns, flow, now, i, j) <==> IsPlanned(rest, flow, now, i - 1, j)
    {
      assert i < |campaigns| ==> campaigns[i] == rest[i - 1];
    }
    forall i, j | IsNext(rest, flow, now, i, j) ensures IsNext(campaigns, flow, now, i + 1, j) {
      forall m, n | IsPlanned(campaigns, flow, now, m, n) ensures i + 1 < m || (i + 1 == m && j <= n) {
        assert IsPlanned(rest, flow, now, m - 1, n);
      }
    }
  }

  /** Template i fires: it admits the protocol, its mode is random, and the number drawn is below its probability. */
  ghost predicate IsDrawn(templates: seq<Template>, protocol: string, draws: seq<real>, i: int) {
    && 0 <= i < |templates| && i < |draws|
    && (templates[i].targetProtocols != [] ==> protocol in templates[i].targetProtocols)
    && templates[i].mode == Some("random")
    && draws[i] < if templates[i].probability.Some? then templates[i].probability.value else 0.01
  }

  lemma {:induction false} DrawnExactly(templates: seq<Template>, protocol: string, draws: seq<real>, i: nat)
    requires i <= |templates|
    ensures var r := FirstFiring(templates, protocol, draws, i);
            && (r < |templates| ==> IsDrawn(templates, protocol, draws, r))
            && forall k :: i <= k < r ==> !IsDrawn(templates, protocol, draws, k)
    decreases |templates| - i
  {
    if i < |templates| && !Fires(templates[i], protocol, draws, i) {
      DrawnExactly(templates, protocol, draws, i + 1);
    }
  }

  /** A live event is counted down and returned: the flow's first one. */
  ghost predicate CountsDown(s: State, flow: string, events: seq<EventView>, s': State, r: Option<EventView>) {
    exists k ::
      && 0 <= k < |events| && events[k].remaining > 0 && (forall i :: 0 <= i < k ==> events[i].remaining <= 0)
      && r == Some(events[k].(remaining := events[k].remaining - 1))
      && s' == s.(active := s.active[flow := events[k := r.value]])
  }

  /** The next campaign event is returned as it is. */
  ghost predicate TakesPlanned(s: State, flow: string, now: real, s': State, r: Option<EventView>) {
    && s' == s.(active := s.active[flow := []])
    && exists i, j :: IsNext(s.campaigns, flow, now, i, j) && r == Some(s.campaigns[i].events[j])
  }

  /** A new event is made from the first template that fires, which is now the flow's only one, and is counted. */
  ghost predicate Creates(s: State, flow: string, protocol: string, draws: seq<real>, s': State,
                          r: Option<EventView>) {
    exists i ::
      && IsDrawn(s.templates, protocol, draws, i)
      && (forall k :: 0 <= k < i ==> !IsDrawn(s.templates, protocol, draws, k))
      && IsNew(s, flow, s.templates[i], s', r)
  }

  ghost predicate IsNew(s: State, flow: string, t: Template, s': State, r: Option<EventView>) {
    var kind := if t.kind.Some? then t.kind.value else "unknown";
    var duration := if t.duration.Some? then t.duration.value else 1;
    && r == Some(EventView(s.nextId, kind, Some(flow), duration, duration))
    && s' == s.(active := s.active[flow := [r.value]], count := s.count + 1, nextId := s.nextId + 1,
                byType := s.byType[kind := (if kind in s.byType then s.byType[kind] else 0) + 1])
  }

  /**
    Exactly what a call returns and how it changes the state: a live event of the
    flow goes first, then campaigns, then the random draws; otherwise nothing.
   */
  lemma {:induction false} CallExactly(s: State, flow: string, protocol: string, now: real, draws: seq<real>)
    ensures var (s', r) := Step(s, Call(flow, protocol, now, draws));
            var events := if flow in s.active then s.active[flow] else [];
            if exists e <- events :: e.remaining > 0 then CountsDown(s, flow, events, s', r)
            else if exists i, j :: IsPlanned(s.campaigns, flow, now, i, j) then TakesPlanned(s, flow, now, s', r)
            else if exists i :: IsDrawn(s.templates, protocol, draws, i) then Creates(s, flow, protocol, draws, s', r)
            else s' == s.(active := s.active[flow := []]) && r == None
  {
    var events := if flow in s.active then s.active[flow] else [];
    if e :| e in events && e.remaining > 0 {
      var (s', r) := Inject(s, flow, protocol, now, draws);
      assert CountsDown(s, flow, events, s', r);
    } else {
      QuietCase(s, flow, protocol, now, draws);
      PlannedExactly(s.campaigns, flow, now);
      DrawnExactly(s.templates, protocol, draws, 0);
      var k := FirstFiring(s.templates, protocol, draws, 0);
      if FromCampaigns(s.campaigns, flow, now).None? && k < |s.templates| {
        NewOnQuietFlow(s, flow, s.templates[k]);
      }
    }
  }

  lemma {:induction false} NewOnQuietFlow(s: State, flow: string, t: Template)
    requires Quiet(s, flow)
    ensures IsNew(s, flow, t, Created(CleanedUp(s, flow), flow, t).0, Created(CleanedUp(s, flow), flow, t).1)
  {
    KeepNone(Live, ActiveOn(s.active, flow));
    var e := NewEvent(t, flow, s.nextId);
    assert [] + [e] == [e];
    assert s.active[flow := []][flow := [e]] == s.active[flow := [e]];
  }

  /** When a campaign event is due, told from the flow's events and the campaigns alone. */
  lemma {:induction false} DueExactly(s: State, op: Op, e: EventView)
    requires op.Call?
    ensures Due(s, op, e) <==>
              && (op.flow in s.active ==> forall x <- s.active[op.flow] :: x.remaining <= 0)
              && exists i, j :: IsNext(s.campaigns, op.flow, op.now, i, j) && s.campaigns[i].events[j] == e
  {
    PlannedExactly(s.campaigns, op.flow, op.now);
    if i, j :| IsNext(s.campaigns, op.flow, op.now, i, j) {
      assert IsPlanned(s.campaigns, op.flow, op.now, i, j);
      forall m, n | IsNext(s.campaigns, op.flow, op.now, m, n) ensures m == i && n == j {
        assert IsPlanned(s.campaigns, op.flow, op.now, m, n);
      }
    }
  }

  /* ---------- exactly what a campaign holds ---------- */

  /** The first template of a kind. */
  ghost predicate IsTemplateOf(t: Template, templates: seq<Template>, kind: string) {
    exists k :: && 0 <= k < |templates| && templates[k] == t && t.kind == Some(kind)
                && forall i :: 0 <= i < k ==> templates[i].kind != Some(kind)
  }

  lemma {:induction false} TemplateExactly(templates: seq<Template>, kind: string)
    ensures if exists t <- templates :: t.kind == Some(kind)
            then FindTemplate(templates, kind).Some?
                   && IsTemplateOf(FindTemplate(templates, kind).value, templates, kind)
            else FindTemplate(templates, kind).None?
  {
    if templates != [] {
      var rest := templates[1..];
      assert templates == [templates[0]] + rest;
      if templates[0].kind == Some(kind) {
        assert templates[0] in templates;
      } else {
        TemplateExactly(rest, kind);
        if t :| t in rest && t.kind == Some(kind) {
          var found := FindTemplate(rest, kind).value;
          var k :| && 0 <= k < |rest| && rest[k] == found
                   && forall i :: 0 <= i < k ==> rest[i].kind != Some(kind);
          assert templates[k + 1] == found;
          forall i | 0 <= i < k + 1 ensures templates[i].kind != Some(kind) {
            assert i > 0 ==> templates[i] == rest[i - 1];
          }
        }
      }
    }
  }

  /** The events of one kind: none without a template for it, else one for each target, with its duration or 10. */
  ghost predicate AreEventsOf(events: seq<EventView>, templates: seq<Template>, kind: string,
                              targets: seq<Option<string>>) {
    if exists t <- templates :: t.kind == Some(kind)
    then exists t ::
      && IsTemplateOf(t, templates, kind) && |events| == |targets|
      && forall j :: 0 <= j < |events| ==>
           var duration := if t.duration.Some? then t.duration.value else 10;
           events[j] == EventView(events[j].id, kind, targets[j], duration, duration)
    else events == []
  }

  ghost predicate AreEventsOfKinds(groups: seq<seq<EventView>>, templates: seq<Template>, kinds: seq<string>,
                                   targets: seq<Option<string>>) {
    |groups| == |kinds| && forall k :: 0 <= k < |kinds| ==> AreEventsOf(groups[k], templates, kinds[k], targets)
  }

  ghost predicate AreNumbered(events: seq<EventView>, id: nat) {
    forall i :: 0 <= i < |events| ==> events[i].id == id + i
  }

  function KindEvents(templates: seq<Template>, kind: string, targets: seq<Option<string>>, id: nat): seq<EventView> {
    match FindTemplate(templates, kind)
    case None => []
    case Some(t) => EventsFor(t, kind, targets, id)
  }

  lemma {:induction false} EventsOfTemplate(t: Template, templates: seq<Template>, kind: string,
                                            targets: seq<Option<string>>, id: nat)
    requires t in templates && IsTemplateOf(t, templates, kind)
    ensures AreEventsOf(EventsFor(t, kind, targets, id), templates, kind, targets)
    ensures AreNumbered(EventsFor(t, kind, targets, id), id)
  {
  }

  lemma {:induction false} EventsOfKind(templates: seq<Template>, kind: string, targets: seq<Option<string>>, id: nat)
    ensures var events := KindEvents(templates, kind, targets, id);
            AreEventsOf(events, templates, kind, targets) && AreNumbered(events, id)
  {
    TemplateExactly(templates, kind);
    var found := FindTemplate(templates, kind);
    if found.Some? { EventsOfTemplate(found.value, templates, kind, targets, id); }
  }

  /** The events of a campaign, kind by kind, each kind's ids counting from its own start. */
  function GroupsOf(templates: seq<Template>, kinds: seq<string>, targets: seq<Option<string>>, starts: seq<nat>)
    : (r: seq<seq<EventView>>)
    requires |starts| == |kinds|
    ensures |r| == |kinds|
  {
    seq(|kinds|, k requires 0 <= k < |kinds| => KindEvents(templates, kinds[k], targets, starts[k]))
  }

  lemma {:induction false} GroupsSnoc(templates: seq<Template>, kinds: seq<string>, targets: seq<Option<string>>,
                                      starts: seq<nat>, kind: string, start: nat)
    requires |starts| == |kinds|
    ensures GroupsOf(templates, kinds + [kind], targets, starts + [start])
         == GroupsOf(templates, kinds, targets, starts) + [KindEvents(templates, kind, targets, start)]
  {
  }

  lemma {:induction false} GroupsAre(templates: seq<Template>, kinds: seq<string>, targets: seq<Option<string>>,
                                     starts: seq<nat>)
    requires |starts| == |kinds|
    ensures AreEventsOfKinds(GroupsOf(templates, kinds, targets, starts), templates, kinds, targets)
  {
    forall k | 0 <= k < |kinds|
      ensures AreEventsOf(GroupsOf(templates, kinds, targets, starts)[k], templates, kinds[k], targets)
    {
      EventsOfKind(templates, kinds[k], targets, starts[k]);
    }
  }

  lemma {:induction false} CampaignEventsSnoc(templates: seq<Template>, kinds: seq<string>,
                                              targets: seq<Option<string>>, id: nat, kind: string)
    ensures var before := CampaignEvents(templates, kinds, targets, id);
            CampaignEvents(templates, kinds + [kind], targets, id)
            == before + KindEvents(templates, kind, targets, id + |before|)
  {
    assert (kinds + [kind])[..|kinds|] == kinds;
  }

  lemma {:induction false} GroupsAreFlat(templates: seq<Template>, kinds: seq<string>, targets: seq<Option<string>>,
                                         id: nat) returns (starts: seq<nat>)
    ensures |starts| == |kinds|
    ensures CampaignEvents(templates, kinds, targets, id) == Flat(GroupsOf(templates, kinds, targets, starts))
    ensures AreNumbered(CampaignEvents(templates, kinds, targets, id), id)
  {
    starts := [];
    if kinds != [] {
      var before, kind := kinds[..|kinds| - 1], kinds[|kinds| - 1];
      starts := GroupsAreFlat(templates, before, targets, id);
      starts := GroupsAreFlatStep(templates, before, targets, id, kind, starts);
      assert kinds == before + [kind];
    }
  }

  lemma {:induction false} GroupsAreFlatStep(templates: seq<Template>, kinds: seq<string>,
                                             targets: seq<Option<string>>, id: nat, kind: string, starts: seq<nat>)
    returns (more: seq<nat>)
    requires |starts| == |kinds|
    requires CampaignEvents(templates, kinds, targets, id) == Flat(GroupsOf(templates, kinds, targets, starts))
    requires AreNumbered(CampaignEvents(templates, kinds, targets, id), id)
    ensures var all := kinds + [kind];
            && |more| == |all|
            && CampaignEvents(templates, all, targets, id) == Flat(GroupsOf(templates, all, targets, more))
            && AreNumbered(CampaignEvents(templates, all, targets, id), id)
  {
    var start := id + |CampaignEvents(templates, kinds, targets, id)|;
    more := starts + [start];
    GroupsSnoc(templates, kinds, targets, starts, kind, start);
    CampaignEventsSnoc(templates, kinds, targets, id, kind);
    FlatSnoc(GroupsOf(templates, kinds, targets, starts), KindEvents(templates, kind, targets, start));
    EventsOfKind(templates, kind, targets, start);
  }

  /**
    Exactly what creating a campaign does: an active campaign is appended, which
    ends after a duration that is given and not zero, and whose events come kind by
    kind and, for each, target by target, each under its own id.
   */
  lemma {:induction false} CampaignExactly(s: State, kinds: seq<string>, start: real, duration: Option<real>,
                                           flows: seq<string>, targets: seq<Option<string>>)
    requires if flows == [] then targets == [None]
             else |targets| == |flows| && forall j :: 0 <= j < |flows| ==> targets[j] == Some(flows[j])
    ensures exists groups, end: Option<real> ::
              && AreEventsOfKinds(groups, s.templates, kinds, targets)
              && AreNumbered(Flat(groups), s.nextId)
              && (end.Some? <==> duration.Some? && duration.value != 0.0)
              && (end.Some? ==> end.value == start + duration.value)
              && Step(s, CreateCampaign(kinds, start, duration, flows)) ==
                   (s.(campaigns := s.campaigns + [Campaign(true, start, end, Flat(groups))],
                       nextId := s.nextId + |Flat(groups)|), None)
  {
    assert targets == Targets(flows);
    var starts := GroupsAreFlat(s.templates, kinds, targets, s.nextId);
    var groups := GroupsOf(s.templates, kinds, targets, starts);
    GroupsAre(s.templates, kinds, targets, starts);
    PlannedState(s, kinds, start, duration, flows, Flat(groups));
  }

  lemma {:induction false} PlannedState(s: State, kinds: seq<string>, start: real, duration: Option<real>,
                                        flows: seq<string>, events: seq<EventView>)
    requires events == CampaignEvents(s.templates, kinds, Targets(flows), s.nextId)
    ensures Step(s, CreateCampaign(kinds, start, duration, flows)) ==
              (s.(campaigns := s.campaigns + [Campaign(true, start, CampaignEnd(start, duration), events)],
                  nextId := s.nextId + |events|), None)
  {
  }

  /* ---------- the injector ---------- */

  class AnomalyEvent {
    const id: nat
    const kind: string
    const target: Option<string>
    const duration: int
    var remaining: int

    constructor (id: nat, kind: string, target: Option<string>, duration: int)
      ensures View() == EventView(id, kind, target, duration, duration)
    {
      this.id, this.kind, this.target, this.duration, this.remaining := id, kind, target, duration, duration;
    }

    ghost function View(): EventView
      reads this
    {
      EventView(id, kind, target, duration, remaining)
    }
  }

  ghost function Views(events: seq<AnomalyEvent>): (r: seq<EventView>)
    reads events
    ensures |r| == |events|
  {
    seq(|events|, i requires 0 <= i < |events| reads events => events[i].View())
  }

  ghost function ViewOf(e: AnomalyEvent?): Option<EventView>
    reads e
  {
    if e == null then None else Some(e.View())
  }

  ghost function ViewOfCampaign(c: Campaign<AnomalyEvent>): Campaign<EventView>
    reads c.events
  {
    Campaign(c.isActive, c.start, c.end, Views(c.events))
  }

  class Injector {
    var templates: seq<Template>
    var active: map<string, seq<AnomalyEvent>>
    var campaigns: seq<Campaign<AnomalyEvent>>
    var count: int
    var byType: map<string, int>
    var nextId: nat

    ghost function ActiveObjects(): set<AnomalyEvent>
      reads `active
    {
      set f, i | f in active && 0 <= i < |active[f]| :: active[f][i]
    }

    ghost function CampaignObjects(): set<AnomalyEvent>
      reads `campaigns
    {
      set i, j | 0 <= i < |campaigns| && 0 <= j < |campaigns[i].events| :: campaigns[i].events[j]
    }

    ghost function Objects(): set<AnomalyEvent>
      reads `active, `campaigns
    {
      ActiveObjects() + CampaignObjects()
    }

    ghost function ActiveView(): map<string, seq<EventView>>
      reads `active, ActiveObjects()
    {
      map f | f in active :: Views(active[f])
    }

    ghost function CampaignsView(): seq<Campaign<EventView>>
      reads `campaigns, CampaignObjects()
    {
      var cs := campaigns;
      seq(|cs|, i requires 0 <= i < |cs| reads if 0 <= i < |cs| then cs[i].events else [] => ViewOfCampaign(cs[i]))
    }

    ghost function Model(): State
      reads this, Objects()
    {
      State(templates, ActiveView(), CampaignsView(), count, byType, nextId)
    }

    ghost predicate Valid()
      reads this, Objects()
    {
      Inv(Model())
    }

    constructor ()
      ensures Valid() && Model() == Start()
    {
      templates, active, campaigns, count, byType, nextId := [], map[], [], 0, map[], 0;
    }

    method AddTemplate(t: Template)
      requires Valid()
      modifies this
      ensures Valid() && Model() == Step(old(Model()), Op.AddTemplate(t)).0
      ensures templates == old(templates) + [t]
    {
      ghost var before := Model();
      templates := templates + [t];
      StepKeepsInv(before, Op.AddTemplate(t));
      assert Model() == Step(before, Op.AddTemplate(t)).0;
    }

    /** Counts down the flow's first live event and returns it. */
    method CountDown(flow: string) returns (r: AnomalyEvent?)
      requires Valid() && flow in active
      modifies active[flow]
      ensures unchanged(this)
      ensures var i := FirstLive(old(ActiveView())[flow], 0);
              if i == |old(ActiveView())[flow]| then r == null && Model() == old(Model())
              else r in Objects() && (Model(), ViewOf(r)) == CountedDown(old(Model()), flow, i)
    {
      ghost var before := Model();
      var events := active[flow];
      ghost var views := Views(events);
      for i := 0 to |events|
        invariant FirstLive(views, 0) == FirstLive(views, i)
        invariant Model() == before && Views(events) == views
      {
        assert views[i] == events[i].View();
        if events[i].remaining > 0 {
          OneHolder(flow, events[i]);
          events[i].remaining := events[i].remaining - 1;
          assert Views(events) == views[i := events[i].View()];
          assert ActiveView() == before.active[flow := Views(events)];
          assert CampaignsView() == before.campaigns;
          return events[i];
        }
      }
      return null;
    }

    lemma {:induction false} HeldHere(flow: string, e: AnomalyEvent)
      requires flow in active && e in active[flow]
      ensures HeldByFlow(Model(), e.id, flow)
    {
      var k :| 0 <= k < |active[flow]| && active[flow][k] == e;
      assert Views(active[flow])[k] in Model().active[flow];
    }

    lemma {:induction false} HeldByOne(i: nat, e: AnomalyEvent)
      requires i < |campaigns| && e in campaigns[i].events
      ensures HeldByCampaign(Model(), e.id)
    {
      var k :| 0 <= k < |campaigns[i].events| && campaigns[i].events[k] == e;
      assert Views(campaigns[i].events)[k] in Model().campaigns[i].events && Model().campaigns[i] in Model().campaigns;
    }

    /** An active event is held nowhere else, so counting it down changes nothing else. */
    lemma {:induction false} OneHolder(flow: string, e: AnomalyEvent)
      requires Valid() && flow in active && e in active[flow]
      ensures forall f <- active :: f != flow ==> e !in active[f]
      ensures forall i :: 0 <= i < |campaigns| ==> e !in campaigns[i].events
      ensures active[flow] == [e]
    {
      forall f | f in active && e in active[f] ensures HeldByFlow(Model(), e.id, f) {
        HeldHere(f, e);
      }
      forall i | 0 <= i < |campaigns| && e in campaigns[i].events ensures HeldByCampaign(Model(), e.id) {
        HeldByOne(i, e);
      }
      assert |Model().active[flow]| <= 1;
    }

    /** The first campaign event addressed to a flow at this time. */
    method PlannedFor(flow: string, now: real) returns (r: AnomalyEvent?)
      ensures ViewOf(r) == FromCampaigns(CampaignsView(), flow, now)
      ensures r != null ==> r in Objects()
    {
      ghost var views := CampaignsView();
      for i := 0 to |campaigns|
        invariant FromCampaigns(views, flow, now) == FromCampaigns(views[i..], flow, now)
      {
        var c := campaigns[i];
        assert views[i..][0] == views[i] && views[i..][1..] == views[i + 1..];
        if c.isActive && c.start <= now && (c.end.None? || now <= c.end.value) {
          ghost var events := Views(c.events);
          for j := 0 to |c.events|
            invariant FirstAddressing(events, flow) == FirstAddressing(events[j..], flow)
          {
            var e := c.events[j];
            assert events[j..][0] == e.View() && events[j..][1..] == events[j + 1..];
            if (e.target.None? || e.target.value == flow) && e.remaining > 0 {
              assert e in CampaignObjects();
              return e;
            }
          }
          assert events[|c.events|..] == [];
        }
      }
      assert views[|campaigns|..] == [];
      return null;
    }

    /** Replaces one flow's active events. */
    method SetEvents(flow: string, events: seq<AnomalyEvent>)
      modifies this`active
      ensures Model() == old(Model()).(active := old(ActiveView())[flow := Views(events)])
      ensures forall e <- Objects() :: e in old(Objects()) || e in events
      ensures forall e <- events :: e in Objects()
    {
      ghost var was, views := active, ActiveView();
      active := active[flow := events];
      forall f | f in was && f != flow ensures Views(active[f]) == views[f] {
        assert active[f] == was[f];
      }
      assert ActiveView() == views[flow := Views(events)];
      assert CampaignsView() == old(CampaignsView());
      forall e | e in ActiveObjects() ensures e in old(Objects()) || e in events {
        var f, i :| f in active && 0 <= i < |active[f]| && active[f][i] == e;
        if f != flow { assert was[f][i] == e; }
      }
      forall e | e in events ensures e in ActiveObjects() {
        var i :| 0 <= i < |events| && events[i] == e;
        assert active[flow][i] == e;
      }
    }

    method Activate(e: AnomalyEvent, flow: string)
      modifies `active
      ensures Model()
                == old(Model()).(active := old(ActiveView())[flow := ActiveOn(old(ActiveView()), flow) + [e.View()]])
      ensures e in Objects()
      ensures Objects() <= old(Objects()) + {e}
    {
      var events := if flow in active then active[flow] else [];
      forall x | x in events ensures x in Objects() {
        var i :| 0 <= i < |events| && events[i] == x;
        assert active[flow][i] in ActiveObjects();
      }
      assert Views(events + [e]) == ActiveOn(ActiveView(), flow) + [e.View()];
      SetEvents(flow, events + [e]);
      assert e in events + [e];
    }

    /** Counts one injection. */
    method Record(kind: string)
      modifies `count, `byType, `nextId
      ensures Model()
                == old(Model()).(count := old(count) + 1, byType := Tally(old(byType), kind), nextId := old(nextId) + 1)
    {
      count := count + 1;
      byType := byType[kind := (if kind in byType then byType[kind] else 0) + 1];
      nextId := nextId + 1;
    }

    /** Creates an event from a template, makes it active and counts it. */
    method CreateEvent(t: Template, flow: string) returns (r: AnomalyEvent)
      modifies `active, `count, `byType, `nextId
      ensures fresh(r) && r in Objects()
      ensures Objects() <= old(Objects()) + {r}
      ensures (Model(), Some(r.View())) == Created(old(Model()), flow, t)
    {
      ghost var views, planned := ActiveView(), CampaignsView();
      var duration := t.duration.GetOr(1);
      r := new AnomalyEvent(nextId, t.kind.GetOr("unknown"), Some(flow), duration);
      assert ActiveView() == views && CampaignsView() == planned;
      Activate(r, flow);
      Record(r.kind);
    }

    /** Forgets the flow's expired events, when none is live. */
    method CleanUp(flow: string)
      requires Valid()
      requires FirstLive(ActiveOn(ActiveView(), flow), 0) == |ActiveOn(ActiveView(), flow)|
      modifies this`active
      ensures Model() == CleanedUp(old(Model()), flow)
      ensures Objects() <= old(Objects())
    {
      var events := if flow in active then active[flow] else [];
      ghost var views := ActiveOn(ActiveView(), flow);
      assert views == Views(events);
      var kept: seq<AnomalyEvent> := [];
      for i := 0 to |events|
        invariant kept == []
      {
        var e := events[i];
        assert views[i] == e.View();
        if e.remaining > 0 {
          kept := kept + [e];
        }
      }
      KeepNone(Live, views);
      assert Views(kept) == [];
      SetEvents(flow, kept);
    }

    /** The random draws, one for each eligible template until one fires. */
    method Draw(flow: string, protocol: string, draws: seq<real>) returns (r: AnomalyEvent?)
      modifies `active, `count, `byType, `nextId
      ensures (Model(), ViewOf(r)) == Drawn(old(Model()), flow, protocol, draws)
      ensures r != null ==> fresh(r) && r in Objects()
      ensures Objects() <= old(Objects()) + if r == null then {} else {r}
    {
      for i := 0 to |templates|
        invariant FirstFiring(templates, protocol, draws, 0) == FirstFiring(templates, protocol, draws, i)
        invariant unchanged(this)
      {
        var t := templates[i];
        if Eligible(t, protocol) && t.mode == Some("random") && i < |draws| && draws[i] < t.probability.GetOr(0.01) {
          r := CreateEvent(t, flow);
          return;
        }
      }
      return null;
    }

    /** A planned event if a campaign has one for the flow, else the random draws. */
    method PlanOrDraw(flow: string, protocol: string, now: real, draws: seq<real>) returns (r: AnomalyEvent?)
      modifies `active, `count, `byType, `nextId
      ensures var planned := FromCampaigns(old(CampaignsView()), flow, now);
              (Model(), ViewOf(r)) == if planned.Some? then (old(Model()), planned)
                else Drawn(old(Model()), flow, protocol, draws)
      ensures r != null ==> r in Objects()
      ensures forall e <- Objects() :: e in old(Objects()) || fresh(e)
    {
      r := PlannedFor(flow, now);
      if r == null {
        r := Draw(flow, protocol, draws);
      }
    }

    /** A call for a flow without a live event. */
    method InjectAfresh(flow: string, protocol: string, now: real, draws: seq<real>) returns (r: AnomalyEvent?)
      requires Valid()
      requires FirstLive(ActiveOn(ActiveView(), flow), 0) == |ActiveOn(ActiveView(), flow)|
      modifies `active, `count, `byType, `nextId
      ensures (Model(), ViewOf(r)) == Inject(old(Model()), flow, protocol, now, draws)
      ensures r != null ==> r in Objects()
      ensures forall e <- Objects() :: e in old(Objects()) || fresh(e)
    {
      CleanUp(flow);
      assert CampaignsView() == old(Model()).campaigns;
      r := PlanOrDraw(flow, protocol, now, draws);
    }

    /** Whether, and which, anomaly a packet of this flow gets now. */
    method ShouldInject(flow: string, protocol: string, now: real, draws: seq<real>) returns (r: AnomalyEvent?)
      requires Valid()
      modifies this, Objects()
      ensures (Model(), ViewOf(r)) == Inject(old(Model()), flow, protocol, now, draws)
      ensures Valid()
      ensures r != null ==> r in Objects()
      ensures forall e <- Objects() :: e in old(Objects()) || fresh(e)
    {
      InjectKeepsInv(Model(), flow, protocol, now, draws);
      if flow in active {
        r := CountDown(flow);
        if r != null { return; }
      }
      r := InjectAfresh(flow, protocol, now, draws);
    }

    /** New events of one kind, one for each target. */
    method NewEventsFor(t: Template, kind: string, targets: seq<Option<string>>) returns (events: seq<AnomalyEvent>)
      modifies `nextId
      ensures fresh(events) && |events| == |targets|
      ensures Views(events) == EventsFor(t, kind, targets, old(nextId))
      ensures nextId == old(nextId) + |events|
    {
      events := [];
      var duration := t.duration.GetOr(10);
      ghost var wanted := EventsFor(t, kind, targets, nextId);
      for j := 0 to |targets|
        invariant fresh(events) && nextId == old(nextId) + |events| && |events| == j
        invariant Views(events) == wanted[..j]
      {
        var e := new AnomalyEvent(nextId, kind, targets[j], duration);
        assert Views(events + [e]) == Views(events) + [e.View()];
        events := events + [e];
        nextId := nextId + 1;
      }
      assert wanted[..|targets|] == wanted;
    }

    /** New events for every kind that has a template, in the order the campaign lists them. */
    method NewCampaignEvents(kinds: seq<string>, targets: seq<Option<string>>) returns (events: seq<AnomalyEvent>)
      modifies `nextId
      ensures fresh(events)
      ensures Views(events) == CampaignEvents(templates, kinds, targets, old(nextId))
      ensures nextId == old(nextId) + |events|
    {
      events := [];
      for i := 0 to |kinds|
        invariant fresh(events) && nextId == old(nextId) + |events|
        invariant Views(events) == CampaignEvents(templates, kinds[..i], targets, old(nextId))
      {
        assert kinds[..i + 1][..i] == kinds[..i];
        var template := FindTemplate(templates, kinds[i]);
        if template.Some? {
          var added := NewEventsFor(template.value, kinds[i], targets);
          assert Views(events + added) == Views(events) + Views(added);
          events := events + added;
        }
      }
      assert kinds[..|kinds|] == kinds;
    }

    method CreateCampaign(kinds: seq<string>, start: real, duration: Option<real>, flows: seq<string>)
      requires Valid()
      modifies `campaigns, `nextId
      ensures Model() == Plan(old(Model()), kinds, start, duration, flows)
      ensures Valid()
    {
      ghost var before := Model();
      StepKeepsInv(before, Op.CreateCampaign(kinds, start, duration, flows));
      var events := NewCampaignEvents(kinds, Targets(flows));
      ghost var was, views := campaigns, before.campaigns;
      campaigns := campaigns + [Campaign(true, start, CampaignEnd(start, duration), events)];
      assert forall i :: 0 <= i < |was| ==> campaigns[i] == was[i];
      assert CampaignsView() == views + [Campaign(true, start, CampaignEnd(start, duration), Views(events))];
      assert ActiveView() == before.active;
    }

    /** Back to no active events, no campaigns and zero counts; the templates stay. */
    method Reset()
      modifies this
      ensures Model() == Start().(templates := old(templates), nextId := old(nextId))
      ensures Valid()
    {
      active, campaigns, count, byType := map[], [], 0, map[];
    }
  }
}
