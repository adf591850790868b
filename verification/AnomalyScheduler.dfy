/** The queue of anomalies scheduled for given simulation times. */
module AnomalyScheduler {
  import opened Collections

  datatype Anomaly = Anomaly(kind: string, parameters: Option<map<string, string>>, targetFlows: Option<seq<string>>)

  datatype Event = Event(time: real, anomaly: Anomaly)

  /* ---------- stable sorting by time ---------- */

  ghost predicate SortedByTime(s: seq<Event>) {
    forall i, j :: 0 <= i < j < |s| ==> s[i].time <= s[j].time
  }

  /** Places an event behind every event that is not later. */
  function Insert(e: Event, s: seq<Event>): seq<Event> {
    if s == [] || e.time < s[0].time then [e] + s else [s[0]] + Insert(e, s[1..])
  }

  /** Sorting by time that keeps simultaneous events in their given order. */
  function StableSort(s: seq<Event>): seq<Event> {
    if s == [] then [] else Insert(s[|s| - 1], StableSort(s[..|s| - 1]))
  }

  function IsDue(now: real): Event -> bool { (e: Event) => e.time <= now }

  function IsLater(now: real): Event -> bool { (e: Event) => !(e.time <= now) }

  function IsAt(time: real): Event -> bool { (e: Event) => e.time == time }

  function Due(s: seq<Event>, now: real): seq<Event> { Keep(IsDue(now), s) }

  function Later(s: seq<Event>, now: real): seq<Event> { Keep(IsLater(now), s) }

  /** The events at one instant, in their order. */
  function At(s: seq<Event>, time: real): seq<Event> { Keep(IsAt(time), s) }

  lemma {:induction false} InsertSorted(e: Event, s: seq<Event>)
    requires SortedByTime(s)
    ensures SortedByTime(Insert(e, s)) && Insert(e, s) != []
    ensures Insert(e, s)[0] == if s == [] || e.time < s[0].time then e else s[0]
  {
    if s == [] || e.time < s[0].time {
      ConsSorted(e, s);
    } else {
      InsertSorted(e, s[1..]);
      ConsSorted(s[0], Insert(e, s[1..]));
    }
  }

  lemma {:induction false} InsertKeepsAll(e: Event, s: seq<Event>)
    ensures multiset(Insert(e, s)) == multiset(s) + multiset{e}
  {
    if s != [] && e.time >= s[0].time {
      InsertKeepsAll(e, s[1..]);
      assert s == [s[0]] + s[1..];
    }
  }

  lemma {:induction false} ConsSorted(e: Event, s: seq<Event>)
    requires SortedByTime(s) && (s == [] || e.time <= s[0].time)
    ensures SortedByTime([e] + s)
  {
    forall j | 0 <= j < |s| ensures e.time <= s[j].time {
      assert s[0].time <= s[j].time;
    }
  }

  lemma {:induction false} InsertLast(s: seq<Event>, e: Event)
    requires forall x <- s :: x.time <= e.time
    ensures Insert(e, s) == s + [e]
  {
    if s != [] { InsertLast(s[1..], e); }
  }

  lemma {:induction false} SortOfSorted(s: seq<Event>)
    requires SortedByTime(s)
    ensures StableSort(s) == s
  {
    if s != [] {
      var k := |s| - 1;
      SortOfSorted(s[..k]);
      InsertLast(s[..k], s[k]);
    }
  }

  /** Inserting into a sorted queue and filtering commute. */
  lemma {:induction false} KeepInsert(p: Event -> bool, e: Event, s: seq<Event>)
    requires SortedByTime(s)
    ensures Keep(p, Insert(e, s)) == if p(e) then Insert(e, Keep(p, s)) else Keep(p, s)
  {
    if s == [] || e.time < s[0].time {
      KeepSubset(p, s);
      assert ([e] + s)[1..] == s;
      assert Keep(p, s) != [] ==> Keep(p, s)[0] in s;
    } else {
      KeepInsert(p, e, s[1..]);
      assert Insert(e, s)[1..] == Insert(e, s[1..]);
      assert ([s[0]] + Keep(p, s[1..]))[1..] == Keep(p, s[1..]);
    }
  }

  /** Sorting and filtering commute. */
  lemma {:induction false} KeepSort(p: Event -> bool, s: seq<Event>)
    ensures Keep(p, StableSort(s)) == StableSort(Keep(p, s))
  {
    if s != [] {
      var k := |s| - 1;
      KeepSort(p, s[..k]);
      Sorted(s[..k]);
      KeepInsert(p, s[k], StableSort(s[..k]));
      assert s == s[..k] + [s[k]];
      KeepSnoc(p, s[..k], s[k]);
      if p(s[k]) { SortStep(Keep(p, s[..k]), s[k]); }
    }
  }

  lemma {:induction false} SortStep(s: seq<Event>, e: Event)
    ensures StableSort(s + [e]) == Insert(e, StableSort(s))
  {
    assert (s + [e])[..|s|] == s;
  }

  lemma {:induction false} Sorted(s: seq<Event>)
    ensures SortedByTime(StableSort(s))
    ensures multiset(StableSort(s)) == multiset(s)
  {
    if s != [] {
      var k := |s| - 1;
      Sorted(s[..k]);
      InsertSorted(s[k], StableSort(s[..k]));
      InsertKeepsAll(s[k], StableSort(s[..k]));
      assert s == s[..k] + [s[k]];
    }
  }

  /** StableSort sorts, loses nothing, and keeps simultaneous events in order. */
  lemma {:induction false} StableSortCorrect(s: seq<Event>)
    ensures SortedByTime(StableSort(s))
    ensures multiset(StableSort(s)) == multiset(s)
    ensures forall time :: At(StableSort(s), time) == At(s, time)
  {
    Sorted(s);
    forall time ensures At(StableSort(s), time) == At(s, time) {
      SortIsStable(s, time);
    }
  }

  lemma {:induction false} SortIsStable(s: seq<Event>, time: real)
    ensures At(StableSort(s), time) == At(s, time)
  {
    KeepSort(IsAt(time), s);
    KeepSubset(IsAt(time), s);
    var same := At(s, time);
    forall i | 0 <= i < |same| ensures same[i].time == time {
      assert same[i] in same && IsAt(time)(same[i]);
    }
    SortOfSorted(same);
  }

  lemma {:induction false} SortResumes(s: seq<Event>, e: Event)
    ensures StableSort(StableSort(s) + [e]) == StableSort(s + [e])
  {
    Sorted(s);
    SortOfSorted(StableSort(s));
    SortStep(StableSort(s), e);
    SortStep(s, e);
  }

  /* ---------- the scheduler ---------- */

  function Anomalies(s: seq<Event>): seq<Anomaly> {
    seq(|s|, i requires 0 <= i < |s| => s[i].anomaly)
  }

  datatype PatternArgs = PatternArgs(count: Option<int>, burstCount: Option<int>, burstSize: Option<int>)

  /** The times a pattern schedules, in the order it schedules them; None where the code divides by zero. */
  function PatternTimes(pattern: string, start: real, end: real, args: PatternArgs,
                        draws: seq<real>): Option<seq<real>> {
    if pattern == "linear" then
      var count := args.count.GetOr(10);
      if count == 0 then None else Some(Linear(start, end, count, count))
    else if pattern == "burst" then
      var bursts := args.burstCount.GetOr(3);
      if bursts == 0 then None else Some(Bursts(start, end, bursts, args.burstSize.GetOr(5), bursts))
    else if pattern == "increasing" then
      var count := args.count.GetOr(20);
      Some(Increasing(start, end, count, count))
    else if pattern == "random" then
      Some(draws)
    else
      Some([])
  }

  function LinearTime(start: real, end: real, count: int, i: int): real
    requires count != 0
  {
    start + i as real * ((end - start) / count as real)
  }

  function IncreasingTime(start: real, end: real, count: int, i: int): real
    requires count != 0
  {
    var progress := i as real / count as real;
    start + progress * progress * (end - start)
  }

  function Linear(start: real, end: real, count: int, n: int): seq<real>
    requires count != 0
  {
    seq(Max(n, 0), i => LinearTime(start, end, count, i))
  }

  function Increasing(start: real, end: real, count: int, n: int): seq<real>
    requires count == 0 ==> n <= 0
  {
    seq(Max(n, 0), i requires 0 <= i < Max(n, 0) => IncreasingTime(start, end, count, i))
  }

  function Bursts(start: real, end: real, bursts: int, size: int, n: int): (r: seq<real>)
    requires bursts != 0
    decreases Max(n, 0)
  {
    if n <= 0 then []
    else Bursts(start, end, bursts, size, n - 1) + OneBurst(LinearTime(start, end, bursts, n - 1), size)
  }

  function OneBurst(start: real, size: int): seq<real> {
    seq(Max(size, 0), i => start + i as real * 100.0)
  }

  function Events(times: seq<real>, kind: string): (r: seq<Event>)
    ensures |r| == |times|
    ensures forall i :: 0 <= i < |r| ==> r[i].time == times[i] && r[i].anomaly == Anomaly(kind, None, None)
  {
    seq(|times|, i requires 0 <= i < |times| => Event(times[i], Anomaly(kind, None, None)))
  }

  lemma {:induction false} ScheduleNext(before: seq<Event>, times: seq<real>, i: nat, kind: string)
    requires i < |times|
    ensures StableSort(StableSort(before + Events(times[..i], kind)) + [Event(times[i], Anomaly(kind, None, None))])
         == StableSort(before + Events(times[..i + 1], kind))
  {
    var e := Event(times[i], Anomaly(kind, None, None));
    SortResumes(before + Events(times[..i], kind), e);
    EventsSnoc(times, i, kind);
    assert (before + Events(times[..i], kind)) + [e] == before + (Events(times[..i], kind) + [e]);
  }

  lemma {:induction false} EventsSnoc(times: seq<real>, i: nat, kind: string)
    requires i < |times|
    ensures Events(times[..i + 1], kind) == Events(times[..i], kind) + [Event(times[i], Anomaly(kind, None, None))]
  {
  }

  /** The events due are the front of the queue, up to the first that is later. */
  ghost predicate IsHead(due: seq<Event>, later: seq<Event>, now: real) {
    (forall e <- due :: e.time <= now) && forall e <- later :: e.time > now
  }

  lemma {:induction false} DueIsHead(s: seq<Event>, now: real)
    requires SortedByTime(s)
    ensures s == Due(s, now) + Later(s, now) && IsHead(Due(s, now), Later(s, now), now)
    ensures Due(s, now) == s[..|Due(s, now)|]
  {
    if s != [] {
      if s[0].time > now {
        KeepNone(IsDue(now), s);
        KeepAll(IsLater(now), s);
      } else {
        DueIsHead(s[1..], now);
        assert s == [s[0]] + s[1..];
        assert Due(s, now) == [s[0]] + Due(s[1..], now);
      }
    }
  }

  class Scheduler {
    var scheduledEvents: seq<Event>

    constructor ()
      ensures scheduledEvents == []
    {
      scheduledEvents := [];
    }

    method ScheduleAt(time: real, anomaly: Anomaly)
      modifies this
      ensures scheduledEvents == StableSort(old(scheduledEvents) + [Event(time, anomaly)])
    {
      scheduledEvents := scheduledEvents + [Event(time, anomaly)];
      scheduledEvents := StableSort(scheduledEvents);
    }

    /** Schedules one anomaly without overrides at each of the given times. */
    method ScheduleAll(times: seq<real>, kind: string)
      requires SortedByTime(scheduledEvents)
      modifies this
      ensures scheduledEvents == StableSort(old(scheduledEvents) + Events(times, kind))
      ensures SortedByTime(scheduledEvents)
    {
      ghost var before := scheduledEvents;
      SortOfSorted(before);
      assert before + Events(times[..0], kind) == before;
      for i := 0 to |times|
        invariant scheduledEvents == StableSort(before + Events(times[..i], kind))
      {
        ScheduleNext(before, times, i, kind);
        ScheduleAt(times[i], Anomaly(kind, None, None));
      }
      assert times[..|times|] == times;
      StableSortCorrect(before + Events(times, kind));
    }

    /** Returns false where the code raises a division by zero, which is before it schedules anything. */
    method SchedulePattern(pattern: string, kind: string, start: real, end: real, args: PatternArgs, draws: seq<real>)
      returns (ok: bool)
      requires SortedByTime(scheduledEvents)
      modifies this
      ensures SortedByTime(scheduledEvents)
      ensures match PatternTimes(pattern, start, end, args, draws)
              case None => !ok && scheduledEvents == old(scheduledEvents)
              case Some(times) => ok && scheduledEvents == StableSort(old(scheduledEvents) + Events(times, kind))
    {
      match PatternTimes(pattern, start, end, args, draws) {
        case None => ok := false;
        case Some(times) =>
          ScheduleAll(times, kind);
          ok := true;
      }
    }

    method GetScheduledForTime(now: real) returns (due: seq<Anomaly>)
      modifies this
      ensures due == Anomalies(Due(old(scheduledEvents), now))
      ensures scheduledEvents == Later(old(scheduledEvents), now)
      ensures SortedByTime(old(scheduledEvents)) ==>
        && |due| <= |old(scheduledEvents)|
        && old(scheduledEvents) == old(scheduledEvents)[..|due|] + scheduledEvents
        && IsHead(old(scheduledEvents)[..|due|], scheduledEvents, now)
        && forall i :: 0 <= i < |due| ==> due[i] == old(scheduledEvents)[i].anomaly
    {
      if SortedByTime(scheduledEvents) { DueIsHead(scheduledEvents, now); }
      due := [];
      var remaining: seq<Event> := [];
      for i := 0 to |scheduledEvents|
        invariant scheduledEvents == old(scheduledEvents)
        invariant due == Anomalies(Due(scheduledEvents[..i], now))
        invariant remaining == Later(scheduledEvents[..i], now)
      {
        var e := scheduledEvents[i];
        assert scheduledEvents[..i + 1] == scheduledEvents[..i] + [e];
        KeepSnoc(IsDue(now), scheduledEvents[..i], e);
        KeepSnoc(IsLater(now), scheduledEvents[..i], e);
        if e.time <= now {
          due := due + [e.anomaly];
        } else {
          remaining := remaining + [e];
        }
      }
      assert scheduledEvents[..|scheduledEvents|] == scheduledEvents;
      scheduledEvents := remaining;
    }
  }

  /* ---------- whole runs ---------- */

  datatype Op = Schedule(event: Event) | Poll(now: real)

  datatype Trace = Trace(pending: seq<Event>, delivered: seq<Event>)

  /** The queue and everything delivered so far, after a run of calls on a new scheduler. */
  ghost function Run(ops: seq<Op>): Trace {
    if ops == [] then Trace([], [])
    else
      var t := Run(ops[..|ops| - 1]);
      match ops[|ops| - 1]
      case Schedule(e) => Trace(StableSort(t.pending + [e]), t.delivered)
      case Poll(now) => Trace(Later(t.pending, now), t.delivered + Due(t.pending, now))
  }

  ghost function ScheduledIn(ops: seq<Op>): seq<Event> {
    if ops == [] then []
    else
      match ops[|ops| - 1]
      case Schedule(e) => ScheduledIn(ops[..|ops| - 1]) + [e]
      case Poll(_) => ScheduledIn(ops[..|ops| - 1])
  }

  /** The events of a run that no later poll has reached, in the order of their scheduling. */
  ghost function Unreached(ops: seq<Op>): seq<Event> {
    if ops == [] then []
    else
      match ops[|ops| - 1]
      case Schedule(e) => Unreached(ops[..|ops| - 1]) + [e]
      case Poll(now) => Later(Unreached(ops[..|ops| - 1]), now)
  }

  /**
    In every reachable state the queue is exactly the unreached events, sorted by
    time with ties first in, first out.
   */
  lemma {:induction false} PendingInEveryRun(ops: seq<Op>)
    ensures Run(ops).pending == StableSort(Unreached(ops))
    ensures SortedByTime(Run(ops).pending)
    ensures forall time :: At(Run(ops).pending, time) == At(Unreached(ops), time)
  {
    if ops != [] {
      var before := ops[..|ops| - 1];
      PendingInEveryRun(before);
      match ops[|ops| - 1]
      case Schedule(e) => SortResumes(Unreached(before), e);
      case Poll(now) => KeepSort(IsLater(now), Unreached(before));
    }
    StableSortCorrect(Unreached(ops));
  }

  lemma {:induction false} SplitKeepsAll(s: seq<Event>, now: real)
    ensures multiset(s) == multiset(Due(s, now)) + multiset(Later(s, now))
  {
    if s != [] {
      SplitKeepsAll(s[1..], now);
      assert s == [s[0]] + s[1..];
    }
  }

  /** No event is lost, repeated or invented, whatever the interleaving. */
  lemma {:induction false} NothingLost(ops: seq<Op>)
    ensures multiset(ScheduledIn(ops)) == multiset(Run(ops).delivered) + multiset(Run(ops).pending)
  {
    if ops != [] {
      var before := ops[..|ops| - 1];
      NothingLost(before);
      var pending := Run(before).pending;
      match ops[|ops| - 1]
      case Schedule(e) => StableSortCorrect(pending + [e]);
      case Poll(now) => SplitKeepsAll(pending, now);
    }
  }

  /** Two polls on a sorted queue come to one poll at the later time, in either order of the times. */
  lemma {:induction false} TwoPolls(s: seq<Event>, t1: real, t2: real)
    requires SortedByTime(s)
    ensures var last := if t1 <= t2 then t2 else t1;
            && Due(s, t1) + Due(Later(s, t1), t2) == Due(s, last)
            && Later(Later(s, t1), t2) == Later(s, last)
  {
    if s != [] {
      if s[0].time > t1 {
        KeepNone(IsDue(t1), s);
        KeepAll(IsLater(t1), s);
        if t2 < t1 {
          KeepNone(IsDue(t2), s);
          KeepAll(IsLater(t2), s);
        }
      } else {
        TwoPolls(s[1..], t1, t2);
        var last := if t1 <= t2 then t2 else t1;
        assert IsDue(t1)(s[0]) && IsDue(last)(s[0]) && !IsLater(t1)(s[0]) && !IsLater(last)(s[0]);
        assert Due(s, t1) == [s[0]] + Due(s[1..], t1);
        assert Due(s, last) == [s[0]] + (Due(s[1..], t1) + Due(Later(s[1..], t1), t2));
      }
    }
  }

  ghost function Polls(times: seq<real>): seq<Op> {
    seq(|times|, i requires 0 <= i < |times| => Poll(times[i]))
  }

  ghost function Latest(times: seq<real>): real
    requires times != []
  {
    if |times| == 1 then times[0]
    else
      var t := Latest(times[..|times| - 1]);
      if t <= times[|times| - 1] then times[|times| - 1] else t
  }

  /**
    After any run, any number of polls delivers the same events in the same order
    as one poll at the latest of their times.
   */
  lemma {:induction false} PollsCollapse(ops: seq<Op>, times: seq<real>)
    requires times != []
    ensures Run(ops + Polls(times)) == Run(ops + [Poll(Latest(times))])
  {
    var k := |times| - 1;
    if k == 0 {
      assert Polls(times) == [Poll(Latest(times))];
    } else {
      PollsCollapse(ops, times[..k]);
      PollsSnoc(ops, times);
      PollAgain(ops, ops + Polls(times[..k]), Latest(times[..k]), times[k]);
    }
  }

  lemma {:induction false} PollsSnoc(ops: seq<Op>, times: seq<real>)
    requires times != []
    ensures var k := |times| - 1; ops + Polls(times) == ops + Polls(times[..k]) + [Poll(times[k])]
  {
  }

  /** One more poll after polls that come to one. */
  lemma {:induction false} PollAgain(ops: seq<Op>, polled: seq<Op>, t1: real, t2: real)
    requires Run(polled) == Run(ops + [Poll(t1)])
    ensures Run(polled + [Poll(t2)]) == Run(ops + [Poll(if t1 <= t2 then t2 else t1)])
  {
    RunStep(polled, Poll(t2));
    PollTwice(ops, t1, t2);
  }

  lemma {:induction false} PollTwice(ops: seq<Op>, t1: real, t2: real)
    ensures var once := Run(ops + [Poll(t1)]);
            Trace(Later(once.pending, t2), once.delivered + Due(once.pending, t2))
            == Run(ops + [Poll(if t1 <= t2 then t2 else t1)])
  {
    var t := Run(ops);
    PendingInEveryRun(ops);
    TwoPolls(t.pending, t1, t2);
    RunStep(ops, Poll(t1));
    RunStep(ops, Poll(if t1 <= t2 then t2 else t1));
    assert (t.delivered + Due(t.pending, t1)) + Due(Later(t.pending, t1), t2)
        == t.delivered + (Due(t.pending, t1) + Due(Later(t.pending, t1), t2));
  }

  lemma {:induction false} RunStep(ops: seq<Op>, op: Op)
    ensures Run(ops + [op]) ==
      match op
      case Schedule(e) => Trace(StableSort(Run(ops).pending + [e]), Run(ops).delivered)
      case Poll(now) => Trace(Later(Run(ops).pending, now), Run(ops).delivered + Due(Run(ops).pending, now))
  {
    assert (ops + [op])[..|ops|] == ops;
  }

  /** After any run, a poll delivers the front of the queue, just the events that have come, and leaves the others. */
  lemma {:induction false} PollExactly(ops: seq<Op>, now: real)
    ensures var before, after := Run(ops), Run(ops + [Poll(now)]);
            exists due ::
              && after.delivered == before.delivered + due && before.pending == due + after.pending
              && (forall e <- due :: e.time <= now) && forall e <- after.pending :: e.time > now
  {
    PendingInEveryRun(ops);
    RunStep(ops, Poll(now));
    DueIsHead(Run(ops).pending, now);
    var due := Due(Run(ops).pending, now);
  }

  /* ---------- patterns ---------- */

  /** n times with one gap between them. */
  ghost predicate AreEven(times: seq<real>, start: real, gap: real, n: int) {
    |times| == Max(n, 0) && forall i :: 0 <= i < |times| ==> times[i] == start + i as real * gap
  }

  /** n times whose distances from the start grow with the squares, up to `width` for the n-th that would follow. */
  ghost predicate AreQuadratic(times: seq<real>, start: real, width: real, n: int) {
    |times| == Max(n, 0) && forall i :: 0 <= i < |times| ==>
      (times[i] - start) * (n as real * n as real) == (i as real * i as real) * width
  }

  /** Bursts at one gap, each of `size` times 100 ms apart. */
  ghost predicate AreBursts(times: seq<real>, start: real, gap: real, bursts: int, size: int) {
    && |times| == Max(bursts, 0) * Max(size, 0)
    && forall b, i :: 0 <= b < bursts && 0 <= i < size ==> IsInBurst(times, start, gap, size, b, i)
  }

  ghost predicate IsInBurst(times: seq<real>, start: real, gap: real, size: int, b: nat, i: nat) {
    var at := b * size + i;
    0 <= at < |times| && times[at] == start + b as real * gap + i as real * 100.0
  }

  lemma {:induction false} BurstsExactly(start: real, end: real, bursts: int, size: int, n: int)
    requires bursts != 0
    ensures AreBursts(Bursts(start, end, bursts, size, n), start, (end - start) / bursts as real, n, size)
    decreases Max(n, 0)
  {
    if n > 0 {
      BurstsExactly(start, end, bursts, size, n - 1);
      OneMoreBurst(start, end, bursts, size, n);
    }
  }

  lemma {:induction false} OneMoreBurst(start: real, end: real, bursts: int, size: int, n: int)
    requires bursts != 0 && n > 0
    requires AreBursts(Bursts(start, end, bursts, size, n - 1), start, (end - start) / bursts as real, n - 1, size)
    ensures AreBursts(Bursts(start, end, bursts, size, n), start, (end - start) / bursts as real, n, size)
  {
    var before, all := Bursts(start, end, bursts, size, n - 1), Bursts(start, end, bursts, size, n);
    var gap := (end - start) / bursts as real;
    Distribute(Max(size, 0), n - 1, 1);
    forall b, i | 0 <= b < n && 0 <= i < size ensures IsInBurst(all, start, gap, size, b, i) {
      if b < n - 1 {
        assert IsInBurst(before, start, gap, size, b, i);
      } else {
        assert all[(n - 1) * size + i] == OneBurst(LinearTime(start, end, bursts, n - 1), size)[i];
      }
    }
  }

  lemma {:induction false} IncreasingExactly(start: real, end: real, n: int)
    ensures AreQuadratic(Increasing(start, end, n, n), start, end - start, n)
  {
    var times := Increasing(start, end, n, n);
    forall i | 0 <= i < |times|
      ensures (times[i] - start) * (n as real * n as real) == (i as real * i as real) * (end - start)
    {
      SquareShare(i as real, n as real, end - start);
    }
  }

  lemma {:induction false} SquareShare(i: real, n: real, w: real)
    requires n > 0.0
    ensures ((i / n) * (i / n) * w) * (n * n) == (i * i) * w
  {
    var q := i / n;
    assert i == q * n;
    assert i * i == (q * q) * (n * n) by {
      assert (q * n) * (q * n) == (q * q) * (n * n);
    }
    assert ((q * q) * w) * (n * n) == ((q * q) * (n * n)) * w;
  }

  ghost predicate IsLinear(r: Option<seq<real>>, start: real, end: real, n: int) {
    if n == 0 then r == None else r.Some? && AreEven(r.value, start, (end - start) / n as real, n)
  }

  ghost predicate IsBurst(r: Option<seq<real>>, start: real, end: real, n: int, size: int) {
    if n == 0 then r == None else r.Some? && AreBursts(r.value, start, (end - start) / n as real, n, size)
  }

  ghost predicate IsIncreasing(r: Option<seq<real>>, start: real, end: real, n: int) {
    r.Some? && AreQuadratic(r.value, start, end - start, n)
  }

  lemma {:induction false} LinearExactly(start: real, end: real, args: PatternArgs, draws: seq<real>)
    ensures IsLinear(PatternTimes("linear", start, end, args, draws), start, end, args.count.GetOr(10))
  {
  }

  lemma {:induction false} BurstExactly(start: real, end: real, args: PatternArgs, draws: seq<real>)
    ensures IsBurst(PatternTimes("burst", start, end, args, draws), start, end, args.burstCount.GetOr(3),
                    args.burstSize.GetOr(5))
  {
    var n := args.burstCount.GetOr(3);
    if n != 0 { BurstsExactly(start, end, n, args.burstSize.GetOr(5), n); }
  }

  lemma {:induction false} IncreasingPattern(start: real, end: real, args: PatternArgs, draws: seq<real>)
    ensures IsIncreasing(PatternTimes("increasing", start, end, args, draws), start, end, args.count.GetOr(20))
  {
    IncreasingExactly(start, end, args.count.GetOr(20));
  }

  /** The times each pattern schedules, and when it fails. */
  lemma {:induction false} PatternExactly(pattern: string, start: real, end: real, args: PatternArgs, draws: seq<real>)
    ensures var r := PatternTimes(pattern, start, end, args, draws);
            match pattern
            case "linear" => IsLinear(r, start, end, if args.count.Some? then args.count.value else 10)
            case "burst" =>
              IsBurst(r, start, end, if args.burstCount.Some? then args.burstCount.value else 3,
                      if args.burstSize.Some? then args.burstSize.value else 5)
            case "increasing" => IsIncreasing(r, start, end, if args.count.Some? then args.count.value else 20)
            case "random" => r == Some(draws)
            case _ => r == Some([])
  {
    LinearExactly(start, end, args, draws);
    BurstExactly(start, end, args, draws);
    IncreasingPattern(start, end, args, draws);
  }

  /** Every linear or increasing injection lies in its window. */
  lemma {:induction false} PatternWithinWindow(start: real, end: real, count: int, i: int)
    requires start < end && 0 <= i < count
    ensures start <= LinearTime(start, end, count, i) < end
    ensures start <= IncreasingTime(start, end, count, i) < end
  {
    var p := i as real / count as real;
    assert 0.0 <= p < 1.0;
    assert 0.0 <= p * p <= p;
    var w := end - start;
    assert i as real * (w / count as real) == p * w;
    assert 0.0 <= p * w < w;
    assert 0.0 <= p * p * w < w;
  }

  /**
    Under "increasing" the gap between injections grows, so injections become
    rarer towards the end of the window, not more frequent.
   */
  lemma {:induction false} IncreasingGapsGrow(start: real, end: real, count: int, i: int)
    requires start < end && 0 <= i && i + 2 < count
    ensures var t := (k: int) => IncreasingTime(start, end, count, k);
            t(i + 1) - t(i) < t(i + 2) - t(i + 1)
  {
    var c := count as real;
    var w := end - start;
    var u := w / (c * c);
    forall k | 0 <= k < count
      ensures IncreasingTime(start, end, count, k) == start + k as real * k as real * u
    {
      SquareScaled(k as real, c, w);
    }
    assert u > 0.0;
    SecondDifference(i as real, u);
  }

  lemma {:induction false} SecondDifference(x: real, u: real)
    requires u > 0.0
    ensures (x + 1.0) * (x + 1.0) * u - x * x * u < (x + 2.0) * (x + 2.0) * u - (x + 1.0) * (x + 1.0) * u
  {
    assert (x + 1.0) * (x + 1.0) == x * x + 2.0 * x + 1.0;
    assert (x + 2.0) * (x + 2.0) == x * x + 4.0 * x + 4.0;
  }

  lemma {:induction false} SquareScaled(k: real, c: real, w: real)
    requires c > 0.0
    ensures (k / c) * (k / c) * w == k * k * (w / (c * c))
  {
  }

  ghost predicate AllBefore(times: seq<real>, end: real) {
    forall t <- times :: t < end
  }

  /** A burst pattern stays in its window exactly when a burst is shorter than the burst interval. */
  lemma {:induction false} BurstsWithinWindow(start: real, end: real, bursts: int, size: int)
    requires start < end && bursts >= 1 && size >= 1
    ensures AllBefore(Bursts(start, end, bursts, size, bursts), end)
       <==> (size - 1) as real * 100.0 < (end - start) / bursts as real
  {
    var interval, all := (end - start) / bursts as real, Bursts(start, end, bursts, size, bursts);
    LastBurst(start, end, bursts, size);
    if (size - 1) as real * 100.0 < interval {
      LastStart(start, end, bursts);
      forall t | t in all ensures t < end {
        BurstBound(start, end, bursts, size, bursts, t);
      }
    } else {
      var t := end - interval + (size - 1) as real * 100.0;
      assert t in all && t >= end;
    }
  }

  lemma {:induction false} LastStart(start: real, end: real, bursts: int)
    requires bursts >= 1
    ensures start + (bursts - 1) as real * ((end - start) / bursts as real) == end - (end - start) / bursts as real
  {
    var interval := (end - start) / bursts as real;
    assert bursts as real * interval == end - start;
    assert (bursts - 1) as real * interval == bursts as real * interval - interval;
  }

  lemma {:induction false} LastBurst(start: real, end: real, bursts: int, size: int)
    requires bursts >= 1 && size >= 1
    ensures end - (end - start) / bursts as real
              + (size - 1) as real * 100.0 in Bursts(start, end, bursts, size, bursts)
  {
    LastStart(start, end, bursts);
    var first := LinearTime(start, end, bursts, bursts - 1);
    assert first == end - (end - start) / bursts as real;
    var burst := OneBurst(first, size);
    assert burst[size - 1] == first + (size - 1) as real * 100.0;
    assert burst[size - 1] in Bursts(start, end, bursts, size, bursts);
  }

  /** The default burst pattern over one second: the last injection comes after its end. */
  lemma {:induction false} DefaultBurstsOverrun()
    ensures exists t <- Bursts(0.0, 1000.0, 3, 5, 3) :: t > 1000.0
  {
    var last := OneBurst(LinearTime(0.0, 1000.0, 3, 2), 5);
    assert last[4] in Bursts(0.0, 1000.0, 3, 5, 3);
    assert last[4] == 2.0 * (1000.0 / 3.0) + 400.0 > 1000.0;
  }

  lemma {:induction false} BurstStart(start: real, end: real, bursts: int, k: int)
    requires start < end && 0 <= k < bursts
    ensures LinearTime(start, end, bursts, k) <= start + (bursts - 1) as real * ((end - start) / bursts as real)
  {
    var interval := (end - start) / bursts as real;
    Scaled(k as real, (bursts - 1) as real, interval);
  }

  lemma {:induction false} Scaled(a: real, b: real, w: real)
    requires a <= b && w >= 0.0
    ensures a * w <= b * w
  {
  }

  lemma {:induction false} BurstEnd(start: real, size: int, t: real)
    requires t in OneBurst(start, size)
    ensures t <= start + (size - 1) as real * 100.0
  {
    var burst := OneBurst(start, size);
    var i :| 0 <= i < |burst| && burst[i] == t;
  }

  lemma {:induction false} BurstBound(start: real, end: real, bursts: int, size: int, n: int, t: real)
    requires start < end && bursts >= 1 && size >= 1 && 0 <= n <= bursts
    requires t in Bursts(start, end, bursts, size, n)
    ensures t <= start + (bursts - 1) as real * ((end - start) / bursts as real) + (size - 1) as real * 100.0
  {
    var first := LinearTime(start, end, bursts, n - 1);
    if t in OneBurst(first, size) {
      BurstStart(start, end, bursts, n - 1);
      BurstEnd(first, size, t);
    } else {
      BurstBound(start, end, bursts, size, n - 1, t);
    }
  }
}
