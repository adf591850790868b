/** Function code distributions: bringing them to one format, and turning them into probabilities. */
module Distributions {
  import opened Collections
  import opened Text

  datatype Key = IntKey(n: int) | StrKey(s: string)

  /** A number, a dictionary with optional entries, or anything else, which is ignored. */
  datatype Value = Number(v: real) | Record(name: Option<string>, count: Option<real>, frequency: Option<real>) | Other

  type Raw = seq<(Key, Value)>

  datatype Entry = Entry(name: string, count: real, frequency: real)

  /** A dictionary in insertion order. */
  type Normalized = seq<(string, Entry)>

  function KeyText(k: Key): string {
    match k
    case StrKey(s) => s
    case IntKey(n) => if n < 0 then ['-'] + Decimal(-n) else Decimal(n)
  }

  /** `int(v)`, which truncates. */
  function Truncate(v: real): real {
    if v >= 0.0 then v.Floor as real else -((-v).Floor as real)
  }

  /** Sets a key, in place if it is there and at the end otherwise. */
  function Put(d: Normalized, key: string, e: Entry): Normalized {
    if d == [] then [(key, e)]
    else if d[0].0 == key then [(key, e)] + d[1..]
    else [d[0]] + Put(d[1..], key, e)
  }

  /** The entry the first pass makes of a value, with frequencies still missing. */
  function EntryFor(key: Key, v: Value): Option<Entry> {
    match v
    case Number(n) => Some(Entry("function_" + KeyText(key), Truncate(n), 0.0))
    case Record(name, count, frequency) =>
      var f := frequency.GetOr(0.0);
      var c := count.GetOr(0.0);
      Some(Entry(name.GetOr("function_" + KeyText(key)), if c == 0.0 && f > 0.0 then Truncate(f * 1000.0) else c, f))
    case Other => None
  }

  datatype Counted = Counted(entries: Normalized, total: real)

  function Count(raw: Raw): Counted {
    if raw == [] then Counted([], 0.0)
    else
      var before, (key, v) := Count(raw[..|raw| - 1]), raw[|raw| - 1];
      match EntryFor(key, v)
      case None => before
      case Some(e) => Counted(Put(before.entries, KeyText(key), e), before.total + e.count)
  }

  function Fill(e: Entry, total: real): Entry {
    if total > 0.0 && e.frequency == 0.0 then e.(frequency := e.count / total) else e
  }

  function FillAll(d: Normalized, total: real): (r: Normalized)
    ensures |r| == |d|
  {
    seq(|d|, i requires 0 <= i < |d| => (d[i].0, Fill(d[i].1, total)))
  }

  function Normalize(raw: Raw): Normalized {
    var counted := Count(raw);
    FillAll(counted.entries, counted.total)
  }

  method NormalizeDistribution(raw: Raw) returns (normalized: Normalized)
    ensures normalized == Normalize(raw)
  {
    normalized := [];
    var total := 0.0;
    for i := 0 to |raw|
      invariant Counted(normalized, total) == Count(raw[..i])
    {
      assert raw[..i + 1][..i] == raw[..i];
      var (key, v) := raw[i];
      var e := EntryFor(key, v);
      if e.Some? {
        normalized := Put(normalized, KeyText(key), e.value);
        total := total + e.value.count;
      }
    }
    assert raw[..|raw|] == raw;
    if total > 0.0 {
      ghost var counted := normalized;
      for i := 0 to |normalized|
        invariant |normalized| == |counted|
        invariant forall k :: 0 <= k < i ==> normalized[k] == FillAll(counted, total)[k]
        invariant forall k :: i <= k < |counted| ==> normalized[k] == counted[k]
      {
        var (key, e) := normalized[i];
        if e.frequency == 0.0 {
          normalized := normalized[i := (key, e.(frequency := e.count / total))];
        }
      }
      assert normalized == FillAll(counted, total);
    } else {
      assert normalized == FillAll(normalized, total);
    }
  }

  /* ---------- normalising twice ---------- */

  ghost predicate NonNegative(v: Value) {
    match v
    case Number(n) => n >= 0.0
    case Record(_, count, frequency) => count.GetOr(0.0) >= 0.0 && frequency.GetOr(0.0) >= 0.0
    case Other => true
  }

  /** A normalised distribution as input. */
  function AsRaw(d: Normalized): (r: Raw)
    ensures |r| == |d|
  {
    seq(|d|, i requires 0 <= i < |d| => (StrKey(d[i].0), RecordOf(d[i].1)))
  }

  ghost predicate DistinctKeys(d: Normalized) {
    forall i, j :: 0 <= i < j < |d| ==> d[i].0 != d[j].0
  }

  /** An entry the first pass would make again: no negative part, and no frequency left to estimate a count from. */
  ghost predicate Settled(e: Entry) {
    && e.count >= 0.0 && e.frequency >= 0.0
    && (e.count == 0.0 && e.frequency > 0.0 ==> Truncate(e.frequency * 1000.0) == 0.0)
  }

  lemma {:induction false} EntryIsSettled(key: Key, v: Value)
    requires NonNegative(v)
    ensures EntryFor(key, v).Some? ==> Settled(EntryFor(key, v).value)
  {
  }

  lemma {:induction false} PutFacts(d: Normalized, key: string, e: Entry)
    requires DistinctKeys(d)
    ensures DistinctKeys(Put(d, key, e))
    ensures forall x :: x in Put(d, key, e) ==> x == (key, e) || x in d
    ensures (forall x <- d :: x.0 != key) ==> Put(d, key, e) == d + [(key, e)]
  {
    if d != [] {
      PutFacts(d[1..], key, e);
      assert d == [d[0]] + d[1..];
      if d[0].0 != key {
        var r := Put(d[1..], key, e);
        forall j | 0 <= j < |r| ensures r[j].0 != d[0].0 {
          assert r[j] in r;
        }
      }
    }
  }

  lemma {:induction false} CountFacts(raw: Raw)
    requires forall x <- raw :: NonNegative(x.1)
    ensures var c := Count(raw);
            && DistinctKeys(c.entries) && c.total >= 0.0
            && forall x <- c.entries :: Settled(x.1) && x.1.count <= c.total
  {
    if raw != [] {
      var k := |raw| - 1;
      var (key, v) := raw[k];
      assert raw[k] in raw;
      CountFacts(raw[..k]);
      EntryIsSettled(key, v);
      if EntryFor(key, v).Some? {
        PutFacts(Count(raw[..k]).entries, KeyText(key), EntryFor(key, v).value);
      }
    }
  }

  function RecordOf(e: Entry): Value { Record(Some(e.name), Some(e.count), Some(e.frequency)) }

  lemma {:induction false} SettledIsRead(key: Key, e: Entry)
    requires Settled(e)
    ensures EntryFor(key, RecordOf(e)) == Some(e)
  {
  }

  lemma {:induction false} CountStep(raw: Raw, key: string, e: Entry)
    requires Settled(e)
    ensures var before := Count(raw);
            Count(raw + [(StrKey(key), RecordOf(e))]) == Counted(Put(before.entries, key, e), before.total + e.count)
  {
    assert (raw + [(StrKey(key), RecordOf(e))])[..|raw|] == raw;
    SettledIsRead(StrKey(key), e);
  }

  lemma {:induction false} KeyIsNew(d: Normalized)
    requires DistinctKeys(d) && d != []
    ensures forall x <- d[..|d| - 1] :: x.0 != d[|d| - 1].0
  {
    forall x | x in d[..|d| - 1] ensures x.0 != d[|d| - 1].0 {
      var i :| 0 <= i < |d| - 1 && d[i] == x;
    }
  }

  lemma {:induction false} AsRawSnoc(d: Normalized, key: string, e: Entry)
    ensures AsRaw(d + [(key, e)]) == AsRaw(d) + [(StrKey(key), RecordOf(e))]
  {
  }

  lemma {:induction false} CountAgainStep(d: Normalized, key: string, e: Entry)
    requires DistinctKeys(d) && (forall x <- d :: x.0 != key) && Settled(e) && Count(AsRaw(d)).entries == d
    ensures Count(AsRaw(d + [(key, e)])) == Counted(d + [(key, e)], Count(AsRaw(d)).total + e.count)
  {
    PutFacts(d, key, e);
    CountStep(AsRaw(d), key, e);
    AsRawSnoc(d, key, e);
  }

  /** Reading back entries that are settled gives the same entries. */
  lemma {:induction false} CountAgain(d: Normalized)
    requires DistinctKeys(d) && forall x <- d :: Settled(x.1)
    ensures Count(AsRaw(d)).entries == d
    ensures (forall x <- d :: x.1.count == 0.0) ==> Count(AsRaw(d)).total == 0.0
  {
    if d != [] {
      var before, last := d[..|d| - 1], d[|d| - 1];
      assert d == before + [last] && last in d;
      CountAgain(before);
      KeyIsNew(d);
      CountAgainStep(before, last.0, last.1);
    }
  }

  lemma {:induction false} FilledIsSettled(e: Entry, total: real)
    requires Settled(e) && e.count <= total
    ensures Settled(Fill(e, total))
    ensures Fill(e, total).frequency == 0.0 ==> e.count == 0.0
    ensures total == 0.0 ==> e.count == 0.0
  {
    if total > 0.0 && e.count > 0.0 { assert e.count / total > 0.0; }
  }

  /** Filling in frequencies leaves settled entries, and a zero frequency only beside a zero count. */
  lemma {:induction false} FilledFacts(entries: Normalized, total: real)
    requires DistinctKeys(entries) && total >= 0.0 && forall x <- entries :: Settled(x.1) && x.1.count <= total
    ensures DistinctKeys(FillAll(entries, total))
    ensures forall x <- FillAll(entries, total) :: Settled(x.1) && (x.1.frequency == 0.0 ==> x.1.count == 0.0)
    ensures total == 0.0 ==> forall x <- FillAll(entries, total) :: x.1.count == 0.0
  {
    var d := FillAll(entries, total);
    forall x | x in d
      ensures Settled(x.1) && (x.1.frequency == 0.0 ==> x.1.count == 0.0) && (total == 0.0 ==> x.1.count == 0.0)
    {
      var i :| 0 <= i < |d| && d[i] == x;
      assert entries[i] in entries;
      FilledIsSettled(entries[i].1, total);
    }
  }

  lemma {:induction false} FillNothing(d: Normalized, total: real)
    requires forall x <- d :: x.1.frequency == 0.0 ==> x.1.count == 0.0
    ensures FillAll(d, total) == d
  {
    forall i | 0 <= i < |d| ensures Fill(d[i].1, total) == d[i].1 {
      assert d[i] in d;
    }
  }

  /** Normalising is idempotent on counts and frequencies that are not negative. */
  lemma {:induction false} NormalizeIsIdempotent(raw: Raw)
    requires forall x <- raw :: NonNegative(x.1)
    ensures Normalize(AsRaw(Normalize(raw))) == Normalize(raw)
  {
    CountFacts(raw);
    var counted := Count(raw);
    FilledFacts(counted.entries, counted.total);
    var d := Normalize(raw);
    CountAgain(d);
    FillNothing(d, Count(AsRaw(d)).total);
  }

  /* ---------- what normalising amounts to ---------- */

  /** c is n without its fraction. */
  ghost predicate IsTruncated(c: real, n: real) {
    c == c.Floor as real && if n >= 0.0 then c <= n < c + 1.0 else c - 1.0 < n <= c
  }

  /** The entry of one item: a number is a count; a record without a count gets one from its frequency. */
  ghost predicate IsEntryOf(e: Entry, key: string, v: Value) {
    match v
    case Number(n) => e.name == "function_" + key && IsTruncated(e.count, n) && e.frequency == 0.0
    case Record(name, count, frequency) =>
      && e.name == (if name.Some? then name.value else "function_" + key)
      && e.frequency == (if frequency.Some? then frequency.value else 0.0)
      && (if count.Some? && count.value != 0.0 then e.count == count.value
          else if e.frequency > 0.0 then IsTruncated(e.count, e.frequency * 1000.0)
          else e.count == 0.0)
    case Other => false
  }

  lemma {:induction false} WholeReal(n: int)
    ensures (n as real).Floor == n
  {
  }

  lemma {:induction false} TruncateExactly(v: real)
    ensures IsTruncated(Truncate(v), v)
  {
    var n := if v >= 0.0 then v.Floor else -(-v).Floor;
    assert Truncate(v) == n as real;
    WholeReal(n);
  }

  lemma {:induction false} EntryExactly(key: Key, v: Value)
    ensures EntryFor(key, v).None? <==> v.Other?
    ensures EntryFor(key, v).Some? ==> IsEntryOf(EntryFor(key, v).value, KeyText(key), v)
  {
    match v
    case Number(n) => TruncateExactly(n);
    case Record(name, count, frequency) => TruncateExactly(frequency.GetOr(0.0) * 1000.0);
    case Other =>
  }

  /** A key as text: itself, or the number in digits behind its sign. */
  lemma {:induction false} KeyTextExactly(key: Key)
    ensures match key
            case StrKey(s) => KeyText(key) == s
            case IntKey(n) =>
              if n >= 0 then AllDigits(KeyText(key)) && Text.Value(KeyText(key)) == n
              else KeyText(key) != "" && KeyText(key)[0] == '-' && AllDigits(KeyText(key)[1..])
                     && Text.Value(KeyText(key)[1..]) == -n
  {
    if key.IntKey? {
      ValueOfDecimal(if key.n < 0 then -key.n else key.n);
    }
  }

  /** An item counts towards a key. */
  ghost predicate HasKey(raw: Raw, key: string, k: int) {
    0 <= k < |raw| && !raw[k].1.Other? && KeyText(raw[k].0) == key
  }

  ghost predicate IsLastItem(raw: Raw, key: string, k: int) {
    HasKey(raw, key, k) && forall i :: i > k ==> !HasKey(raw, key, i)
  }

  /** Some item counts towards key a, and none up to it counts towards b. */
  ghost predicate ComesBefore(raw: Raw, a: string, b: string) {
    exists k :: HasKey(raw, a, k) && forall i :: i <= k ==> !HasKey(raw, b, i)
  }

  /** The entries of the items, before frequencies are filled in. */
  ghost predicate AreEntries(d: Normalized, raw: Raw) {
    && DistinctKeys(d)
    && (forall i :: 0 <= i < |d| ==> IsEntryAt(d[i], raw))
    && (forall key, k :: HasKey(raw, key, k) ==> exists i :: 0 <= i < |d| && d[i].0 == key)
    && (forall i, j :: 0 <= i < j < |d| ==> ComesBefore(raw, d[i].0, d[j].0))
  }

  /** An entry under a key: what the last item that counts towards the key says. */
  ghost predicate IsEntryAt(x: (string, Entry), raw: Raw) {
    exists k :: IsLastItem(raw, x.0, k) && IsEntryOf(x.1, x.0, raw[k].1)
  }

  /** Where a key stands, if it does. */
  lemma {:induction false} PutExactly(d: Normalized, key: string, e: Entry)
    requires DistinctKeys(d)
    ensures if exists i :: 0 <= i < |d| && d[i].0 == key
            then exists i :: 0 <= i < |d| && d[i].0 == key && Put(d, key, e) == d[i := (key, e)]
            else Put(d, key, e) == d + [(key, e)]
  {
    if d != [] && d[0].0 != key {
      var rest := d[1..];
      PutExactly(rest, key, e);
      assert d == [d[0]] + rest;
      if i :| 0 <= i < |d| && d[i].0 == key {
        assert rest[i - 1].0 == key;
        var j :| 0 <= j < |rest| && rest[j].0 == key && Put(rest, key, e) == rest[j := (key, e)];
        assert d[j + 1].0 == key && d[j + 1 := (key, e)] == [d[0]] + rest[j := (key, e)];
      } else {
        forall j | 0 <= j < |rest| ensures rest[j].0 != key {
          assert d[j + 1] == rest[j];
        }
      }
    } else if d != [] {
      assert d[0].0 == key && d[0 := (key, e)] == [(key, e)] + d[1..];
    }
  }

  lemma {:induction false} HasKeyLonger(raw: Raw, item: (Key, Value), key: string)
    ensures forall k :: HasKey(raw + [item], key, k) <==>
              HasKey(raw, key, k) || (k == |raw| && !item.1.Other? && KeyText(item.0) == key)
  {
  }

  lemma {:induction false} EntryStays(x: (string, Entry), raw: Raw, item: (Key, Value))
    requires IsEntryAt(x, raw) && (item.1.Other? || KeyText(item.0) != x.0)
    ensures IsEntryAt(x, raw + [item])
  {
    HasKeyLonger(raw, item, x.0);
    var k :| IsLastItem(raw, x.0, k) && IsEntryOf(x.1, x.0, raw[k].1);
    assert IsLastItem(raw + [item], x.0, k);
  }

  lemma {:induction false} EntryReplaced(raw: Raw, item: (Key, Value), e: Entry)
    requires !item.1.Other? && IsEntryOf(e, KeyText(item.0), item.1)
    ensures IsEntryAt((KeyText(item.0), e), raw + [item])
  {
    HasKeyLonger(raw, item, KeyText(item.0));
    assert IsLastItem(raw + [item], KeyText(item.0), |raw|);
  }

  lemma {:induction false} OrderStays(raw: Raw, item: (Key, Value), a: string, b: string)
    requires ComesBefore(raw, a, b)
    ensures ComesBefore(raw + [item], a, b)
  {
    HasKeyLonger(raw, item, a);
    HasKeyLonger(raw, item, b);
    var k :| HasKey(raw, a, k) && forall i :: i <= k ==> !HasKey(raw, b, i);
    assert HasKey(raw + [item], a, k);
  }

  lemma {:induction false} OrderOfNew(raw: Raw, item: (Key, Value), a: string, b: string)
    requires (exists k :: HasKey(raw, a, k)) && forall k :: !HasKey(raw, b, k)
    ensures ComesBefore(raw + [item], a, b)
  {
    HasKeyLonger(raw, item, a);
    HasKeyLonger(raw, item, b);
    var k :| HasKey(raw, a, k);
    assert HasKey(raw + [item], a, k);
  }

  lemma {:induction false} EntriesSkip(d: Normalized, raw: Raw, item: (Key, Value))
    requires AreEntries(d, raw) && item.1.Other?
    ensures AreEntries(d, raw + [item])
  {
    forall i | 0 <= i < |d| ensures IsEntryAt(d[i], raw + [item]) {
      EntryStays(d[i], raw, item);
    }
    forall key, k | HasKey(raw + [item], key, k) ensures HasKey(raw, key, k) {
      HasKeyLonger(raw, item, key);
    }
    forall i, j | 0 <= i < j < |d| ensures ComesBefore(raw + [item], d[i].0, d[j].0) {
      OrderStays(raw, item, d[i].0, d[j].0);
    }
  }

  lemma {:induction false} KeysStay(d: Normalized, r: Normalized, raw: Raw, item: (Key, Value))
    requires AreEntries(d, raw) && |r| == |d| && forall i :: 0 <= i < |d| ==> r[i].0 == d[i].0
    requires item.1.Other? || exists i :: 0 <= i < |d| && d[i].0 == KeyText(item.0)
    ensures forall key, k :: HasKey(raw + [item], key, k) ==> exists i :: 0 <= i < |r| && r[i].0 == key
    ensures forall i, j :: 0 <= i < j < |r| ==> ComesBefore(raw + [item], r[i].0, r[j].0)
  {
    forall key, k | HasKey(raw + [item], key, k) ensures exists i :: 0 <= i < |r| && r[i].0 == key {
      HasKeyLonger(raw, item, key);
      var i :| 0 <= i < |d| && d[i].0 == key;
      assert r[i].0 == key;
    }
    forall i, j | 0 <= i < j < |r| ensures ComesBefore(raw + [item], r[i].0, r[j].0) {
      OrderStays(raw, item, d[i].0, d[j].0);
    }
  }

  lemma {:induction false} EntriesReplace(d: Normalized, raw: Raw, item: (Key, Value), e: Entry, at: nat)
    requires AreEntries(d, raw) && !item.1.Other? && IsEntryOf(e, KeyText(item.0), item.1)
    requires at < |d| && d[at].0 == KeyText(item.0)
    ensures AreEntries(d[at := (KeyText(item.0), e)], raw + [item])
  {
    var r := d[at := (KeyText(item.0), e)];
    KeysStay(d, r, raw, item);
    EntryReplaced(raw, item, e);
    forall i | 0 <= i < |r| ensures IsEntryAt(r[i], raw + [item]) {
      if i != at { EntryStays(d[i], raw, item); }
    }
  }

  lemma {:induction false} EntriesAppend(d: Normalized, raw: Raw, item: (Key, Value), e: Entry)
    requires AreEntries(d, raw) && !item.1.Other? && IsEntryOf(e, KeyText(item.0), item.1)
    requires forall i :: 0 <= i < |d| ==> d[i].0 != KeyText(item.0)
    ensures AreEntries(d + [(KeyText(item.0), e)], raw + [item])
  {
    var r, key := d + [(KeyText(item.0), e)], KeyText(item.0);
    EntryReplaced(raw, item, e);
    forall i | 0 <= i < |r| ensures IsEntryAt(r[i], raw + [item]) {
      if i < |d| { EntryStays(d[i], raw, item); }
    }
    forall other, k | HasKey(raw + [item], other, k) ensures exists i :: 0 <= i < |r| && r[i].0 == other {
      HasKeyLonger(raw, item, other);
      if other == key {
        assert r[|d|].0 == other;
      } else {
        var i :| 0 <= i < |d| && d[i].0 == other;
        assert r[i].0 == other;
      }
    }
    forall i, j | 0 <= i < j < |r| ensures ComesBefore(raw + [item], r[i].0, r[j].0) {
      if j < |d| {
        OrderStays(raw, item, d[i].0, d[j].0);
      } else {
        assert IsEntryAt(d[i], raw);
        OrderOfNew(raw, item, d[i].0, key);
      }
    }
  }

  ghost function SumOf(s: seq<real>): real { if s == [] then 0.0 else SumOf(s[..|s| - 1]) + s[|s| - 1] }

  /** The count of each item, whether or not a later one replaces it. */
  ghost predicate AreCounts(counts: seq<real>, raw: Raw) {
    && |counts| == |raw|
    && forall i :: 0 <= i < |raw| ==>
         if raw[i].1.Other? then counts[i] == 0.0
         else exists e :: IsEntryOf(e, KeyText(raw[i].0), raw[i].1) && counts[i] == e.count
  }

  lemma {:induction false} CountSnoc(raw: Raw, item: (Key, Value))
    ensures var before, entry := Count(raw), EntryFor(item.0, item.1);
            Count(raw + [item]) ==
              if entry.None? then before
              else Counted(Put(before.entries, KeyText(item.0), entry.value), before.total + entry.value.count)
  {
    assert (raw + [item])[..|raw|] == raw;
  }

  lemma {:induction false} EntriesSnoc(raw: Raw, item: (Key, Value))
    requires AreEntries(Count(raw).entries, raw)
    ensures AreEntries(Count(raw + [item]).entries, raw + [item])
  {
    CountSnoc(raw, item);
    EntriesNext(Count(raw).entries, raw, item, EntryFor(item.0, item.1));
  }

  lemma {:induction false} EntriesExactly(raw: Raw)
    ensures AreEntries(Count(raw).entries, raw)
  {
    if raw == [] {
      NoEntries();
    } else {
      var n := |raw| - 1;
      EntriesExactly(raw[..n]);
      EntriesSnoc(raw[..n], raw[n]);
      assert raw == raw[..n] + [raw[n]];
    }
  }

  lemma {:induction false} NoEntries()
    ensures AreEntries([], [])
  {
  }

  lemma {:induction false} CountsExactly(raw: Raw) returns (counts: seq<real>)
    ensures AreCounts(counts, raw) && Count(raw).total == SumOf(counts)
  {
    counts := [];
    if raw != [] {
      var n := |raw| - 1;
      counts := CountsExactly(raw[..n]);
      counts := CountsNext(counts, raw[..n], raw[n], EntryFor(raw[n].0, raw[n].1));
      CountSnoc(raw[..n], raw[n]);
      assert raw == raw[..n] + [raw[n]];
    }
  }

  lemma {:induction false} EntriesNext(d: Normalized, raw: Raw, item: (Key, Value), entry: Option<Entry>)
    requires AreEntries(d, raw) && entry == EntryFor(item.0, item.1)
    ensures AreEntries(if entry.None? then d else Put(d, KeyText(item.0), entry.value), raw + [item])
  {
    EntryExactly(item.0, item.1);
    if entry.None? {
      EntriesSkip(d, raw, item);
    } else {
      var key := KeyText(item.0);
      PutExactly(d, key, entry.value);
      if exists i :: 0 <= i < |d| && d[i].0 == key {
        var i :| 0 <= i < |d| && d[i].0 == key && Put(d, key, entry.value) == d[i := (key, entry.value)];
        EntriesReplace(d, raw, item, entry.value, i);
      } else {
        EntriesAppend(d, raw, item, entry.value);
      }
    }
  }

  lemma {:induction false} CountsNext(counts: seq<real>, raw: Raw, item: (Key, Value), entry: Option<Entry>)
    returns (more: seq<real>)
    requires AreCounts(counts, raw) && entry == EntryFor(item.0, item.1)
    ensures AreCounts(more, raw + [item])
    ensures SumOf(more) == SumOf(counts) + if entry.Some? then entry.value.count else 0.0
  {
    EntryExactly(item.0, item.1);
    more := counts + [if entry.Some? then entry.value.count else 0.0];
    assert more[..|counts|] == counts;
  }

  /** An entry with its frequency: its own, or its share of the total where it has none. */
  ghost predicate IsFilled(x: (string, Entry), y: (string, Entry), total: real) {
    && x.0 == y.0 && x.1.name == y.1.name && x.1.count == y.1.count
    && if y.1.frequency == 0.0 && total > 0.0 then x.1.frequency * total == y.1.count
       else x.1.frequency == y.1.frequency
  }

  lemma {:induction false} FillExactly(key: string, e: Entry, total: real)
    ensures IsFilled((key, Fill(e, total)), (key, e), total)
  {
  }

  /**
    The normalised distribution of any input: an entry for every key, in order of
    first appearance, as its last item says, and its frequency filled in from the
    counts of all items together.
   */
  lemma {:induction false} NormalizeExactly(raw: Raw)
    ensures exists entries, counts ::
              && AreEntries(entries, raw) && AreCounts(counts, raw) && |Normalize(raw)| == |entries|
              && forall i :: 0 <= i < |entries| ==> IsFilled(Normalize(raw)[i], entries[i], SumOf(counts))
  {
    var counts := CountsExactly(raw);
    EntriesExactly(raw);
    var entries := Count(raw).entries;
    forall i | 0 <= i < |entries| ensures IsFilled(Normalize(raw)[i], entries[i], SumOf(counts)) {
      FillExactly(entries[i].0, entries[i].1, SumOf(counts));
    }
  }

  /* ---------- probabilities ---------- */

  ghost function Sum<K>(m: map<K, real>): real {
    if m.Keys == {} then 0.0
    else
      var k :| k in m.Keys;
      m[k] + Sum(m - {k})
  }

  lemma {:induction false} SumMinus<K>(m: map<K, real>, k: K)
    requires k in m
    ensures Sum(m) == m[k] + Sum(m - {k})
  {
    var j :| j in m.Keys && Sum(m) == m[j] + Sum(m - {j});
    if j != k {
      SumMinus(m - {j}, k);
      assert m - {j} - {k} == m - {k} - {j};
      SumMinus(m - {k}, j);
    }
  }

  lemma {:induction false} SumScaled<K>(m: map<K, real>, s: map<K, real>, total: real)
    requires total > 0.0 && s.Keys == m.Keys && forall k <- m :: s[k] == m[k] / total
    ensures Sum(s) == Sum(m) / total
    decreases m
  {
    if m.Keys != {} {
      var k :| k in m.Keys;
      SumMinus(m, k);
      SumMinus(s, k);
      SumScaled(m - {k}, s - {k}, total);
      DivideSum(m[k], Sum(m - {k}), total);
    }
  }

  lemma {:induction false} DivideSum(a: real, b: real, t: real)
    requires t > 0.0
    ensures (a + b) / t == a / t + b / t
  {
  }

  lemma {:induction false} Divide(t: real)
    requires t > 0.0
    ensures t / t == 1.0
  {
  }

  ghost predicate AllPositive<K>(m: map<K, real>) { forall k <- m :: m[k] > 0.0 }

  lemma {:induction false} SumPositive<K>(m: map<K, real>)
    requires AllPositive(m)
    ensures Sum(m) >= 0.0 && (m.Keys != {} ==> Sum(m) > 0.0)
    decreases m
  {
    if m.Keys != {} {
      var k :| k in m.Keys;
      SumMinus(m, k);
      SumPositive(m - {k});
    }
  }

  /** The positive frequencies by function code; `parse` is the conversion of a key to an integer. */
  function Weights(d: Normalized, parse: string -> Option<int>): map<int, real> {
    if d == [] then map[]
    else
      var before, (key, e) := Weights(d[..|d| - 1], parse), d[|d| - 1];
      if parse(key).Some? && e.frequency > 0.0 then before[parse(key).value := e.frequency] else before
  }

  lemma {:induction false} WeightsPositive(d: Normalized, parse: string -> Option<int>)
    ensures AllPositive(Weights(d, parse))
  {
    if d != [] { WeightsPositive(d[..|d| - 1], parse); }
  }

  /** Weights scaled to add up to one. */
  ghost function Scaled(weights: map<int, real>): map<int, real> {
    if Sum(weights) > 0.0 then map k | k in weights :: weights[k] / Sum(weights) else weights
  }

  ghost function Probabilities(raw: Raw, parse: string -> Option<int>): map<int, real> {
    Scaled(Weights(Normalize(raw), parse))
  }

  lemma {:induction false} ScaledSumsToOne(weights: map<int, real>)
    requires AllPositive(weights)
    ensures var p := Scaled(weights);
            p.Keys == weights.Keys && (p.Keys != {} ==> Sum(p) == 1.0 && AllPositive(p))
  {
    SumPositive(weights);
    var total := Sum(weights);
    if weights.Keys != {} {
      SumScaled(weights, Scaled(weights), total);
      Divide(total);
      forall k | k in weights ensures weights[k] / total > 0.0 {
      }
    }
  }

  /** Whatever the input, the probabilities extracted are none, or positive numbers that add up to one. */
  lemma {:induction false} ProbabilitiesSumToOne(raw: Raw, parse: string -> Option<int>)
    ensures var p := Probabilities(raw, parse);
            && p.Keys == Weights(Normalize(raw), parse).Keys
            && (p.Keys != {} ==> Sum(p) == 1.0 && AllPositive(p))
  {
    WeightsPositive(Normalize(raw), parse);
    ScaledSumsToOne(Weights(Normalize(raw), parse));
  }

  /** The last entry of a function code whose frequency is positive. */
  ghost predicate IsLastWeight(d: Normalized, parse: string -> Option<int>, code: int, k: int) {
    && 0 <= k < |d| && parse(d[k].0) == Some(code) && d[k].1.frequency > 0.0
    && forall i :: k < i < |d| && parse(d[i].0) == Some(code) ==> d[i].1.frequency <= 0.0
  }

  lemma {:induction false} WeightsExactly(d: Normalized, parse: string -> Option<int>, code: int)
    ensures code in Weights(d, parse) <==> exists k :: IsLastWeight(d, parse, code, k)
    ensures forall k :: IsLastWeight(d, parse, code, k) ==>
              code in Weights(d, parse) && Weights(d, parse)[code] == d[k].1.frequency
  {
    if d != [] {
      var n := |d| - 1;
      WeightsExactly(d[..n], parse, code);
      if parse(d[n].0) == Some(code) && d[n].1.frequency > 0.0 {
        assert IsLastWeight(d, parse, code, n);
      } else {
        forall k ensures IsLastWeight(d, parse, code, k) <==> IsLastWeight(d[..n], parse, code, k) {
        }
      }
    }
  }

  lemma {:induction false} Proportion(a: real, b: real, t: real)
    requires t > 0.0
    ensures (a / t) * b == (b / t) * a
  {
    var q := a / t;
    assert a == q * t;
    assert (b / t) * a == (b / t) * t * q;
  }

  lemma {:induction false} ScaledInProportion(w: map<int, real>, a: int, b: int)
    requires AllPositive(w) && a in w && b in w
    ensures a in Scaled(w) && b in Scaled(w) && Scaled(w)[a] * w[b] == Scaled(w)[b] * w[a]
  {
    SumPositive(w);
    ScaledAt(w, a);
    ScaledAt(w, b);
    Proportion(w[a], w[b], Sum(w));
  }

  lemma {:induction false} ScaledAt(w: map<int, real>, a: int)
    requires Sum(w) > 0.0 && a in w
    ensures a in Scaled(w) && Scaled(w)[a] == w[a] / Sum(w)
  {
  }

  /** Two codes' values are in proportion to their frequencies; a has one exactly where it has a positive frequency. */
  ghost predicate AreInProportion(p: map<int, real>, d: Normalized, parse: string -> Option<int>, a: int, b: int) {
    && (a in p <==> exists k :: IsLastWeight(d, parse, a, k))
    && forall k, m :: IsLastWeight(d, parse, a, k) && IsLastWeight(d, parse, b, m) ==>
         HaveProportion(p, a, d[k].1.frequency, b, d[m].1.frequency)
  }

  ghost predicate HaveProportion(p: map<int, real>, a: int, x: real, b: int, y: real) {
    a in p && b in p && p[a] * y == p[b] * x
  }

  lemma {:induction false} InProportion(w: map<int, real>, a: int, b: int)
    requires AllPositive(w) && a in w && b in w
    ensures HaveProportion(Scaled(w), a, w[a], b, w[b])
  {
    ScaledInProportion(w, a, b);
  }

  lemma {:induction false} ScaledKeys(w: map<int, real>)
    ensures Scaled(w).Keys == w.Keys
  {
  }

  lemma {:induction false} ScaledExactly(d: Normalized, parse: string -> Option<int>, a: int, b: int)
    ensures AreInProportion(Scaled(Weights(d, parse)), d, parse, a, b)
  {
    var w := Weights(d, parse);
    WeightsExactly(d, parse, a);
    WeightsExactly(d, parse, b);
    WeightsPositive(d, parse);
    ScaledKeys(w);
    if a in w && b in w { InProportion(w, a, b); }
  }

  /** Which codes get a probability, and that these are in proportion to the frequencies. */
  lemma {:induction false} ProbabilitiesExactly(raw: Raw, parse: string -> Option<int>, a: int, b: int)
    ensures AreInProportion(Probabilities(raw, parse), Normalize(raw), parse, a, b)
  {
    ScaledExactly(Normalize(raw), parse, a, b);
  }

  method SumValues<K(==)>(m: map<K, real>) returns (total: real)
    ensures total == Sum(m)
  {
    total := 0.0;
    var rest := m;
    assert rest == m;
    while rest.Keys != {}
      invariant total + Sum(rest) == Sum(m)
      decreases rest
    {
      var k :| k in rest.Keys;
      SumMinus(rest, k);
      total := total + rest[k];
      rest := rest - {k};
    }
  }

  method ExtractProbabilities(raw: Raw, parse: string -> Option<int>) returns (probabilities: map<int, real>)
    ensures probabilities == Probabilities(raw, parse)
  {
    var normalized := NormalizeDistribution(raw);
    probabilities := map[];
    for i := 0 to |normalized|
      invariant probabilities == Weights(normalized[..i], parse)
    {
      assert normalized[..i + 1][..i] == normalized[..i];
      var (key, e) := normalized[i];
      var code := parse(key);
      if code.Some? && e.frequency > 0.0 {
        probabilities := probabilities[code.value := e.frequency];
      }
    }
    assert normalized[..|normalized|] == normalized;
    var total := SumValues(probabilities);
    if total > 0.0 {
      probabilities := map k | k in probabilities :: probabilities[k] / total;
    }
  }
}
