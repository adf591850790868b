/** Cleaning, applying and de-duplicating device names. */
module DeviceNamer {
  import opened Collections
  import opened Text

  /** A device dictionary, whose name may be missing. */
  datatype Device = Device(id: string, name: Option<string>)

  function NameOf(d: Device): (r: string)
    ensures d.name == Some(r) || (d.name.None? && r == "Device")
  {
    d.name.GetOr("Device")
  }

  function NamesOf(devices: seq<Device>): (r: seq<string>)
    ensures |r| == |devices|
  {
    seq(|devices|, i requires 0 <= i < |devices| => NameOf(devices[i]))
  }

  /* ---------- cleaning ---------- */

  predicate IsSeparator(c: char) { IsSpace(c) || c == '-' }

  predicate IsWordChar(c: char) { 'a' <= c <= 'z' || 'A' <= c <= 'Z' || '0' <= c <= '9' || c == '_' }

  /** Every run of separators becomes one underscore. */
  function JoinWords(s: string, inRun: bool): string {
    if s == [] then []
    else if IsSeparator(s[0]) then (if inRun then [] else ['_']) + JoinWords(s[1..], true)
    else [s[0]] + JoinWords(s[1..], false)
  }

  function CleanName(s: string): string {
    var cleaned := Keep((c: char) => IsWordChar(c), JoinWords(s, false));
    if |cleaned| > 50 then cleaned[..50] else cleaned
  }

  lemma {:induction false} JoinWordsOfClean(s: string)
    requires forall c <- s :: IsWordChar(c)
    ensures JoinWords(s, false) == s
  {
    if s != [] {
      assert IsWordChar(s[0]);
      JoinWordsOfClean(s[1..]);
    }
  }

  /** A cleaned name is at most 50 letters, digits and underscores, and cleaning it again changes nothing. */
  lemma {:induction false} CleanNameIsClean(s: string)
    ensures var r := CleanName(s);
            |r| <= 50 && (forall c <- r :: IsWordChar(c)) && CleanName(r) == r
  {
    var p := (c: char) => IsWordChar(c);
    KeepSubset(p, JoinWords(s, false));
    var r := CleanName(s);
    assert forall c <- r :: c in Keep(p, JoinWords(s, false));
    JoinWordsOfClean(r);
    KeepAll(p, r);
  }

  /** Whether the character at i leaves one in the cleaned name: a word character, or the first separator of a run. */
  ghost predicate Contributes(s: string, i: nat)
    requires i < |s|
  {
    if IsSeparator(s[i]) then i == 0 || !IsSeparator(s[i - 1]) else IsWordChar(s[i])
  }

  ghost predicate AreCleaned(r: string, s: string, ks: seq<nat>) {
    && Rising(ks, |s|) && |r| == |ks|
    && (forall m :: 0 <= m < |ks| ==> r[m] == if IsSeparator(s[ks[m]]) then '_' else s[ks[m]])
    && forall k :: 0 <= k < |s| ==> (k in ks <==> Contributes(s, k))
  }

  /** What the next character adds, given whether a run of separators is under way. */
  function Added(c: char, inRun: bool): string {
    if IsSeparator(c) then (if inRun then [] else ['_']) else [c]
  }

  function EndsInRun(s: string, inRun: bool): bool { if s == [] then inRun else IsSeparator(s[|s| - 1]) }

  lemma {:induction false} JoinStep(c: char, s: string, inRun: bool)
    ensures JoinWords([c] + s, inRun) == Added(c, inRun) + JoinWords(s, IsSeparator(c))
  {
    assert ([c] + s)[1..] == s;
  }

  lemma {:induction false} JoinSnoc(s: string, c: char, inRun: bool)
    ensures JoinWords(s + [c], inRun) == JoinWords(s, inRun) + Added(c, EndsInRun(s, inRun))
  {
    if s == [] {
      JoinStep(c, [], inRun);
      assert [] + [c] == [c] + [] && JoinWords([], IsSeparator(c)) == [];
    } else {
      JoinSnoc(s[1..], c, IsSeparator(s[0]));
      JoinInFront(s[0], s[1..], c, inRun);
      assert s == [s[0]] + s[1..];
    }
  }

  lemma {:induction false} JoinInFront(b: char, s: string, c: char, inRun: bool)
    requires JoinWords(s + [c], IsSeparator(b)) == JoinWords(s, IsSeparator(b)) + Added(c, EndsInRun(s, IsSeparator(b)))
    ensures var all := [b] + s;
            JoinWords(all + [c], inRun) == JoinWords(all, inRun) + Added(c, EndsInRun(all, inRun))
  {
    JoinStep(b, s, inRun);
    JoinStep(b, s + [c], inRun);
    assert ([b] + s) + [c] == [b] + (s + [c]);
    assert s != [] ==> ([b] + s)[|s|] == s[|s| - 1];
  }

  lemma {:induction false} AddedKept(s: string, c: char)
    ensures Keep((x: char) => IsWordChar(x), Added(c, EndsInRun(s, false))) ==
              if !Contributes(s + [c], |s|) then [] else if IsSeparator(c) then ['_'] else [c]
  {
    var p := (x: char) => IsWordChar(x);
    var added := Added(c, EndsInRun(s, false));
    assert (s + [c])[|s|] == c && (s != [] ==> (s + [c])[|s| - 1] == s[|s| - 1]);
    if added != [] {
      assert added[1..] == [] && Keep(p, added[1..]) == [];
      assert [added[0]] + [] == added;
    }
  }

  lemma {:induction false} CleanedSnoc(r: string, s: string, ks: seq<nat>, c: char, added: string)
    returns (more: seq<nat>)
    requires AreCleaned(r, s, ks)
    requires added == if !Contributes(s + [c], |s|) then [] else if IsSeparator(c) then ['_'] else [c]
    ensures AreCleaned(r + added, s + [c], more)
  {
    RisingSnoc(ks, |s|);
    forall k | 0 <= k < |s| ensures Contributes(s + [c], k) == Contributes(s, k) {
      assert k > 0 ==> (s + [c])[k - 1] == s[k - 1];
    }
    more := if Contributes(s + [c], |s|) then ks + [|s|] else ks;
  }

  lemma {:induction false} CleanedPositions(s: string) returns (ks: seq<nat>)
    ensures AreCleaned(Keep((x: char) => IsWordChar(x), JoinWords(s, false)), s, ks)
  {
    ks := [];
    if s != [] {
      var n := |s| - 1;
      ks := CleanedPositions(s[..n]);
      AddedKept(s[..n], s[n]);
      ks := CleanedSnoc(Keep((x: char) => IsWordChar(x), JoinWords(s[..n], false)), s[..n], ks, s[n],
                        Keep((x: char) => IsWordChar(x), Added(s[n], EndsInRun(s[..n], false))));
      JoinSnoc(s[..n], s[n], false);
      KeepConcat((x: char) => IsWordChar(x), JoinWords(s[..n], false), Added(s[n], EndsInRun(s[..n], false)));
      assert s == s[..n] + [s[n]];
    }
  }

  /** A cleaned name: the word characters, with one underscore for each run of separators, cut at 50. */
  lemma {:induction false} CleanNameExactly(s: string)
    ensures exists whole, ks :: AreCleaned(whole, s, ks) && CleanName(s) == whole[..Min(50, |whole|)]
  {
    var ks := CleanedPositions(s);
    var whole := Keep((x: char) => IsWordChar(x), JoinWords(s, false));
    assert AreCleaned(whole, s, ks) && CleanName(s) == whole[..Min(50, |whole|)];
  }

  /* ---------- applying a mapping ---------- */

  method ApplyNameMappings(devices: seq<Device>, names: map<string, string>) returns (r: seq<Device>)
    ensures |r| == |devices|
    ensures forall i :: 0 <= i < |r| ==>
      r[i].id == devices[i].id
        && r[i].name == if devices[i].id in names then Some(names[devices[i].id]) else devices[i].name
  {
    r := [];
    for i := 0 to |devices|
      invariant |r| == i
      invariant forall k :: 0 <= k < i ==>
        r[k].id == devices[k].id
          && r[k].name == if devices[k].id in names then Some(names[devices[k].id]) else devices[k].name
    {
      var device := devices[i];
      if device.id in names {
        device := device.(name := Some(names[device.id]));
      }
      r := r + [device];
    }
  }

  /* ---------- making names unique ---------- */

  /** How often a name occurs among the first n. */
  function Occurrences(names: seq<string>, name: string, n: nat): (k: nat)
    requires n <= |names|
    ensures k <= n
  {
    if n == 0 then 0 else Occurrences(names, name, n - 1) + if names[n - 1] == name then 1 else 0
  }

  function Suffixed(name: string, k: nat): string { name + ['_'] + Decimal(k) }

  /** The name device i ends up with. */
  function FinalName(names: seq<string>, i: nat): string
    requires i < |names|
  {
    var k := Occurrences(names, names[i], i);
    if k == 0 then names[i] else Suffixed(names[i], k + 1)
  }

  /** What `seen` holds after the first i devices. */
  ghost predicate Counts(seen: map<string, nat>, names: seq<string>, i: nat)
    requires i <= |names|
  {
    forall n :: (n in seen <==> Occurrences(names, n, i) > 0) && (n in seen ==> seen[n] == Occurrences(names, n, i))
  }

  /** Device i after the loop: renamed unless its name is seen for the first time. */
  ghost predicate IsUnique(r: Device, d: Device, names: seq<string>, i: nat)
    requires i < |names|
  {
    && r.id == d.id && NameOf(r) == FinalName(names, i)
    && (Occurrences(names, names[i], i) == 0 ==> r == d)
  }

  ghost predicate UniqueSoFar(r: seq<Device>, devices: seq<Device>, names: seq<string>, i: nat)
    requires i <= |devices| == |names|
  {
    |r| == i && forall k :: 0 <= k < i ==> IsUnique(r[k], devices[k], names, k)
  }

  method EnsureUniqueNames(devices: seq<Device>) returns (r: seq<Device>)
    ensures |r| == |devices|
    ensures forall i :: 0 <= i < |r| ==> IsUnique(r[i], devices[i], NamesOf(devices), i)
  {
    ghost var names := NamesOf(devices);
    var seen: map<string, nat> := map[];
    r := [];
    NothingSeen(names);
    for i := 0 to |devices|
      invariant Counts(seen, names, i) && UniqueSoFar(r, devices, names, i)
    {
      var device;
      device, seen := UniqueName(devices[i], seen, names, i);
      UniqueSnoc(r, devices, names, i, device);
      r := r + [device];
    }
  }

  lemma {:induction false} NothingSeen(names: seq<string>)
    ensures Counts(map[], names, 0)
  {
  }

  lemma {:induction false} UniqueSnoc(r: seq<Device>, devices: seq<Device>, names: seq<string>, i: nat, d: Device)
    requires i < |devices| == |names| && UniqueSoFar(r, devices, names, i) && IsUnique(d, devices[i], names, i)
    ensures UniqueSoFar(r + [d], devices, names, i + 1)
  {
  }

  /** The body of the loop. */
  method UniqueName(d: Device, seen: map<string, nat>, ghost names: seq<string>, ghost i: nat)
    returns (r: Device, newSeen: map<string, nat>)
    requires i < |names| && NameOf(d) == names[i] && Counts(seen, names, i)
    ensures IsUnique(r, d, names, i) && Counts(newSeen, names, i + 1)
  {
    r := d;
    var name := NameOf(d);
    if name in seen {
      newSeen := seen[name := seen[name] + 1];
      r := r.(name := Some(Suffixed(name, newSeen[name])));
    } else {
      newSeen := seen[name := 1];
    }
  }

  lemma {:induction false} OccurrencesGrow(names: seq<string>, name: string, m: nat, n: nat)
    requires m <= n <= |names|
    ensures Occurrences(names, name, m) <= Occurrences(names, name, n)
  {
    if m < n { OccurrencesGrow(names, name, m, n - 1); }
  }

  /** The k-th occurrence of a name. */
  lemma {:induction false} KthOccurrence(names: seq<string>, name: string, k: nat, n: nat) returns (i: nat)
    requires n <= |names| && 1 <= k <= Occurrences(names, name, n)
    ensures i < n && names[i] == name && Occurrences(names, name, i) == k - 1
  {
    if k <= Occurrences(names, name, n - 1) {
      i := KthOccurrence(names, name, k, n - 1);
    } else {
      i := n - 1;
    }
  }

  /** Some input name is one the loop hands out to a repeated name. */
  ghost predicate Clash(names: seq<string>) {
    exists i, j, k :: ClashAt(names, i, j, k)
  }

  ghost predicate ClashAt(names: seq<string>, i: int, j: int, k: nat) {
    && 0 <= i < |names| && 0 <= j < |names|
    && 2 <= k <= Occurrences(names, names[j], |names|)
    && names[i] == Suffixed(names[j], k)
  }

  lemma {:induction false} SuffixInjective(a: string, k: nat, b: string, m: nat)
    requires Suffixed(a, k) == Suffixed(b, m)
    ensures a == b && k == m
  {
    DigitsHaveNoUnderscore(k);
    DigitsHaveNoUnderscore(m);
    LastCutUnique(a, b, Decimal(k), Decimal(m), '_');
    DecimalInjective(k, m);
  }

  lemma {:induction false} DigitsHaveNoUnderscore(k: nat)
    ensures '_' !in Decimal(k)
  {
  }

  lemma {:induction false} EqualFinalNames(names: seq<string>, i: nat, j: nat)
    requires i < j < |names| && FinalName(names, i) == FinalName(names, j)
    ensures Clash(names)
  {
    var ki, kj := Occurrences(names, names[i], i), Occurrences(names, names[j], j);
    OccurrencesGrow(names, names[i], i + 1, |names|);
    OccurrencesGrow(names, names[j], j + 1, |names|);
    OccurrencesGrow(names, names[i], i + 1, j);
    if ki > 0 && kj > 0 {
      SuffixInjective(names[i], ki + 1, names[j], kj + 1);
    } else if kj > 0 {
      assert ClashAt(names, i, j, kj + 1);
    } else if ki > 0 {
      assert ClashAt(names, j, i, ki + 1);
    }
  }

  /** The resulting names are pairwise distinct exactly when no input name is one the loop hands out. */
  lemma {:induction false} UniqueExactly(names: seq<string>)
    ensures (forall i, j :: 0 <= i < j < |names| ==> FinalName(names, i) != FinalName(names, j)) <==> !Clash(names)
  {
    if Clash(names) {
      var i, j, k :| ClashAt(names, i, j, k);
      OccurrencesGrow(names, names[i], i + 1, |names|);
      var first := KthOccurrence(names, names[i], 1, |names|);
      var kth := KthOccurrence(names, names[j], k, |names|);
      assert |names[i]| > |names[j]|;
      assert FinalName(names, first) == names[i] == FinalName(names, kth);
    } else {
      forall i, j | 0 <= i < j < |names| ensures FinalName(names, i) != FinalName(names, j) {
        if FinalName(names, i) == FinalName(names, j) { EqualFinalNames(names, i, j); }
      }
    }
  }

  /** Two devices called A and one called A_2 become A, A_2 and A_2. */
  lemma {:induction false} SuffixCollides()
    ensures var names := ["A", "A", "A_2"];
            FinalName(names, 1) == FinalName(names, 2) == "A_2"
  {
    var names := ["A", "A", "A_2"];
    assert names[0] == names[1] == "A" && names[2] != "A";
    assert Occurrences(names, "A", 0) == 0 && Occurrences(names, "A", 1) == 1;
    assert Occurrences(names, "A_2", 0) == 0 && Occurrences(names, "A_2", 1) == 0 && Occurrences(names, "A_2", 2) == 0;
    assert Decimal(2) == "2" && "A" + ['_'] + "2" == "A_2";
  }
}
