/** Firmware versions, and the audit of CVEs against the templates that can emit them. */
module Versions {
  import opened Collections
  import opened Text

  type Version = Option<seq<nat>>

  /* ---------- reading versions ---------- */

  function LeadingDigits(s: string): (k: nat)
    ensures k <= |s|
    ensures s != [] && IsDigit(s[0]) ==> k > 0
  {
    if s == [] || !IsDigit(s[0]) then 0 else 1 + LeadingDigits(s[1..])
  }

  /** The numbers in a text, left to right. */
  function Numbers(s: string): seq<nat>
    decreases |s|
  {
    if s == [] then []
    else if IsDigit(s[0]) then [Value(s[..LeadingDigits(s)])] + Numbers(s[LeadingDigits(s)..])
    else Numbers(s[1..])
  }

  /** The first three numbers of a version text, if it has any. */
  function Parse(text: Option<string>): Version {
    if text.GetOr("") == "" then None
    else
      var nums := Numbers(text.value);
      if nums == [] then None else Some(if |nums| > 3 then nums[..3] else nums)
  }

  /** Runs of digits with gaps around them. */
  function Laid(gaps: seq<string>, runs: seq<string>): string
    requires |gaps| == |runs| + 1
  {
    if runs == [] then gaps[0] else gaps[0] + runs[0] + Laid(gaps[1..], runs[1..])
  }

  /** The runs cannot be longer: no gap holds a digit, and none between two runs is empty. */
  ghost predicate AreRuns(gaps: seq<string>, runs: seq<string>) {
    && |gaps| == |runs| + 1
    && (forall i :: 0 <= i < |gaps| ==> forall c <- gaps[i] :: !IsDigit(c))
    && (forall i :: 0 < i < |runs| ==> gaps[i] != "")
    && forall i :: 0 <= i < |runs| ==> runs[i] != "" && AllDigits(runs[i])
  }

  /** A text cut into its runs of digits, and the numbers these denote. */
  ghost predicate ReadsAs(s: string, nums: seq<nat>, gaps: seq<string>, runs: seq<string>) {
    && AreRuns(gaps, runs) && s == Laid(gaps, runs) && |nums| == |runs|
    && forall i :: 0 <= i < |runs| ==> nums[i] == Value(runs[i])
  }

  lemma {:induction false} LeadingAreDigits(s: string)
    ensures AllDigits(s[..LeadingDigits(s)])
    ensures LeadingDigits(s) < |s| ==> !IsDigit(s[LeadingDigits(s)])
  {
    if s != [] && IsDigit(s[0]) {
      LeadingAreDigits(s[1..]);
      assert s[..LeadingDigits(s)] == [s[0]] + s[1..][..LeadingDigits(s[1..])];
    }
  }

  lemma {:induction false} FirstRun(s: string, nums: seq<nat>, gaps: seq<string>, runs: seq<string>)
    requires ReadsAs(s, nums, gaps, runs) && runs != []
    ensures s != "" && (gaps[0] == "" ==> IsDigit(s[0]))
  {
    assert s == gaps[0] + runs[0] + Laid(gaps[1..], runs[1..]);
    assert runs[0][0] in runs[0];
    if gaps[0] == "" { assert s[0] == runs[0][0]; }
  }

  lemma {:induction false} RunInFront(run: string, s: string, nums: seq<nat>, gaps: seq<string>, runs: seq<string>)
    requires ReadsAs(s, nums, gaps, runs) && run != "" && AllDigits(run) && (s != "" ==> !IsDigit(s[0]))
    ensures ReadsAs(run + s, [Value(run)] + nums, [""] + gaps, [run] + runs)
  {
    var gs, rs := [""] + gaps, [run] + runs;
    assert gs[1..] == gaps && rs[1..] == runs;
    assert Laid(gs, rs) == "" + run + Laid(gaps, runs);
    if runs != [] { FirstRun(s, nums, gaps, runs); }
  }

  lemma {:induction false} GapInFront(c: char, s: string, nums: seq<nat>, gaps: seq<string>, runs: seq<string>)
    requires ReadsAs(s, nums, gaps, runs) && !IsDigit(c)
    ensures ReadsAs([c] + s, nums, [[c] + gaps[0]] + gaps[1..], runs)
  {
    var gs := [[c] + gaps[0]] + gaps[1..];
    assert gs[1..] == gaps[1..];
    if runs == [] {
      assert [c] + s == gs[0];
    } else {
      assert [c] + (gaps[0] + runs[0] + Laid(gaps[1..], runs[1..])) == gs[0] + runs[0] + Laid(gs[1..], runs[1..]);
    }
  }

  lemma {:induction false} RunsOf(s: string) returns (gaps: seq<string>, runs: seq<string>)
    ensures ReadsAs(s, Numbers(s), gaps, runs)
    decreases |s|
  {
    if s == [] {
      gaps, runs := [""], [];
    } else if IsDigit(s[0]) {
      var k := LeadingDigits(s);
      LeadingAreDigits(s);
      gaps, runs := RunsOf(s[k..]);
      RunInFront(s[..k], s[k..], Numbers(s[k..]), gaps, runs);
      assert s == s[..k] + s[k..];
      gaps, runs := [""] + gaps, [s[..k]] + runs;
    } else {
      gaps, runs := RunsOf(s[1..]);
      GapInFront(s[0], s[1..], Numbers(s[1..]), gaps, runs);
      assert s == [s[0]] + s[1..];
      gaps := [[s[0]] + gaps[0]] + gaps[1..];
    }
  }

  /** A version text is read as the numbers of its first three runs of digits, and as unknown if it has none. */
  lemma {:induction false} ParseExactly(text: Option<string>)
    ensures text == None ==> Parse(text) == None
    ensures text.Some? ==> exists nums: seq<nat>, gaps: seq<string>, runs: seq<string> ::
              && ReadsAs(text.value, nums, gaps, runs)
              && Parse(text) == if nums == [] then None else Some(nums[..Min(3, |nums|)])
  {
    if text.Some? {
      var gaps, runs := RunsOf(text.value);
      var nums := Numbers(text.value);
      assert ReadsAs(text.value, nums, gaps, runs);
      assert Numbers("") == [];
      assert nums[..Min(3, |nums|)] == if |nums| > 3 then nums[..3] else nums;
    }
  }

  /* ---------- comparing versions ---------- */

  function Padded(v: seq<nat>, n: nat): (r: seq<nat>)
    ensures |r| == Max(|v|, n)
  {
    if |v| >= n then v else v + seq(n - |v|, i => 0)
  }

  /** Tuple comparison. */
  predicate TupleLe(a: seq<nat>, b: seq<nat>) {
    a == [] || (b != [] && (a[0] < b[0] || (a[0] == b[0] && TupleLe(a[1..], b[1..]))))
  }

  /** An unknown version compares as equal to everything. */
  predicate Le(a: Version, b: Version) {
    a.None? || b.None? ||
    var n := Max(|a.value|, |b.value|);
    TupleLe(Padded(a.value, n), Padded(b.value, n))
  }

  /** Component i of a version, 0 beyond its end. */
  function At(v: seq<nat>, i: nat): nat { if i < |v| then v[i] else 0 }

  /** a and b first differ at i, where a is smaller. */
  ghost predicate SmallerAt(a: seq<nat>, b: seq<nat>, i: nat) {
    At(a, i) < At(b, i) && forall k: nat :: k < i ==> At(a, k) == At(b, k)
  }

  /** Component-wise equality, trailing zeros aside. */
  ghost predicate Same(a: seq<nat>, b: seq<nat>) {
    forall k: nat :: At(a, k) == At(b, k)
  }

  lemma {:induction false} TupleLeMeans(a: seq<nat>, b: seq<nat>)
    requires |a| == |b|
    ensures TupleLe(a, b) <==> a == b || exists i: nat :: SmallerAt(a, b, i)
  {
    if a != [] {
      TupleLeMeans(a[1..], b[1..]);
      assert a == [a[0]] + a[1..] && b == [b[0]] + b[1..];
      assert forall k: nat :: At(a, k + 1) == At(a[1..], k) && At(b, k + 1) == At(b[1..], k);
      if a[0] < b[0] { assert SmallerAt(a, b, 0); }
      if i: nat :| SmallerAt(a[1..], b[1..], i) {
        if a[0] == b[0] {
          forall k: nat | k < i + 1 ensures At(a, k) == At(b, k) {
            if k > 0 { assert At(a[1..], k - 1) == At(b[1..], k - 1); }
          }
          assert SmallerAt(a, b, i + 1);
        }
      }
      if i: nat :| SmallerAt(a, b, i) {
        if i > 0 {
          assert At(a, 0) == At(b, 0);
          forall k: nat | k < i - 1 ensures At(a[1..], k) == At(b[1..], k) {
            assert At(a, k + 1) == At(b, k + 1);
          }
          assert SmallerAt(a[1..], b[1..], i - 1);
        }
      }
    }
  }

  lemma {:induction false} PaddedAt(v: seq<nat>, n: nat)
    ensures forall k: nat :: At(Padded(v, n), k) == At(v, k)
  {
  }

  /** What the comparison means: equal up to trailing zeros, or smaller at the first difference. */
  lemma {:induction false} LeMeans(a: seq<nat>, b: seq<nat>)
    ensures Le(Some(a), Some(b)) <==> Same(a, b) || exists i: nat :: SmallerAt(a, b, i)
  {
    var n := Max(|a|, |b|);
    var pa, pb := Padded(a, n), Padded(b, n);
    TupleLeMeans(pa, pb);
    PaddedAt(a, n);
    PaddedAt(b, n);
    if Same(a, b) {
      assert forall i :: 0 <= i < n ==> At(pa, i) == pa[i] && At(pb, i) == pb[i];
      assert pa == pb;
    }
    if i: nat :| SmallerAt(a, b, i) { assert SmallerAt(pa, pb, i); }
    if i: nat :| SmallerAt(pa, pb, i) {
      forall k: nat | k < i ensures At(a, k) == At(b, k) {
        assert At(pa, k) == At(pb, k);
      }
      assert SmallerAt(a, b, i);
    }
    if pa == pb {
      forall k: nat ensures At(a, k) == At(b, k) {
        assert At(pa, k) == At(pb, k);
      }
    }
  }

  /** On known versions of any lengths the comparison is a total preorder, and blind to trailing zeros. */
  lemma {:induction false} LeIsTotal(a: seq<nat>, b: seq<nat>)
    ensures Le(Some(a), Some(b)) || Le(Some(b), Some(a))
    ensures Le(Some(a), Some(b)) && Le(Some(b), Some(a)) <==> Same(a, b)
  {
    LeMeans(a, b);
    LeMeans(b, a);
    if !Same(a, b) {
      var k: nat :| At(a, k) != At(b, k);
      var i := FirstDifference(a, b, k);
      if At(a, i) < At(b, i) { assert SmallerAt(a, b, i); } else { assert SmallerAt(b, a, i); }
    }
  }

  lemma {:induction false} FirstDifference(a: seq<nat>, b: seq<nat>, k: nat) returns (i: nat)
    requires At(a, k) != At(b, k)
    ensures At(a, i) != At(b, i) && forall j: nat :: j < i ==> At(a, j) == At(b, j)
  {
    if j: nat :| j < k && At(a, j) != At(b, j) {
      i := FirstDifference(a, b, j);
    } else {
      i := k;
    }
  }

  lemma {:induction false} LeIsTransitive(a: seq<nat>, b: seq<nat>, c: seq<nat>)
    requires Le(Some(a), Some(b)) && Le(Some(b), Some(c))
    ensures Le(Some(a), Some(c))
  {
    LeMeans(a, b);
    LeMeans(b, c);
    LeMeans(a, c);
    if Same(a, b) {
      if i: nat :| SmallerAt(b, c, i) {
        assert SmallerAt(a, c, i) by { SameThenSmaller(a, b, c, i); }
      } else {
        assert Same(a, c) by { SameThenSame(a, b, c); }
      }
    } else {
      var i: nat :| SmallerAt(a, b, i);
      if j: nat :| SmallerAt(b, c, j) {
        SmallerChain(a, b, c, i, j);
      } else {
        SmallerThenSame(a, b, c, i);
      }
    }
  }

  lemma {:induction false} SameThenSame(a: seq<nat>, b: seq<nat>, c: seq<nat>)
    requires Same(a, b) && Same(b, c)
    ensures Same(a, c)
  {
    forall k: nat ensures At(a, k) == At(c, k) {
      assert At(a, k) == At(b, k) && At(b, k) == At(c, k);
    }
  }

  lemma {:induction false} SameThenSmaller(a: seq<nat>, b: seq<nat>, c: seq<nat>, i: nat)
    requires Same(a, b) && SmallerAt(b, c, i)
    ensures SmallerAt(a, c, i)
  {
    assert At(a, i) == At(b, i);
    forall k: nat | k < i ensures At(a, k) == At(c, k) {
      assert At(a, k) == At(b, k);
    }
  }

  lemma {:induction false} SmallerThenSame(a: seq<nat>, b: seq<nat>, c: seq<nat>, i: nat)
    requires SmallerAt(a, b, i) && Same(b, c)
    ensures SmallerAt(a, c, i)
  {
    assert At(b, i) == At(c, i);
    forall k: nat | k < i ensures At(a, k) == At(c, k) {
      assert At(b, k) == At(c, k);
    }
  }

  lemma {:induction false} SmallerChain(a: seq<nat>, b: seq<nat>, c: seq<nat>, i: nat, j: nat)
    requires SmallerAt(a, b, i) && SmallerAt(b, c, j)
    ensures exists k: nat :: SmallerAt(a, c, k)
  {
    var k := if i < j then i else j;
    forall x: nat | x < k ensures At(a, x) == At(c, x) {
      assert At(a, x) == At(b, x) && At(b, x) == At(c, x);
    }
    assert SmallerAt(a, c, k);
  }

  lemma {:induction false} TrailingZerosIgnored(a: seq<nat>, b: seq<nat>, zeros: nat)
    ensures Le(Some(a + seq(zeros, i => 0)), Some(b)) == Le(Some(a), Some(b))
    ensures Le(Some(b), Some(a + seq(zeros, i => 0))) == Le(Some(b), Some(a))
  {
    var z := a + seq(zeros, i => 0);
    assert Same(z, a);
    LeIsTotal(z, a);
    if Le(Some(z), Some(b)) { LeIsTransitive(a, z, b); }
    if Le(Some(a), Some(b)) { LeIsTransitive(z, a, b); }
    if Le(Some(b), Some(z)) { LeIsTransitive(b, z, a); }
    if Le(Some(b), Some(a)) { LeIsTransitive(b, a, z); }
  }

  /** With unknown versions it is no longer transitive. */
  lemma {:induction false} UnknownBreaksTransitivity()
    ensures Le(Some([2]), None) && Le(None, Some([1])) && !Le(Some([2]), Some([1]))
  {
  }

  /* ---------- the audit ---------- */

  datatype Cve = Cve(id: string, models: seq<string>, min: Option<string>, max: Option<string>,
                     variants: seq<Option<string>>)

  datatype Variant = Variant(version: string, cves: seq<string>)

  datatype Template = Template(model: string, modelName: string, variants: seq<Variant>)

  function Versions(c: Cve): (r: seq<Version>)
    ensures |r| == |c.variants|
  {
    seq(|c.variants|, i requires 0 <= i < |c.variants| => Parse(c.variants[i]))
  }

  /** The last entry with an id, as a dictionary built over the list has it. */
  function FindCve(cves: seq<Cve>, id: string): Option<Cve> {
    if cves == [] then None
    else if cves[|cves| - 1].id == id then Some(cves[|cves| - 1])
    else FindCve(cves[..|cves| - 1], id)
  }

  /** The vulnerable versions listed under an id. */
  function Listed(cves: seq<Cve>, id: string): seq<Version> {
    match FindCve(cves, id)
    case None => []
    case Some(c) => Versions(c)
  }

  /** Whether a CVE covers a firmware version: by its range, or as one of the vulnerable versions listed for it. */
  predicate Covers(c: Cve, listed: seq<Version>, v: Version) {
    (Le(Parse(c.min), v) && Le(v, Parse(c.max))) || v in listed
  }

  predicate Matches(c: Cve, t: Template) {
    exists m :: m in c.models && m != "" && (m == t.model || m == t.modelName)
  }

  predicate Emits(c: Cve, listed: seq<Version>, t: Template) {
    exists v :: v in t.variants && Covers(c, listed, Parse(Some(v.version)))
  }

  /** A CVE no matching template can emit. */
  ghost predicate Unreachable(c: Cve, listed: seq<Version>, templates: seq<Template>) {
    (exists t <- templates :: Matches(c, t)) && forall t <- templates :: Matches(c, t) ==> !Emits(c, listed, t)
  }

  /** The last entry with an id. */
  ghost predicate IsLastEntry(cves: seq<Cve>, id: string, k: int) {
    0 <= k < |cves| && cves[k].id == id && forall i :: k < i < |cves| ==> cves[i].id != id
  }

  /** The lookup by id: of several entries the last counts. */
  lemma {:induction false} FindExactly(cves: seq<Cve>, id: string)
    ensures FindCve(cves, id).Some? <==> exists k :: IsLastEntry(cves, id, k)
    ensures forall k :: IsLastEntry(cves, id, k) ==>
              && FindCve(cves, id) == Some(cves[k]) && |Listed(cves, id)| == |cves[k].variants|
              && forall i :: 0 <= i < |cves[k].variants| ==> Listed(cves, id)[i] == Parse(cves[k].variants[i])
    ensures (forall k :: !IsLastEntry(cves, id, k)) ==> Listed(cves, id) == []
  {
    if cves != [] {
      var n := |cves| - 1;
      if cves[n].id == id {
        assert IsLastEntry(cves, id, n);
      } else {
        FindExactly(cves[..n], id);
        forall k ensures IsLastEntry(cves, id, k) <==> IsLastEntry(cves[..n], id, k) {
        }
      }
    }
  }

  /** One known version is below another: smaller where they first differ. */
  ghost predicate Below(a: Version, b: Version) {
    a.Some? && b.Some? && exists i: nat :: SmallerAt(a.value, b.value, i)
  }

  lemma {:induction false} LeExactly(a: Version, b: Version)
    ensures Le(a, b) <==> !Below(b, a)
  {
    if a.Some? && b.Some? {
      LeMeans(a.value, b.value);
      LeMeans(b.value, a.value);
      LeIsTotal(a.value, b.value);
      if i: nat :| SmallerAt(b.value, a.value, i) {
        assert At(a.value, i) != At(b.value, i);
        assert !Same(a.value, b.value);
      }
    }
  }

  /** What a CVE does not cover: a version that is not listed and is below its range or above it. */
  lemma {:induction false} CoversExactly(c: Cve, listed: seq<Version>, v: Version)
    ensures !Covers(c, listed, v) <==> v !in listed && (Below(v, Parse(c.min)) || Below(Parse(c.max), v))
  {
    LeExactly(Parse(c.min), v);
    LeExactly(v, Parse(c.max));
  }

  /** A CVE that some template's model matches, and no version of a matching template is covered. */
  lemma {:induction false} UnreachableExactly(c: Cve, listed: seq<Version>, templates: seq<Template>)
    ensures Unreachable(c, listed, templates) <==>
              && (exists t <- templates :: SharesModel(c, t))
              && forall t, v :: t in templates && v in t.variants && SharesModel(c, t) ==>
                   var version := Parse(Some(v.version));
                   version !in listed && (Below(version, Parse(c.min)) || Below(Parse(c.max), version))
  {
    forall t ensures SharesModel(c, t) <==> Matches(c, t) {
    }
    forall v: Variant
      ensures var version := Parse(Some(v.version));
              Covers(c, listed, version) <==>
                !(version !in listed && (Below(version, Parse(c.min)) || Below(Parse(c.max), version)))
    {
      CoversExactly(c, listed, Parse(Some(v.version)));
    }
  }

  /** The template's model or model name, if it has one, is among those affected. */
  ghost predicate SharesModel(c: Cve, t: Template) {
    (t.model != "" && t.model in c.models) || (t.modelName != "" && t.modelName in c.models)
  }

  method CheckReachability(cves: seq<Cve>, templates: seq<Template>) returns (failures: seq<Cve>)
    ensures forall c :: c in failures <==> c in cves && Unreachable(c, Listed(cves, c.id), templates)
  {
    failures := [];
    for i := 0 to |cves|
      invariant forall c :: c in failures <==> c in cves[..i] && Unreachable(c, Listed(cves, c.id), templates)
    {
      TakeNext(cves, i);
      var matched, ok := Reached(cves[i], Listed(cves, cves[i].id), templates);
      if matched && !ok {
        failures := failures + [cves[i]];
      }
    }
    assert cves[..|cves|] == cves;
  }

  /** The inner loops: whether any template matches, and whether a variant of a matching one is covered. */
  method Reached(c: Cve, listed: seq<Version>, templates: seq<Template>) returns (matched: bool, ok: bool)
    ensures matched <==> exists t <- templates :: Matches(c, t)
    ensures ok <==> exists t <- templates :: Matches(c, t) && Emits(c, listed, t)
  {
    matched, ok := false, false;
    for i := 0 to |templates|
      invariant matched <==> exists t <- templates[..i] :: Matches(c, t)
      invariant ok <==> exists t <- templates[..i] :: Matches(c, t) && Emits(c, listed, t)
    {
      TakeNext(templates, i);
      var t := templates[i];
      if Matches(c, t) {
        matched := true;
        var emits := false;
        for j := 0 to |t.variants|
          invariant emits <==> exists v <- t.variants[..j] :: Covers(c, listed, Parse(Some(v.version)))
        {
          TakeNext(t.variants, j);
          if Covers(c, listed, Parse(Some(t.variants[j].version))) {
            emits := true;
          }
        }
        assert t.variants[..|t.variants|] == t.variants;
        ok := ok || emits;
      }
    }
    assert templates[..|templates|] == templates;
  }

  datatype Report = Report(template: Template, variant: Variant, cve: string)

  datatype Verdict = Fine | NotEmittable | Disagrees

  /** The second and third invariant, for one CVE id carried by a template's variant. */
  function VerdictOn(cves: seq<Cve>, v: Variant, id: string): Verdict {
    match FindCve(cves, id)
    case None => Fine
    case Some(c) =>
      if c.variants == [] then NotEmittable
      else if Covers(c, Listed(cves, id), Parse(Some(v.version))) then Fine
      else Disagrees
  }

  /** What is reported of an id on a variant, told from the last entry with that id. */
  lemma {:induction false} VerdictExactly(cves: seq<Cve>, v: Variant, id: string)
    ensures VerdictOn(cves, v, id) == NotEmittable <==> exists k :: IsLastEntry(cves, id, k) && cves[k].variants == []
    ensures VerdictOn(cves, v, id) == Disagrees <==>
              exists k :: && IsLastEntry(cves, id, k) && cves[k].variants != []
                          && !Covers(cves[k], Listed(cves, id), Parse(Some(v.version)))
  {
    FindExactly(cves, id);
  }

  method CheckVariants(cves: seq<Cve>, templates: seq<Template>)
    returns (emitFailures: seq<Report>, agreeFailures: seq<Report>)
    ensures forall r :: r in emitFailures <==>
              Carried(templates, r) && VerdictOn(cves, r.variant, r.cve) == NotEmittable
    ensures forall r :: r in agreeFailures <==> Carried(templates, r) && VerdictOn(cves, r.variant, r.cve) == Disagrees
  {
    var all := Carriers(templates);
    emitFailures, agreeFailures := [], [];
    for i := 0 to |all|
      invariant forall r :: r in emitFailures <==> r in all[..i] && VerdictOn(cves, r.variant, r.cve) == NotEmittable
      invariant forall r :: r in agreeFailures <==> r in all[..i] && VerdictOn(cves, r.variant, r.cve) == Disagrees
    {
      TakeNext(all, i);
      var verdict := VerdictOn(cves, all[i].variant, all[i].cve);
      if verdict == NotEmittable {
        emitFailures := emitFailures + [all[i]];
      } else if verdict == Disagrees {
        agreeFailures := agreeFailures + [all[i]];
      }
    }
    assert all[..|all|] == all;
  }

  ghost predicate Carried(templates: seq<Template>, r: Report) {
    r.template in templates && r.variant in r.template.variants && r.cve in r.variant.cves
  }

  /** Every CVE id on every variant of every template. */
  method Carriers(templates: seq<Template>) returns (all: seq<Report>)
    ensures forall r :: r in all <==> Carried(templates, r)
  {
    all := [];
    for i := 0 to |templates|
      invariant forall r :: r in all <==> Carried(templates[..i], r)
    {
      TakeNext(templates, i);
      var t := templates[i];
      for j := 0 to |t.variants|
        invariant forall r :: r in all <==>
            Carried(templates[..i], r)
              || (r.template == t && r.variant in t.variants[..j] && r.cve in r.variant.cves)
      {
        TakeNext(t.variants, j);
        var v := t.variants[j];
        for k := 0 to |v.cves|
          invariant forall r :: r in all <==>
            || Carried(templates[..i], r)
            || (r.template == t && r.variant in t.variants[..j] && r.cve in r.variant.cves)
            || (r.template == t && r.variant == v && r.cve in v.cves[..k])
        {
          TakeNext(v.cves, k);
          all := all + [Report(t, v, v.cves[k])];
        }
        assert v.cves[..|v.cves|] == v.cves;
      }
      assert t.variants[..|t.variants|] == t.variants;
    }
    assert templates[..|templates|] == templates;
  }

  /* ---------- what the audit guarantees ---------- */

  /** A lower and an upper bound that admit at least what another pair admits. */
  ghost predicate Widens(newMin: Version, newMax: Version, oldMin: Version, oldMax: Version) {
    && (newMin.None? || (oldMin.Some? && Le(newMin, oldMin)))
    && (newMax.None? || (oldMax.Some? && Le(oldMax, newMax)))
  }

  /** Ranges do not enter the lookup by id. */
  lemma {:induction false} ListedIgnoresRanges(cves: seq<Cve>, i: nat, wide: Cve, id: string)
    requires i < |cves| && wide.id == cves[i].id && wide.variants == cves[i].variants
    ensures Listed(cves[i := wide], id) == Listed(cves, id)
    decreases |cves|
  {
    var k := |cves| - 1;
    if cves[k].id != id && i < k {
      assert cves[i := wide][..k] == cves[..k][i := wide];
      ListedIgnoresRanges(cves[..k], i, wide, id);
    } else if i == k {
      assert cves[i := wide][..k] == cves[..k];
    }
  }

  /** Widening the range of one CVE of the list never makes it, or any other, unreachable. */
  lemma {:induction false} WideningKeepsReachability(cves: seq<Cve>, i: nat, wide: Cve, templates: seq<Template>,
                                                     j: nat)
    requires i < |cves| && j < |cves|
    requires wide.id == cves[i].id && wide.models == cves[i].models && wide.variants == cves[i].variants
    requires Widens(Parse(wide.min), Parse(wide.max), Parse(cves[i].min), Parse(cves[i].max))
    ensures var after := cves[i := wide];
            Unreachable(after[j], Listed(after, after[j].id), templates) ==>
              Unreachable(cves[j], Listed(cves, cves[j].id), templates)
  {
    var c, listed := cves[j], Listed(cves, cves[j].id);
    ListedIgnoresRanges(cves, i, wide, c.id);
    if j == i {
      assert forall t :: Matches(wide, t) == Matches(c, t);
      forall t | t in templates && Emits(c, listed, t) ensures Emits(wide, listed, t) {
        var v :| v in t.variants && Covers(c, listed, Parse(Some(v.version)));
        WideningKeepsCover(c, wide, listed, Parse(Some(v.version)));
      }
    }
  }

  lemma {:induction false} WideningKeepsCover(c: Cve, wide: Cve, listed: seq<Version>, v: Version)
    requires Covers(c, listed, v)
    requires Widens(Parse(wide.min), Parse(wide.max), Parse(c.min), Parse(c.max))
    ensures Covers(wide, listed, v)
  {
    if v.Some? && v !in listed {
      var newMin, newMax, oldMin, oldMax := Parse(wide.min), Parse(wide.max), Parse(c.min), Parse(c.max);
      if newMin.Some? { LeIsTransitive(newMin.value, oldMin.value, v.value); }
      if newMax.Some? { LeIsTransitive(v.value, oldMax.value, newMax.value); }
    }
  }

  lemma {:induction false} FoundUnderItsId(cves: seq<Cve>, id: string)
    ensures FindCve(cves, id).Some? ==> FindCve(cves, id).value in cves && FindCve(cves, id).value.id == id
  {
    if cves != [] && cves[|cves| - 1].id != id { FoundUnderItsId(cves[..|cves| - 1], id); }
  }

  /**
    The second and third check subsume the first for every CVE that some matching
    template carries: with neither reporting anything, none of those is unreachable.
   */
  lemma {:induction false} AgreementImpliesReachability(cves: seq<Cve>, templates: seq<Template>)
    requires forall r | Carried(templates, r) :: VerdictOn(cves, r.variant, r.cve) == Fine
    ensures forall r | Carried(templates, r) && FindCve(cves, r.cve).Some?
                       && Matches(FindCve(cves, r.cve).value, r.template) ::
              !Unreachable(FindCve(cves, r.cve).value, Listed(cves, r.cve), templates)
  {
    forall r | Carried(templates, r) && FindCve(cves, r.cve).Some? && Matches(FindCve(cves, r.cve).value, r.template)
      ensures !Unreachable(FindCve(cves, r.cve).value, Listed(cves, r.cve), templates)
    {
      FoundUnderItsId(cves, r.cve);
      assert Emits(FindCve(cves, r.cve).value, Listed(cves, r.cve), r.template);
    }
  }
}
