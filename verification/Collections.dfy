/** Facts about sequences and maps shared by the models. */
module Collections {
  datatype Option<+T> = None | Some(value: T) {
    function GetOr(default: T): T {
      match this
      case Some(v) => v
      case None => default
    }
  }

  function Min(a: int, b: int): int { if a <= b then a else b }

  function Max(a: int, b: int): int { if a <= b then b else a }

  lemma {:induction false} TakeNext<T>(s: seq<T>, k: nat)
    requires k < |s|
    ensures s[..k + 1] == s[..k] + [s[k]]
  {
  }

  /* ---------- sums ---------- */

  function Sum(s: seq<int>): int {
    if |s| == 0 then 0 else Sum(s[..|s| - 1]) + s[|s| - 1]
  }

  lemma {:induction false} SumUpdate(s: seq<int>, i: nat, v: int)
    requires i < |s|
    ensures Sum(s[i := v]) == Sum(s) - s[i] + v
  {
    if i == |s| - 1 {
      assert s[i := v][..i] == s[..i];
    } else {
      assert s[i := v][..|s| - 1] == s[..|s| - 1][i := v];
      SumUpdate(s[..|s| - 1], i, v);
    }
  }

  lemma {:induction false} SumMonotone(a: seq<int>, b: seq<int>)
    requires |a| == |b|
    requires forall i :: 0 <= i < |a| ==> a[i] <= b[i]
    ensures Sum(a) <= Sum(b)
    ensures Sum(a) == Sum(b) ==> a == b
  {
    if a != [] {
      SumMonotone(a[..|a| - 1], b[..|b| - 1]);
      assert a == a[..|a| - 1] + [a[|a| - 1]] && b == b[..|b| - 1] + [b[|b| - 1]];
    }
  }

  lemma {:induction false} SumZero(s: seq<int>)
    requires forall i :: 0 <= i < |s| ==> s[i] == 0
    ensures Sum(s) == 0
  {
    if s != [] {
      SumZero(s[..|s| - 1]);
    }
  }

  lemma {:induction false} SumAdded(a: seq<int>, b: seq<int>, c: seq<int>)
    requires |a| == |b| == |c|
    requires forall i :: 0 <= i < |a| ==> c[i] == a[i] + b[i]
    ensures Sum(c) == Sum(a) + Sum(b)
  {
    if a != [] {
      SumAdded(a[..|a| - 1], b[..|b| - 1], c[..|c| - 1]);
    }
  }

  lemma {:induction false} SumScaled(k: int, a: seq<int>, b: seq<int>)
    requires |a| == |b|
    requires forall i :: 0 <= i < |a| ==> b[i] == k * a[i]
    ensures Sum(b) == k * Sum(a)
  {
    if a != [] {
      SumScaled(k, a[..|a| - 1], b[..|b| - 1]);
    }
  }

  /** Comparing weighted increments term by term compares their totals. */
  lemma {:induction false} SumWeighted(k: int, from: seq<int>, to: seq<int>, m: int, w: seq<int>)
    requires |from| == |to| == |w|
    requires forall i :: 0 <= i < |w| ==> k * (to[i] - from[i]) <= m * w[i]
    ensures k * (Sum(to) - Sum(from)) <= m * Sum(w)
  {
    var n := |w| - 1;
    if n >= 0 {
      SumWeighted(k, from[..n], to[..n], m, w[..n]);
      Distribute(k, Sum(to[..n]) - Sum(from[..n]), to[n] - from[n]);
      Distribute(m, Sum(w[..n]), w[n]);
    }
  }

  lemma {:induction false} Distribute(k: int, a: int, b: int)
    ensures k * (a + b) == k * a + k * b
  {
  }

  lemma {:induction false} MulLe(k: nat, a: int, b: int)
    requires a <= b
    ensures k * a <= k * b
  {
  }

  lemma {:induction false} CancelLe(k: nat, a: int, b: int)
    requires k > 0 && k * a <= k * b
    ensures a <= b
  {
    if a > b { MulLe(k, b + 1, a); Distribute(k, b, 1); }
  }

  lemma {:induction false} CancelLt(k: nat, a: int, b: int)
    requires k * a < k * b
    ensures a < b
  {
    if a >= b { MulLe(k, b, a); }
  }

  /** The sum of a map's values. */
  ghost function Total(m: map<string, int>): int {
    if m == map[] then 0
    else
      var k :| k in m;
      m[k] + Total(m - {k})
  }

  lemma {:induction false} TotalMinus(m: map<string, int>, k: string)
    requires k in m
    ensures Total(m) == m[k] + Total(m - {k})
  {
    var j :| j in m && Total(m) == m[j] + Total(m - {j});
    if j != k {
      TotalMinus(m - {j}, k);
      assert m - {j} - {k} == m - {k} - {j};
      TotalMinus(m - {k}, j);
    }
  }

  /* ---------- filtering ---------- */

  /** The elements that satisfy p, in order. */
  function Keep<T>(p: T -> bool, s: seq<T>): seq<T> {
    if s == [] then [] else if p(s[0]) then [s[0]] + Keep(p, s[1..]) else Keep(p, s[1..])
  }

  lemma {:induction false} KeepConcat<T>(p: T -> bool, a: seq<T>, b: seq<T>)
    ensures Keep(p, a + b) == Keep(p, a) + Keep(p, b)
  {
    if a == [] {
      assert a + b == b;
    } else {
      assert (a + b)[1..] == a[1..] + b;
      KeepConcat(p, a[1..], b);
    }
  }

  lemma {:induction false} KeepSnoc<T>(p: T -> bool, s: seq<T>, x: T)
    ensures Keep(p, s + [x]) == if p(x) then Keep(p, s) + [x] else Keep(p, s)
  {
    KeepConcat(p, s, [x]);
    assert [x][1..] == [] && Keep(p, [x][1..]) == [];
  }

  lemma {:induction false} KeepAll<T>(p: T -> bool, s: seq<T>)
    requires forall x <- s :: p(x)
    ensures Keep(p, s) == s
  {
    if s != [] { KeepAll(p, s[1..]); }
  }

  lemma {:induction false} KeepNone<T>(p: T -> bool, s: seq<T>)
    requires forall x <- s :: !p(x)
    ensures Keep(p, s) == []
  {
    if s != [] { KeepNone(p, s[1..]); }
  }

  lemma {:induction false} KeepSubset<T>(p: T -> bool, s: seq<T>)
    ensures forall x :: x in Keep(p, s) <==> x in s && p(x)
    ensures |Keep(p, s)| <= |s|
  {
    if s != [] {
      KeepSubset(p, s[1..]);
      assert s == [s[0]] + s[1..];
    }
  }

  /** Positions below n, from left to right. */
  ghost predicate Rising(ks: seq<nat>, n: nat) {
    (forall i :: 0 <= i < |ks| ==> ks[i] < n) && forall i, j :: 0 <= i < j < |ks| ==> ks[i] < ks[j]
  }

  /** r is what s holds at the positions ks, which are just those where p holds. */
  ghost predicate Selects<T(!new)>(r: seq<T>, s: seq<T>, p: T -> bool, ks: seq<nat>) {
    && Rising(ks, |s|) && |r| == |ks|
    && (forall m :: 0 <= m < |r| ==> r[m] == s[ks[m]])
    && forall k :: 0 <= k < |s| ==> (k in ks <==> p(s[k]))
  }

  lemma {:induction false} RisingSnoc(ks: seq<nat>, n: nat)
    requires Rising(ks, n)
    ensures Rising(ks, n + 1) && Rising(ks + [n], n + 1) && n !in ks
    ensures forall k :: k in ks + [n] <==> k in ks || k == n
  {
  }

  lemma {:induction false} SelectsSnoc<T(!new)>(r: seq<T>, s: seq<T>, p: T -> bool, ks: seq<nat>, x: T)
    requires Selects(r, s, p, ks)
    ensures p(x) ==> Selects(r + [x], s + [x], p, ks + [|s|])
    ensures !p(x) ==> Selects(r, s + [x], p, ks)
  {
    RisingSnoc(ks, |s|);
  }

  lemma {:induction false} KeepPositions<T(!new)>(p: T -> bool, s: seq<T>) returns (ks: seq<nat>)
    ensures Selects(Keep(p, s), s, p, ks)
  {
    ks := [];
    if s != [] {
      var n := |s| - 1;
      var before := KeepPositions(p, s[..n]);
      SelectsSnoc(Keep(p, s[..n]), s[..n], p, before, s[n]);
      KeepSnoc(p, s[..n], s[n]);
      assert s == s[..n] + [s[n]];
      ks := if p(s[n]) then before + [n] else before;
    }
  }

  /** What filtering keeps, and in which order. */
  lemma {:induction false} KeepExactly<T(!new)>(p: T -> bool, s: seq<T>)
    ensures exists ks :: Selects(Keep(p, s), s, p, ks)
  {
    var ks := KeepPositions(p, s);
  }

  /* ---------- sequences of sequences ---------- */

  /** Groups put end to end. */
  function Flat<T>(groups: seq<seq<T>>): seq<T> {
    if groups == [] then [] else Flat(groups[..|groups| - 1]) + groups[|groups| - 1]
  }

  lemma {:induction false} FlatSnoc<T>(groups: seq<seq<T>>, g: seq<T>)
    ensures Flat(groups + [g]) == Flat(groups) + g
  {
    assert (groups + [g])[..|groups|] == groups;
  }

  lemma {:induction false} FlatCons<T>(g: seq<T>, groups: seq<seq<T>>)
    ensures Flat([g] + groups) == g + Flat(groups)
  {
    if groups == [] {
      assert [g] + groups == [] + [g];
      FlatSnoc([], g);
      assert g + [] == g && [] + g == g;
    } else {
      var n := |groups| - 1;
      FlatCons(g, groups[..n]);
      assert [g] + groups == ([g] + groups[..n]) + [groups[n]];
      FlatSnoc([g] + groups[..n], groups[n]);
      assert (g + Flat(groups[..n])) + groups[n] == g + (Flat(groups[..n]) + groups[n]);
    }
  }

  /** Texts, or other sequences, with a separator between them. */
  function Joined<T>(sep: seq<T>, parts: seq<seq<T>>): seq<T> {
    if parts == [] then [] else if |parts| == 1 then parts[0] else parts[0] + sep + Joined(sep, parts[1..])
  }

  lemma {:induction false} JoinedCons<T>(sep: seq<T>, part: seq<T>, parts: seq<seq<T>>)
    requires parts != []
    ensures Joined(sep, [part] + parts) == part + sep + Joined(sep, parts)
  {
    assert ([part] + parts)[1..] == parts;
  }
}
