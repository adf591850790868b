/** Searching, and the rendering of numbers as text. */
module Text {
  /* ---------- searching ---------- */

  /** Whether `pat` occurs in `s` at position i. */
  predicate OccursAt<T(==)>(pat: seq<T>, s: seq<T>, i: int) {
    0 <= i && i + |pat| <= |s| && s[i..i + |pat|] == pat
  }

  /** The first position of `pat` in `s` from i on, or -1. */
  function FindFrom<T(==)>(pat: seq<T>, s: seq<T>, i: nat): (r: int)
    requires i <= |s|
    ensures r == -1 || i <= r <= |s|
    decreases |s| - i
  {
    if i + |pat| > |s| then -1
    else if s[i..i + |pat|] == pat then i
    else FindFrom(pat, s, i + 1)
  }

  /** The first position of `pat` in `s`, or -1. */
  function Find<T(==)>(pat: seq<T>, s: seq<T>): (r: int)
    ensures -1 <= r <= |s|
  {
    FindFrom(pat, s, 0)
  }

  lemma {:induction false} FindFromFirst<T>(pat: seq<T>, s: seq<T>, i: nat)
    requires i <= |s|
    ensures var r := FindFrom(pat, s, i);
            && (r == -1 || OccursAt(pat, s, r))
            && forall k :: i <= k && (r == -1 || k < r) ==> !OccursAt(pat, s, k)
    decreases |s| - i
  {
    if i + |pat| <= |s| && s[i..i + |pat|] != pat {
      FindFromFirst(pat, s, i + 1);
    }
  }

  lemma {:induction false} FindFirst<T>(pat: seq<T>, s: seq<T>)
    ensures Find(pat, s) == -1 || OccursAt(pat, s, Find(pat, s))
    ensures forall i :: 0 <= i && (Find(pat, s) == -1 || i < Find(pat, s)) ==> !OccursAt(pat, s, i)
  {
    FindFromFirst(pat, s, 0);
  }

  lemma {:induction false} FindIs<T>(pat: seq<T>, s: seq<T>, i: nat)
    requires OccursAt(pat, s, i)
    requires forall k :: 0 <= k < i ==> !OccursAt(pat, s, k)
    ensures Find(pat, s) == i
  {
    FindFirst(pat, s);
  }

  /** Finding a single element. */
  lemma {:induction false} FindOne<T>(c: T, s: seq<T>)
    ensures var r := Find([c], s);
            if c in s then 0 <= r < |s| && s[r] == c && c !in s[..r] else r == -1
  {
    FindFirst([c], s);
    forall i | 0 <= i < |s| ensures s[i] == c <==> OccursAt([c], s, i) {
      assert s[i..i + 1] == [s[i]];
    }
  }

  /* ---------- white space ---------- */

  /** White space, as `str.strip()` and the pattern `\s` see it. */
  predicate IsSpace(c: char) {
    || c == ' ' || '\t' <= c <= '\r' || '\U{1c}' <= c <= '\U{1f}' || c == '\U{85}' || c == '\U{a0}' || c == '\U{1680}'
    || '\U{2000}' <= c <= '\U{200a}' || c == '\U{2028}' || c == '\U{2029}' || c == '\U{202f}' || c == '\U{205f}'
        || c == '\U{3000}'
  }

  /* ---------- decimal numerals ---------- */

  function Digit(d: nat): char
    requires d < 10
  {
    '0' + d as char
  }

  predicate IsDigit(c: char) { '0' <= c <= '9' }

  predicate AllDigits(s: string) { forall c <- s :: IsDigit(c) }

  function Decimal(n: nat): (s: string)
    ensures s != [] && AllDigits(s)
  {
    if n < 10 then [Digit(n)] else Decimal(n / 10) + [Digit(n % 10)]
  }

  function DigitValue(c: char): nat { if IsDigit(c) then c as int - '0' as int else 0 }

  /** The number a string of digits denotes. */
  function Value(s: string): nat {
    if s == [] then 0 else Value(s[..|s| - 1]) * 10 + DigitValue(s[|s| - 1])
  }

  lemma {:induction false} ValueOfDecimal(n: nat)
    ensures Value(Decimal(n)) == n
  {
    if n >= 10 {
      ValueOfDecimal(n / 10);
      assert Decimal(n)[..|Decimal(n)| - 1] == Decimal(n / 10);
    }
  }

  lemma {:induction false} DecimalInjective(m: nat, n: nat)
    ensures Decimal(m) == Decimal(n) ==> m == n
  {
    ValueOfDecimal(m);
    ValueOfDecimal(n);
  }

  /** Zero-padded to at least three digits, as the format `{n:03d}`. */
  function Pad3(n: nat): (s: string)
    ensures AllDigits(s)
  {
    var d := Decimal(n);
    if |d| == 1 then "00" + d else if |d| == 2 then "0" + d else d
  }

  lemma {:induction false} LeadingZero(s: string)
    ensures Value("0" + s) == Value(s)
  {
    if s != [] {
      LeadingZero(s[..|s| - 1]);
      assert ("0" + s)[..|s|] == "0" + s[..|s| - 1];
    } else {
      assert "0" + s == "0" && "0"[..0] == [];
    }
  }

  lemma {:induction false} Pad3Injective(m: nat, n: nat)
    ensures Pad3(m) == Pad3(n) ==> m == n
  {
    ValueOfPad3(m);
    ValueOfPad3(n);
  }

  lemma {:induction false} ValueOfPad3(n: nat)
    ensures Value(Pad3(n)) == n
  {
    var d := Decimal(n);
    ValueOfDecimal(n);
    LeadingZero(d);
    LeadingZero("0" + d);
    assert "0" + ("0" + d) == "00" + d;
  }

  lemma {:induction false} NoLeadingZero(n: nat)
    requires n > 0
    ensures Decimal(n)[0] != '0'
  {
    if n >= 10 { NoLeadingZero(n / 10); }
  }

  /** The number, in digits; at least three, and more only where it needs them. */
  lemma {:induction false} Pad3Exactly(n: nat)
    ensures Value(Pad3(n)) == n && AllDigits(Pad3(n)) && |Pad3(n)| >= 3 && (|Pad3(n)| > 3 ==> Pad3(n)[0] != '0')
  {
    ValueOfPad3(n);
    if n > 0 { NoLeadingZero(n); }
  }

  /* ---------- two hexadecimal digits ---------- */

  function HexDigit(d: nat): char
    requires d < 16
  {
    if d < 10 then '0' + d as char else 'A' + (d - 10) as char
  }

  function Hex2(b: nat): (s: string)
    requires b < 256
    ensures |s| == 2
  {
    [HexDigit(b / 16), HexDigit(b % 16)]
  }

  lemma {:induction false} HexDigitInjective(a: nat, b: nat)
    requires a < 16 && b < 16 && HexDigit(a) == HexDigit(b)
    ensures a == b
  {
  }

  lemma {:induction false} Hex2Injective(a: nat, b: nat)
    requires a < 256 && b < 256 && Hex2(a) == Hex2(b)
    ensures a == b
  {
    assert Hex2(a)[0] == Hex2(b)[0] && Hex2(a)[1] == Hex2(b)[1];
    HexDigitInjective(a / 16, b / 16);
    HexDigitInjective(a % 16, b % 16);
  }

  function HexDigitValue(c: char): nat {
    if IsDigit(c) then c as int - '0' as int else if 'A' <= c <= 'F' then c as int - 'A' as int + 10 else 0
  }

  /** The number a string of hexadecimal digits denotes. */
  function HexValue(s: string): nat {
    if s == [] then 0 else HexValue(s[..|s| - 1]) * 16 + HexDigitValue(s[|s| - 1])
  }

  lemma {:induction false} HexDigitDenotes(d: nat)
    requires d < 16
    ensures HexDigitValue(HexDigit(d)) == d
  {
  }

  /** Two digits behind others. */
  lemma {:induction false} Hex2Denotes(s: string, b: nat)
    requires b < 256
    ensures HexValue(s + Hex2(b)) == HexValue(s) * 256 + b
  {
    var t := s + Hex2(b);
    assert t[..|t| - 1] == s + [Hex2(b)[0]] && (s + [Hex2(b)[0]])[..|s|] == s;
    HexDigitDenotes(b / 16);
    HexDigitDenotes(b % 16);
  }

  /* ---------- separators ---------- */

  /** Text is cut the same way at its first separator however it was put together. */
  lemma {:induction false} FirstCutUnique<T>(a: seq<T>, b: seq<T>, x: seq<T>, y: seq<T>, sep: T)
    requires a + [sep] + x == b + [sep] + y
    requires sep !in a && sep !in b
    ensures a == b && x == y
  {
    var s := a + [sep] + x;
    assert s[|a|] == sep && s[|b|] == sep;
    assert forall i :: 0 <= i < |a| ==> s[i] == a[i] && a[i] in a;
    assert forall i :: 0 <= i < |b| ==> s[i] == b[i] && b[i] in b;
    assert a == s[..|a|] && b == s[..|b|];
    assert x == s[|a| + 1..] && y == s[|b| + 1..];
  }

  lemma {:induction false} AfterLastCut<T>(a: seq<T>, x: seq<T>, sep: T)
    requires sep !in x
    ensures forall i :: |a| < i < |a + [sep] + x| ==> (a + [sep] + x)[i] != sep
  {
    forall i | |a| < i < |a + [sep] + x| ensures (a + [sep] + x)[i] != sep {
      assert (a + [sep] + x)[i] == x[i - |a| - 1];
    }
  }

  /** And at its last separator. */
  lemma {:induction false} LastCutUnique<T>(a: seq<T>, b: seq<T>, x: seq<T>, y: seq<T>, sep: T)
    requires a + [sep] + x == b + [sep] + y
    requires sep !in x && sep !in y
    ensures a == b && x == y
  {
    var s := a + [sep] + x;
    assert s[|a|] == sep && s[|b|] == sep;
    AfterLastCut(a, x, sep);
    AfterLastCut(b, y, sep);
    assert a == s[..|a|] && b == s[..|b|];
    assert x == s[|a| + 1..] && y == s[|b| + 1..];
  }

  /** Numbers in decimal, with dots between them. */
  function Dotted(arcs: seq<nat>): string {
    if arcs == [] then ""
    else if |arcs| == 1 then Decimal(arcs[0])
    else Decimal(arcs[0]) + ['.'] + Dotted(arcs[1..])
  }

  lemma {:induction false} DotMarksSeveral(arcs: seq<nat>)
    ensures '.' in Dotted(arcs) <==> |arcs| > 1
    ensures arcs != [] ==> '.' !in Decimal(arcs[0])
  {
    if |arcs| > 1 {
      assert Dotted(arcs)[|Decimal(arcs[0])|] == '.';
    }
  }

  lemma {:induction false} DottedInjective(a: seq<nat>, b: seq<nat>)
    requires Dotted(a) == Dotted(b)
    ensures a == b
    decreases |a|
  {
    DotMarksSeveral(a);
    DotMarksSeveral(b);
    if |a| == 1 && |b| == 1 {
      DecimalInjective(a[0], b[0]);
    } else if |a| > 1 {
      FirstCutUnique(Decimal(a[0]), Decimal(b[0]), Dotted(a[1..]), Dotted(b[1..]), '.');
      DottedInjective(a[1..], b[1..]);
      DecimalInjective(a[0], b[0]);
      assert a == [a[0]] + a[1..] && b == [b[0]] + b[1..];
    }
  }
}
