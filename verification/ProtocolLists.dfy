/** The text between the brackets of `supported_protocols=[...]`: reading names out of it and writing them back. */
module ProtocolLists {
  import opened Collections
  import opened Text

  /* ---------- splitting and stripping ---------- */

  /** The parts of a text between its commas. */
  function SplitCommas(s: string): (parts: seq<string>)
    ensures parts != []
  {
    if s == [] then [[]]
    else
      var parts := SplitCommas(s[1..]);
      if s[0] == ',' then [[]] + parts else [[s[0]] + parts[0]] + parts[1..]
  }

  predicate IsQuote(c: char) { c == '"' || c == '\'' }

  function StripLeft(s: string, p: char -> bool): (r: string)
    ensures r != [] ==> !p(r[0])
    ensures |r| <= |s| && r == s[|s| - |r|..]
  {
    if s != [] && p(s[0]) then StripLeft(s[1..], p) else s
  }

  function StripRight(s: string, p: char -> bool): (r: string)
    ensures r != [] ==> !p(r[|r| - 1])
    ensures |r| <= |s| && r == s[..|r|]
  {
    if s != [] && p(s[|s| - 1]) then StripRight(s[..|s| - 1], p) else s
  }

  function Strip(s: string, p: char -> bool): (r: string)
    ensures r != [] ==> !p(r[0]) && !p(r[|r| - 1])
  {
    StripRight(StripLeft(s, p), p)
  }

  /** One name as it stands between commas: trimmed, then unquoted. */
  function CleanName(part: string): (r: string)
    ensures r != [] ==> !IsQuote(r[0]) && !IsQuote(r[|r| - 1])
  {
    Strip(Strip(part, IsSpace), IsQuote)
  }

  /** The non-empty results of cleaning each part. */
  function NamesOf(clean: string -> string, parts: seq<string>): seq<string> {
    if parts == [] then []
    else if clean(parts[0]) != [] then [clean(parts[0])] + NamesOf(clean, parts[1..])
    else NamesOf(clean, parts[1..])
  }

  /** The protocol names a list declares. */
  function Names(content: string): seq<string> {
    NamesOf(CleanName, SplitCommas(content))
  }

  /* ---------- writing ---------- */

  function Quoted(name: string): string { ['"'] + name + ['"'] }

  function RenderTail(names: seq<string>): string {
    if names == [] then "" else [',', ' '] + Quoted(names[0]) + RenderTail(names[1..])
  }

  /** The names quoted and joined with a comma and a space. */
  function Render(names: seq<string>): string {
    if names == [] then "" else Quoted(names[0]) + RenderTail(names[1..])
  }

  /** A name as a list can hold it. */
  predicate Listable(name: string) {
    name != [] && ',' !in name && !IsQuote(name[0]) && !IsQuote(name[|name| - 1])
  }

  lemma {:induction false} SplitNone(s: string)
    requires ',' !in s
    ensures SplitCommas(s) == [s]
  {
    if s != [] {
      SplitNone(s[1..]);
      assert [s[0]] + s[1..] == s;
    }
  }

  lemma {:induction false} SplitFirst(a: string, b: string)
    requires ',' !in a
    ensures SplitCommas(a + [','] + b) == [a] + SplitCommas(b)
  {
    var s := a + [','] + b;
    if a == [] {
      assert s[1..] == b;
    } else {
      SplitFirst(a[1..], b);
      assert s[1..] == a[1..] + [','] + b;
      assert [a[0]] + a[1..] == a;
    }
  }

  /** x is a stretch of s. */
  ghost predicate Within(x: string, s: string) { exists i :: OccursAt(x, s, i) }

  lemma {:induction false} WithinSlice(s: string, i: nat, j: nat)
    requires i <= j <= |s|
    ensures Within(s[i..j], s)
  {
    assert OccursAt(s[i..j], s, i);
  }

  lemma {:induction false} SliceOfSlice(s: string, i: nat, j: nat, k: nat, m: nat)
    requires i <= j <= |s| && k <= m <= j - i
    ensures s[i..j][k..m] == s[i + k..i + m]
  {
    var a, b := s[i..j][k..m], s[i + k..i + m];
    forall x | 0 <= x < m - k ensures a[x] == b[x] {
      assert a[x] == s[i..j][k + x];
    }
    assert |a| == |b|;
  }

  lemma {:induction false} WithinTransitive(x: string, y: string, z: string)
    requires Within(x, y) && Within(y, z)
    ensures Within(x, z)
  {
    var i :| OccursAt(x, y, i);
    var j :| OccursAt(y, z, j);
    assert y == z[j..j + |y|] && x == y[i..i + |x|];
    SliceOfSlice(z, j, j + |y|, i, i + |x|);
    assert OccursAt(x, z, j + i);
  }

  /** A stretch of s without commas. */
  ghost predicate IsPart(part: string, s: string) { ',' !in part && Within(part, s) }

  lemma {:induction false} SplitIsParts(s: string)
    ensures SplitCommas(s)[0] <= s
    ensures forall part <- SplitCommas(s) :: IsPart(part, s)
  {
    SplitStart(s);
    WithinSlice(s, 0, |SplitCommas(s)[0]|);
    if s != [] {
      SplitIsParts(s[1..]);
      var parts := SplitCommas(s[1..]);
      WithinSlice(s, 1, |s|);
      assert s[1..|s|] == s[1..];
      forall part | part in SplitCommas(s) ensures IsPart(part, s) {
        if part in parts {
          assert IsPart(part, s[1..]);
          WithinTransitive(part, s[1..], s);
        } else {
          assert IsPart(parts[0], s[1..]);
        }
      }
    }
  }

  /** The first part is where the text starts. */
  lemma {:induction false} SplitStart(s: string)
    ensures SplitCommas(s)[0] <= s && s[..|SplitCommas(s)[0]|] == SplitCommas(s)[0]
  {
    if s != [] && s[0] != ',' {
      SplitStart(s[1..]);
      assert s == [s[0]] + s[1..];
    }
  }

  lemma {:induction false} StripWithin(s: string, p: char -> bool)
    ensures Within(Strip(s, p), s)
  {
    var left := StripLeft(s, p);
    var r := Strip(s, p);
    assert r == left[..|r|];
    WithinSlice(left, 0, |r|);
    WithinSlice(s, |s| - |left|, |s|);
    assert s[|s| - |left|..|s|] == left;
    WithinTransitive(r, left, s);
  }

  lemma {:induction false} CleanWithin(part: string)
    ensures Within(CleanName(part), part)
  {
    StripWithin(part, IsSpace);
    StripWithin(Strip(part, IsSpace), IsQuote);
    WithinTransitive(CleanName(part), Strip(part, IsSpace), part);
  }

  lemma {:induction false} WithinChars(x: string, s: string)
    requires Within(x, s)
    ensures forall c <- x :: c in s
  {
    var i :| OccursAt(x, s, i);
    forall c | c in x ensures c in s {
      var k :| 0 <= k < |x| && x[k] == c;
      assert s[i..i + |x|][k] == s[i + k];
    }
  }

  lemma {:induction false} NamesAreCleaned(clean: string -> string, parts: seq<string>)
    ensures forall n <- NamesOf(clean, parts) :: n != [] && exists part <- parts :: clean(part) == n
  {
    if parts != [] { NamesAreCleaned(clean, parts[1..]); }
  }

  lemma {:induction false} PartNameIsListable(part: string, content: string)
    requires IsPart(part, content) && CleanName(part) != []
    ensures Listable(CleanName(part)) && Within(CleanName(part), content)
  {
    CleanWithin(part);
    WithinChars(CleanName(part), part);
    WithinTransitive(CleanName(part), part, content);
  }

  /** Every name read is a stretch of the list, and can be written back. */
  lemma {:induction false} ReadNamesAreListable(content: string)
    ensures forall n <- Names(content) :: Listable(n) && Within(n, content)
  {
    SplitIsParts(content);
    NamesAreCleaned(CleanName, SplitCommas(content));
    forall n | n in Names(content) ensures Listable(n) && Within(n, content) {
      var part :| part in SplitCommas(content) && CleanName(part) == n;
      PartNameIsListable(part, content);
    }
  }

  lemma {:induction false} StripNothing(s: string, p: char -> bool)
    requires s != [] && !p(s[0]) && !p(s[|s| - 1])
    ensures Strip(s, p) == s
  {
  }

  lemma {:induction false} StripQuotes(name: string)
    requires Listable(name)
    ensures Strip(Quoted(name), IsQuote) == name
  {
    var q := Quoted(name);
    assert q[1..] == name + ['"'];
    assert StripLeft(q, IsQuote) == StripLeft(name + ['"'], IsQuote) == name + ['"'];
    assert (name + ['"'])[..|name|] == name;
    assert StripRight(name + ['"'], IsQuote) == StripRight(name, IsQuote) == name;
  }

  lemma {:induction false} StripSpace(s: string)
    requires s != [] && !IsSpace(s[0]) && !IsSpace(s[|s| - 1])
    ensures Strip([' '] + s, IsSpace) == s
  {
    assert ([' '] + s)[1..] == s;
    StripNothing(s, IsSpace);
  }

  lemma {:induction false} CleanQuoted(name: string)
    requires Listable(name)
    ensures CleanName(Quoted(name)) == name
    ensures CleanName([' '] + Quoted(name)) == name
  {
    StripNothing(Quoted(name), IsSpace);
    StripSpace(Quoted(name));
    StripQuotes(name);
  }

  lemma {:induction false} NamesOfCons(clean: string -> string, part: string, parts: seq<string>)
    requires clean(part) != []
    ensures NamesOf(clean, [part] + parts) == [clean(part)] + NamesOf(clean, parts)
  {
    assert ([part] + parts)[1..] == parts;
  }

  /** Cleaning recovers a name from either place it can be written in. */
  ghost predicate Recovers(clean: string -> string, name: string) {
    name != [] && ',' !in name && clean(Quoted(name)) == name && clean([' '] + Quoted(name)) == name
  }

  lemma {:induction false} NamesOfPart(clean: string -> string, part: string, next: string)
    requires ',' !in part && clean(part) != []
    ensures NamesOf(clean, SplitCommas(part)) == [clean(part)]
    ensures NamesOf(clean, SplitCommas(part + [','] + next)) == [clean(part)] + NamesOf(clean, SplitCommas(next))
  {
    SplitNone(part);
    SplitFirst(part, next);
    NamesOfCons(clean, part, []);
    NamesOfCons(clean, part, SplitCommas(next));
    assert [part] + [] == [part];
  }

  /** Reading `first`, a written name, in front of others. */
  lemma {:induction false} NamesInFront(clean: string -> string, first: string, names: seq<string>)
    requires names != [] && clean(first) == names[0] != [] && ',' !in first
    requires |names| > 1 ==>
      NamesOf(clean, SplitCommas([' '] + Quoted(names[1]) + RenderTail(names[2..]))) == names[1..]
    ensures NamesOf(clean, SplitCommas(first + RenderTail(names[1..]))) == names
  {
    if |names| == 1 {
      NamesOfPart(clean, first, []);
      assert first + RenderTail(names[1..]) == first;
    } else {
      var next := [' '] + Quoted(names[1]) + RenderTail(names[2..]);
      assert names[1..][0] == names[1] && names[1..][1..] == names[2..];
      assert first + RenderTail(names[1..]) == first + [','] + next;
      NamesOfPart(clean, first, next);
    }
  }

  lemma {:induction false} NamesOfTail(clean: string -> string, names: seq<string>)
    requires names != [] && forall n <- names :: Recovers(clean, n)
    ensures NamesOf(clean, SplitCommas([' '] + Quoted(names[0]) + RenderTail(names[1..]))) == names
    decreases |names|
  {
    assert Recovers(clean, names[0]);
    if |names| > 1 {
      NamesOfTail(clean, names[1..]);
      assert names[1..][0] == names[1] && names[1..][1..] == names[2..];
    }
    NamesInFront(clean, [' '] + Quoted(names[0]), names);
  }

  lemma {:induction false} ReadRendered(clean: string -> string, names: seq<string>)
    requires forall n <- names :: Recovers(clean, n)
    requires clean([]) == []
    ensures NamesOf(clean, SplitCommas(Render(names))) == names
  {
    if names != [] {
      assert Recovers(clean, names[0]);
      if |names| > 1 {
        NamesOfTail(clean, names[1..]);
        assert names[1..][0] == names[1] && names[1..][1..] == names[2..];
      }
      NamesInFront(clean, Quoted(names[0]), names);
    }
  }

  /** Names that were read and written back are read the same. */
  lemma {:induction false} NamesRoundTrip(names: seq<string>)
    requires forall n <- names :: Listable(n)
    ensures Names(Render(names)) == names
  {
    forall n | n in names ensures Recovers(CleanName, n) {
      CleanQuoted(n);
    }
    ReadRendered(CleanName, names);
  }

  lemma {:induction false} RenderTailChars(names: seq<string>, c: char)
    requires c !in "\", " && forall n <- names :: c !in n
    ensures c !in RenderTail(names)
  {
    if names != [] { RenderTailChars(names[1..], c); }
  }

  /** Writing introduces no characters but quotes, commas and spaces. */
  lemma {:induction false} RenderChars(names: seq<string>, c: char)
    requires c !in "\", " && forall n <- names :: c !in n
    ensures c !in Render(names)
  {
    if names != [] { RenderTailChars(names[1..], c); }
  }

  /* ---------- what reading and writing amount to ---------- */

  /** The parts are what is between the commas. */
  lemma {:induction false} SplitExactly(s: string)
    ensures Joined([','], SplitCommas(s)) == s
    ensures forall part <- SplitCommas(s) :: ',' !in part
  {
    SplitIsParts(s);
    forall part | part in SplitCommas(s) ensures ',' !in part {
      assert IsPart(part, s);
    }
    if s != [] {
      SplitExactly(s[1..]);
      JoinedAgain(s[0], s[1..], SplitCommas(s[1..]));
    }
  }

  lemma {:induction false} JoinedAgain(c: char, s: string, parts: seq<string>)
    requires parts != [] && Joined([','], parts) == s
    ensures Joined([','], if c == ',' then [[]] + parts else [[c] + parts[0]] + parts[1..]) == [c] + s
  {
    if c == ',' {
      JoinedCons([','], [], parts);
      assert [] + [','] + s == [c] + s;
    } else if |parts| > 1 {
      JoinedCons([','], [c] + parts[0], parts[1..]);
      assert ([c] + parts[0]) + [','] + Joined([','], parts[1..]) == [c] + s;
    }
  }

  ghost predicate Only(s: string, p: char -> bool) { forall i :: 0 <= i < |s| ==> p(s[i]) }

  lemma {:induction false} StripLeftExactly(s: string, p: char -> bool)
    ensures Only(s[..|s| - |StripLeft(s, p)|], p)
  {
    if s != [] && p(s[0]) {
      StripLeftExactly(s[1..], p);
      var k := |s| - |StripLeft(s, p)|;
      assert forall i :: 0 < i < k ==> s[..k][i] == s[1..][..k - 1][i - 1];
    }
  }

  lemma {:induction false} StripRightExactly(s: string, p: char -> bool)
    ensures Only(s[|StripRight(s, p)|..], p)
  {
    if s != [] && p(s[|s| - 1]) {
      var n, k := |s| - 1, |StripRight(s, p)|;
      StripRightExactly(s[..n], p);
      assert forall i :: 0 <= i < n - k ==> s[k..][i] == s[..n][k..][i];
    }
  }

  ghost predicate Surround(a: string, r: string, b: string, s: string, p: char -> bool) {
    s == a + r + b && Only(a, p) && Only(b, p)
  }

  /** r is s without the characters of one kind at either end. */
  ghost predicate IsStripped(r: string, s: string, p: char -> bool) {
    (r != [] ==> !p(r[0]) && !p(r[|r| - 1])) && exists a, b :: Surround(a, r, b, s, p)
  }

  lemma {:induction false} StripExactly(s: string, p: char -> bool)
    ensures IsStripped(Strip(s, p), s, p)
  {
    var left := StripLeft(s, p);
    var r := StripRight(left, p);
    StripLeftExactly(s, p);
    StripRightExactly(left, p);
    Pieces(s, left, r);
    assert Surround(s[..|s| - |left|], r, left[|r|..], s, p);
  }

  lemma {:induction false} Pieces(s: string, left: string, r: string)
    requires |left| <= |s| && left == s[|s| - |left|..] && |r| <= |left| && r == left[..|r|]
    ensures s == s[..|s| - |left|] + r + left[|r|..]
  {
  }

  function IsNamed(): string -> bool { (n: string) => n != "" }

  function Cleaned(clean: string -> string, parts: seq<string>): (r: seq<string>)
    ensures |r| == |parts|
  {
    seq(|parts|, i requires 0 <= i < |parts| => clean(parts[i]))
  }

  lemma {:induction false} NamesAreKept(clean: string -> string, parts: seq<string>)
    ensures NamesOf(clean, parts) == Keep(IsNamed(), Cleaned(clean, parts))
  {
    if parts != [] {
      NamesAreKept(clean, parts[1..]);
      assert Cleaned(clean, parts)[1..] == Cleaned(clean, parts[1..]);
    }
  }

  /** A part of a list, and the name in it: trimmed of white space, then of quotes. */
  ghost predicate NameIn(name: string, part: string) {
    exists trimmed :: IsStripped(trimmed, part, IsSpace) && IsStripped(name, trimmed, c => c in {'"', '\''})
  }

  lemma {:induction false} StrippedOf(r: string, s: string, p: char -> bool, q: char -> bool)
    requires IsStripped(r, s, p) && forall c :: p(c) == q(c)
    ensures IsStripped(r, s, q)
  {
    var a, b :| Surround(a, r, b, s, p);
    assert Surround(a, r, b, s, q);
  }

  lemma {:induction false} CleanedIsIn(part: string)
    ensures NameIn(CleanName(part), part)
  {
    var trimmed := Strip(part, IsSpace);
    StripExactly(part, IsSpace);
    StripExactly(trimmed, IsQuote);
    StrippedOf(Strip(trimmed, IsQuote), trimmed, IsQuote, c => c in {'"', '\''});
  }

  ghost predicate AreParts(content: string, parts: seq<string>) {
    parts != [] && Joined([','], parts) == content && forall part <- parts :: ',' !in part
  }

  ghost predicate AreNamesIn(cleaned: seq<string>, parts: seq<string>) {
    |cleaned| == |parts| && forall i :: 0 <= i < |parts| ==> NameIn(cleaned[i], parts[i])
  }

  lemma {:induction false} CleanedAreIn(parts: seq<string>)
    ensures AreNamesIn(Cleaned(CleanName, parts), parts)
  {
    forall i | 0 <= i < |parts| ensures NameIn(Cleaned(CleanName, parts)[i], parts[i]) {
      CleanedIsIn(parts[i]);
    }
  }

  ghost predicate ReadsAs(content: string, names: seq<string>, parts: seq<string>, cleaned: seq<string>,
                          ks: seq<nat>) {
    AreParts(content, parts) && AreNamesIn(cleaned, parts) && Selects(names, cleaned, IsNamed(), ks)
  }

  lemma {:induction false} NamesRead(content: string, parts: seq<string>, cleaned: seq<string>, names: seq<string>)
    requires AreParts(content, parts) && AreNamesIn(cleaned, parts) && names == Keep(IsNamed(), cleaned)
    ensures exists ks :: ReadsAs(content, names, parts, cleaned, ks)
  {
    var ks := KeepPositions(IsNamed(), cleaned);
    assert ReadsAs(content, names, parts, cleaned, ks);
  }

  /** The names read are those in the parts between the commas, trimmed and unquoted, but for empty ones, in order. */
  lemma {:induction false} NamesExactly(content: string)
    ensures exists parts, cleaned, ks :: ReadsAs(content, Names(content), parts, cleaned, ks)
  {
    var parts := SplitCommas(content);
    SplitExactly(content);
    CleanedAreIn(parts);
    NamesAreKept(CleanName, parts);
    NamesRead(content, parts, Cleaned(CleanName, parts), Names(content));
  }

  lemma {:induction false} RenderTailJoined(names: seq<string>, quoted: seq<string>)
    requires |quoted| == |names| > 0 && forall i :: 0 <= i < |names| ==> quoted[i] == "\"" + names[i] + "\""
    ensures Quoted(names[0]) + RenderTail(names[1..]) == Joined(", ", quoted)
    decreases |names|
  {
    if |names| > 1 {
      RenderTailJoined(names[1..], quoted[1..]);
      var rest := names[1..];
      assert RenderTail(rest) == ", " + (Quoted(rest[0]) + RenderTail(rest[1..]));
      assert quoted[0] + (", " + Joined(", ", quoted[1..])) == quoted[0] + ", " + Joined(", ", quoted[1..]);
    }
  }

  /** A list is written as its names in double quotes, with a comma and a space between them. */
  lemma {:induction false} RenderExactly(names: seq<string>, quoted: seq<string>)
    requires |quoted| == |names| && forall i :: 0 <= i < |names| ==> quoted[i] == "\"" + names[i] + "\""
    ensures Render(names) == Joined(", ", quoted)
  {
    if names != [] { RenderTailJoined(names, quoted); }
  }
}
