/**
  The readers of the packet validator, against encoders written from the
  standards: object identifiers (section 8.19 of ITU-T X.690), definite lengths
  (section 8.1.3 of ITU-T X.690) and Read Device Identification objects
  (section 6.21 of the Modbus Application Protocol V1.1b3).

  Shifts and masks are written as arithmetic: `b & 0x80` is b >= 128,
  `b & 0x7F` is b % 128, and `(v << 7) | low` is v * 128 + low.
 */
module BinaryReaders {
  import opened Collections
  import opened Text

  type Byte = b: int | 0 <= b < 256

  /* ---------- object identifiers ---------- */

  /** The sub-identifiers in a run of octets, when `acc` has been read of the first. */
  function SubIds(octets: seq<Byte>, acc: nat): seq<nat> {
    if octets == [] then []
    else
      var v := acc * 128 + octets[0] % 128;
      if octets[0] < 128 then [v] + SubIds(octets[1..], 0) else SubIds(octets[1..], v)
  }

  function Components(octets: seq<Byte>): seq<nat> {
    if octets == [] then [] else [octets[0] / 40, octets[0] % 40] + SubIds(octets[1..], 0)
  }

  method DecodeOid(octets: seq<Byte>) returns (text: string)
    ensures text == Dotted(Components(octets))
  {
    if octets == [] {
      return "";
    }
    var components: seq<nat> := [octets[0] / 40, octets[0] % 40];
    var value: nat := 0;
    for i := 1 to |octets|
      invariant components + SubIds(octets[i..], value) == Components(octets)
    {
      var b := octets[i];
      assert octets[i..][0] == b && octets[i..][1..] == octets[i + 1..];
      value := value * 128 + b % 128;
      if b < 128 {
        assert components + ([value] + SubIds(octets[i + 1..], 0))
            == (components + [value]) + SubIds(octets[i + 1..], 0);
        components := components + [value];
        value := 0;
      }
    }
    assert octets[|octets|..] == [] && components + [] == components;
    text := Dotted(components);
  }

  /** The leading octets of a sub-identifier, most significant first, each marked as continued. */
  function Leading(n: nat): seq<Byte> {
    if n == 0 then [] else Leading(n / 128) + [128 + n % 128]
  }

  function EncodeSubId(n: nat): seq<Byte> {
    Leading(n / 128) + [n % 128]
  }

  function EncodeSubIds(ns: seq<nat>): seq<Byte> {
    if ns == [] then [] else EncodeSubId(ns[0]) + EncodeSubIds(ns[1..])
  }

  /** An object identifier value: the first arc is 0, 1 or 2, and the second is at most 39 below 0 and 1. */
  predicate LegalOid(arcs: seq<nat>) {
    |arcs| >= 2 && arcs[0] <= 2 && (arcs[0] < 2 ==> arcs[1] <= 39)
  }

  function EncodeOid(arcs: seq<nat>): seq<Byte>
    requires LegalOid(arcs)
  {
    EncodeSubId(40 * arcs[0] + arcs[1]) + EncodeSubIds(arcs[2..])
  }

  lemma {:induction false} ReadLeading(n: nat, rest: seq<Byte>)
    ensures SubIds(Leading(n) + rest, 0) == SubIds(rest, n)
  {
    if n == 0 {
      assert Leading(n) + rest == rest;
    } else {
      var next := [128 + n % 128] + rest;
      ReadLeading(n / 128, next);
      assert Leading(n) + rest == Leading(n / 128) + next;
      assert next[1..] == rest;
      assert n == n / 128 * 128 + (128 + n % 128) % 128;
    }
  }

  lemma {:induction false} ReadSubId(n: nat, rest: seq<Byte>)
    ensures SubIds(EncodeSubId(n) + rest, 0) == [n] + SubIds(rest, 0)
  {
    var last := [n % 128] + rest;
    ReadLeading(n / 128, last);
    assert EncodeSubId(n) + rest == Leading(n / 128) + last;
    assert last[1..] == rest;
  }

  lemma {:induction false} ReadSubIds(ns: seq<nat>)
    ensures SubIds(EncodeSubIds(ns), 0) == ns
  {
    if ns != [] {
      ReadSubId(ns[0], EncodeSubIds(ns[1..]));
      ReadSubIds(ns[1..]);
    }
  }

  lemma {:induction false} FirstOctet(n: nat)
    ensures EncodeSubId(n) != []
    ensures n < 128 ==> EncodeSubId(n) == [n]
    ensures n >= 128 ==> EncodeSubId(n)[0] >= 128
  {
    if n >= 128 { LeadingIsContinued(n / 128); }
  }

  lemma {:induction false} LeadingIsContinued(n: nat)
    requires n > 0
    ensures Leading(n) != [] && Leading(n)[0] >= 128
  {
    if n >= 128 { LeadingIsContinued(n / 128); }
  }

  lemma {:induction false} ShortSecondArc(arcs: seq<nat>)
    requires LegalOid(arcs) && arcs[1] <= 39
    ensures Components(EncodeOid(arcs)) == arcs
  {
    var first := 40 * arcs[0] + arcs[1];
    FirstOctet(first);
    assert EncodeOid(arcs)[1..] == EncodeSubIds(arcs[2..]);
    ReadSubIds(arcs[2..]);
    assert arcs == [arcs[0], arcs[1]] + arcs[2..];
  }

  lemma {:induction false} LongSecondArc(arcs: seq<nat>)
    requires LegalOid(arcs) && arcs[1] > 39
    ensures EncodeOid(arcs) != [] && Components(EncodeOid(arcs))[0] >= 3
  {
    var first := 40 * arcs[0] + arcs[1];
    assert first >= 120;
    LargeFirstOctet(first);
    assert EncodeOid(arcs)[0] == EncodeSubId(first)[0];
  }

  lemma {:induction false} LargeFirstOctet(n: nat)
    requires n >= 120
    ensures EncodeSubId(n) != [] && EncodeSubId(n)[0] / 40 >= 3
  {
    FirstOctet(n);
  }

  /**
    Decoding inverts the encoding exactly for the identifiers whose second arc
    is at most 39.  The others, such as 2.999, are legal but come back with a
    first arc of 3 or more.
   */
  lemma {:induction false} OidRoundTrip(arcs: seq<nat>)
    requires LegalOid(arcs)
    ensures Dotted(Components(EncodeOid(arcs))) == Dotted(arcs) <==> arcs[1] <= 39
  {
    if arcs[1] <= 39 {
      ShortSecondArc(arcs);
    } else {
      LongSecondArc(arcs);
      if Dotted(Components(EncodeOid(arcs))) == Dotted(arcs) {
        DottedInjective(Components(EncodeOid(arcs)), arcs);
      }
    }
  }

  /** 2.999 is encoded as the octets 136 and 55, and read as 3.16.55. */
  lemma {:induction false} ArcMisread()
    ensures LegalOid([2, 999]) && EncodeOid([2, 999]) == [136, 55]
    ensures Components([136, 55]) == [3, 16, 55]
  {
    assert [2, 999][2..] == [] && EncodeSubIds([]) == [];
    assert Leading(0) == [] && Leading(8) == [] + [136];
    assert EncodeSubId(1079) == Leading(8) + [55] == [136, 55];
    assert EncodeOid([2, 999]) == [136, 55] + [];
    assert [136, 55][1..] == [55] && [55][1..] == [];
    assert SubIds([55], 0) == [55] + [];
  }

  /** The octets of one sub-identifier: all but the last are marked as continued. */
  ghost predicate IsSubId(group: seq<Byte>) {
    group != [] && group[|group| - 1] < 128 && forall i :: 0 <= i < |group| - 1 ==> group[i] >= 128
  }

  /** The number in the low seven bits of octets, most significant first. */
  function Base128(group: seq<Byte>): nat {
    if group == [] then 0 else Base128(group[..|group| - 1]) * 128 + group[|group| - 1] % 128
  }

  /** Octets read as sub-identifiers, but for continued ones left over at the end. */
  ghost predicate AreSubIds(values: seq<nat>, octets: seq<Byte>, groups: seq<seq<Byte>>, rest: seq<Byte>) {
    && octets == Flat(groups) + rest && (forall b <- rest :: b >= 128) && |values| == |groups|
    && forall k :: 0 <= k < |groups| ==> IsSubId(groups[k]) && values[k] == Base128(groups[k])
  }

  lemma {:induction false} SubIdInFront(values: seq<nat>, octets: seq<Byte>, groups: seq<seq<Byte>>, rest: seq<Byte>,
                                        group: seq<Byte>)
    requires AreSubIds(values, octets, groups, rest) && IsSubId(group)
    ensures AreSubIds([Base128(group)] + values, group + octets, [group] + groups, rest)
  {
    FlatCons(group, groups);
    assert group + (Flat(groups) + rest) == (group + Flat(groups)) + rest;
  }

  lemma {:induction false} EndsSubId(begun: seq<Byte>, b: Byte)
    requires b < 128 && forall x <- begun :: x >= 128
    ensures IsSubId(begun + [b])
  {
    forall i | 0 <= i < |begun| ensures (begun + [b])[i] >= 128 {
      assert begun[i] in begun;
    }
  }

  lemma {:induction false} BaseSnoc(begun: seq<Byte>, b: Byte)
    ensures Base128(begun + [b]) == Base128(begun) * 128 + b % 128
  {
    assert (begun + [b])[..|begun|] == begun;
  }

  lemma {:induction false} NextOctet(begun: seq<Byte>, octets: seq<Byte>)
    requires octets != []
    ensures begun + octets == (begun + [octets[0]]) + octets[1..]
    ensures var v := Base128(begun + [octets[0]]);
            SubIds(octets, Base128(begun)) ==
              if octets[0] < 128 then [v] + SubIds(octets[1..], 0) else SubIds(octets[1..], v)
  {
    BaseSnoc(begun, octets[0]);
  }

  lemma {:induction false} ContinuedSnoc(begun: seq<Byte>, b: Byte)
    requires b >= 128 && forall x <- begun :: x >= 128
    ensures forall x <- begun + [b] :: x >= 128
  {
  }

  lemma {:induction false} SubIdsFrom(begun: seq<Byte>, octets: seq<Byte>)
    returns (groups: seq<seq<Byte>>, rest: seq<Byte>)
    requires forall b <- begun :: b >= 128
    ensures AreSubIds(SubIds(octets, Base128(begun)), begun + octets, groups, rest)
    decreases octets
  {
    if octets == [] {
      groups, rest := [], begun;
      assert begun + [] == Flat<Byte>([]) + begun;
    } else {
      var next, more := begun + [octets[0]], octets[1..];
      NextOctet(begun, octets);
      if octets[0] < 128 {
        groups, rest := SubIdsFrom([], more);
        assert [] + more == more && Base128([]) == 0;
        EndsSubId(begun, octets[0]);
        SubIdInFront(SubIds(more, 0), more, groups, rest, next);
        groups := [next] + groups;
      } else {
        ContinuedSnoc(begun, octets[0]);
        groups, rest := SubIdsFrom(next, more);
      }
    }
  }

  /**
    What any octets are decoded to: two components from the first octet, and one
    for every sub-identifier in the others; one that does not end is dropped.
   */
  lemma {:induction false} ComponentsExactly(octets: seq<Byte>)
    ensures octets == [] ==> Components(octets) == []
    ensures octets != [] ==> exists values: seq<nat>, groups: seq<seq<Byte>>, rest: seq<Byte> ::
              && AreSubIds(values, octets[1..], groups, rest)
              && Components(octets) == [octets[0] / 40, octets[0] % 40] + values
  {
    if octets != [] {
      var groups, rest := SubIdsFrom([], octets[1..]);
      assert [] + octets[1..] == octets[1..] && Base128([]) == 0;
      var values := SubIds(octets[1..], 0);
      assert AreSubIds(values, octets[1..], groups, rest);
      assert Components(octets) == [octets[0] / 40, octets[0] % 40] + values;
      assert AreSubIds(values, octets[1..], groups, rest) && octets != [];
    }
  }

  /* ---------- values in SNMP payloads ---------- */

  /** A slice that stops at the end of the data, as slices do in the original. */
  function Clamped(s: seq<Byte>, from: nat, to: nat): seq<Byte> {
    var hi := Min(to, |s|);
    if from <= hi then s[from..hi] else []
  }

  function BigEndian(s: seq<Byte>): nat {
    if s == [] then 0 else BigEndian(s[..|s| - 1]) * 256 + s[|s| - 1]
  }

  /** The length at a position and where the contents start, if the length octet is there. */
  function LengthAt(payload: seq<Byte>, pos: nat): Option<(nat, nat)> {
    if pos >= |payload| then None
    else if payload[pos] >= 128 then
      var n := payload[pos] % 128;
      Some((BigEndian(Clamped(payload, pos + 1, pos + 1 + n)), pos + 1 + n))
    else Some((payload[pos], pos + 1))
  }

  /** How the octets of a value become text; for strings, UTF-8 with replacement characters. */
  type Decoder = seq<Byte> -> string

  /** The contents of an OCTET STRING at a position. */
  function StringAt(payload: seq<Byte>, pos: nat, decode: Decoder): Option<string> {
    if pos >= |payload| || payload[pos] != 4 then None
    else
      match LengthAt(payload, pos + 1)
      case None => None
      case Some((length, start)) => Some(decode(Clamped(payload, start, start + length)))
  }

  /** The contents of the OCTET STRING right behind the first occurrence of an encoded OID. */
  function StringBehind(payload: seq<Byte>, oid: seq<Byte>, decode: Decoder): Option<string> {
    var at := Find(oid, payload);
    if at < 0 then None else StringAt(payload, at + |oid|, decode)
  }

  /** Reads a length and moves behind it. */
  method ReadLength(payload: seq<Byte>, from: nat) returns (length: nat, pos: nat)
    requires from < |payload|
    ensures LengthAt(payload, from) == Some((length, pos))
  {
    length, pos := payload[from], from;
    if length >= 128 {
      var numOctets := length % 128;
      length := BigEndian(Clamped(payload, pos + 1, pos + 1 + numOctets));
      pos := pos + 1 + numOctets;
    } else {
      pos := pos + 1;
    }
  }

  method ReadString(payload: seq<Byte>, from: nat, decode: Decoder) returns (r: Option<string>)
    ensures r == StringAt(payload, from, decode)
  {
    if from >= |payload| || payload[from] != 4 {
      return None;
    }
    if from + 1 >= |payload| {
      return None;
    }
    var length, pos := ReadLength(payload, from + 1);
    r := Some(decode(Clamped(payload, pos, pos + length)));
  }

  /** The text of the value found; None also where the original raises and recovers. */
  method ExtractSnmpString(payload: seq<Byte>, oid: seq<Byte>, decode: Decoder) returns (r: Option<string>)
    ensures r == StringBehind(payload, oid, decode)
  {
    var idx := Find(oid, payload);
    if idx < 0 {
      return None;
    }
    r := ReadString(payload, idx + |oid|, decode);
  }

  /**
    A length: one octet below 128, or a count of octets and that many octets,
    minimal or not.  The two counts the standard reserves, 0 and 127, are read
    like the others.
   */
  predicate EncodesLength(octets: seq<Byte>, n: nat) {
    || (|octets| == 1 && octets[0] == n < 128)
    || (1 <= |octets| <= 128 && octets[0] == 127 + |octets| && BigEndian(octets[1..]) == n)
  }

  /** Reading at the end of one part of a payload is reading at the start of the next. */
  lemma {:induction false} ClampedPart(a: seq<Byte>, b: seq<Byte>, c: seq<Byte>)
    ensures Clamped(a + b + c, |a|, |a| + |b|) == b
  {
  }

  lemma {:induction false} LengthRoundTrip(a: seq<Byte>, length: seq<Byte>, c: seq<Byte>, n: nat)
    requires EncodesLength(length, n)
    ensures LengthAt(a + length + c, |a|) == Some((n, |a| + |length|))
  {
    var payload := a + length + c;
    assert payload[|a|] == length[0];
    assert payload == (a + [length[0]]) + length[1..] + c;
    ClampedPart(a + [length[0]], length[1..], c);
  }

  lemma {:induction false} StringAtRoundTrip(a: seq<Byte>, length: seq<Byte>, contents: seq<Byte>, after: seq<Byte>,
                                             decode: Decoder)
    requires EncodesLength(length, |contents|)
    ensures StringAt(a + [4] + length + contents + after, |a|, decode) == Some(decode(contents))
  {
    var payload := a + [4] + length + contents + after;
    assert payload[|a|] == 4;
    assert payload == (a + [4]) + length + (contents + after);
    LengthRoundTrip(a + [4], length, contents + after, |contents|);
    assert payload == (a + [4] + length) + contents + after;
    ClampedPart(a + [4] + length, contents, after);
  }

  /** `pat` does not occur in `s` before position k. */
  ghost predicate NotBefore(pat: seq<Byte>, s: seq<Byte>, k: nat) {
    forall i :: 0 <= i < k ==> !OccursAt(pat, s, i)
  }

  lemma {:induction false} FoundAt(before: seq<Byte>, pat: seq<Byte>, rest: seq<Byte>)
    requires NotBefore(pat, before + pat + rest, |before|)
    ensures Find(pat, before + pat + rest) == |before|
  {
    assert (before + pat + rest)[|before|..|before| + |pat|] == pat;
    FindIs(pat, before + pat + rest, |before|);
  }

  /** The value is recovered whatever surrounds it, provided the OID does not also occur earlier. */
  lemma {:induction false} StringRoundTrip(before: seq<Byte>, oid: seq<Byte>, length: seq<Byte>, contents: seq<Byte>,
                                           after: seq<Byte>, decode: Decoder)
    requires EncodesLength(length, |contents|)
    requires NotBefore(oid, before + oid + [4] + length + contents + after, |before|)
    ensures StringBehind(before + oid + [4] + length + contents + after, oid, decode) == Some(decode(contents))
  {
    var payload := before + oid + [4] + length + contents + after;
    assert payload == before + oid + ([4] + length + contents + after);
    FoundAt(before, oid, [4] + length + contents + after);
    assert payload == (before + oid) + [4] + length + contents + after;
    StringAtRoundTrip(before + oid, length, contents, after, decode);
  }

  /** The first occurrence of an encoded OID is at a position. */
  ghost predicate IsFirstAt(oid: seq<Byte>, payload: seq<Byte>, at: int) {
    OccursAt(oid, payload, at) && NotBefore(oid, payload, at)
  }

  lemma {:induction false} FirstAtIsFound(oid: seq<Byte>, payload: seq<Byte>)
    ensures Find(oid, payload) < 0 ==> forall at :: !IsFirstAt(oid, payload, at)
    ensures Find(oid, payload) >= 0 ==> IsFirstAt(oid, payload, Find(oid, payload))
    ensures forall at :: IsFirstAt(oid, payload, at) ==> at == Find(oid, payload)
  {
    FindFirst(oid, payload);
  }

  /** A string is read exactly where the OID occurs and an OCTET STRING's tag and one more octet follow it. */
  lemma {:induction false} StringReadExactly(payload: seq<Byte>, oid: seq<Byte>, decode: Decoder)
    ensures StringBehind(payload, oid, decode).Some? <==>
              exists at :: IsFirstAt(oid, payload, at) && at + |oid| + 1 < |payload| && payload[at + |oid|] == 4
  {
    FirstAtIsFound(oid, payload);
  }

  lemma {:induction false} ClampedEnd(a: seq<Byte>, b: seq<Byte>, n: nat)
    requires |b| <= n
    ensures Clamped(a + b, |a|, |a| + n) == b
  {
  }

  lemma {:induction false} CutInContents(front: seq<Byte>, length: seq<Byte>, n: nat, arrived: seq<Byte>,
                                         decode: Decoder)
    requires EncodesLength(length, n) && |arrived| <= n
    ensures StringAt(front + ([4] + length + arrived), |front|, decode) == Some(decode(arrived))
  {
    var payload := front + ([4] + length + arrived);
    assert payload[|front|] == 4;
    assert payload == (front + [4]) + length + arrived;
    LengthRoundTrip(front + [4], length, arrived, n);
    assert payload == (front + [4] + length) + arrived;
    ClampedEnd(front + [4] + length, arrived, n);
  }

  lemma {:induction false} CutInLength(front: seq<Byte>, length: seq<Byte>, n: nat, arrived: nat, decode: Decoder)
    requires EncodesLength(length, n) && 1 <= arrived < |length|
    ensures StringAt(front + ([4] + length[..arrived]), |front|, decode) == Some(decode([]))
  {
    var payload := front + ([4] + length[..arrived]);
    assert payload[|front|] == 4 && payload[|front| + 1] == length[0];
    assert length[0] % 128 == |length| - 1;
  }

  lemma {:induction false} SentPart(length: seq<Byte>, contents: seq<Byte>, cut: nat)
    requires 1 <= cut <= 1 + |length| + |contents|
    ensures ([4] + length + contents)[..cut] ==
              if cut >= 1 + |length| then [4] + length + contents[..cut - 1 - |length|] else [4] + length[..cut - 1]
  {
  }

  lemma {:induction false} TruncatedAt(front: seq<Byte>, length: seq<Byte>, contents: seq<Byte>, cut: nat,
                                       decode: Decoder)
    requires EncodesLength(length, |contents|) && 2 <= cut <= 1 + |length| + |contents|
    ensures StringAt(front + ([4] + length + contents)[..cut], |front|, decode)
         == Some(decode(contents[..Max(0, cut - 1 - |length|)]))
  {
    SentPart(length, contents, cut);
    if cut >= 1 + |length| {
      CutInContents(front, length, |contents|, contents[..cut - 1 - |length|], decode);
    } else {
      CutInLength(front, length, |contents|, cut - 1, decode);
      assert contents[..0] == [];
    }
  }

  lemma {:induction false} ReadBehind(before: seq<Byte>, oid: seq<Byte>, sent: seq<Byte>, decode: Decoder)
    requires NotBefore(oid, before + oid + sent, |before|)
    ensures StringBehind(before + oid + sent, oid, decode) == StringAt(before + oid + sent, |before + oid|, decode)
  {
    FoundAt(before, oid, sent);
  }

  lemma {:induction false} TooShort(front: seq<Byte>, sent: seq<Byte>, decode: Decoder)
    requires |sent| < 2
    ensures StringAt(front + sent, |front|, decode) == None
  {
  }

  /** A response cut anywhere behind the OID yields what arrived of the contents, once it has an octet of the length. */
  lemma {:induction false} TruncatedString(before: seq<Byte>, oid: seq<Byte>, length: seq<Byte>, contents: seq<Byte>,
                                           cut: nat, decode: Decoder)
    requires EncodesLength(length, |contents|) && cut <= 1 + |length| + |contents|
    requires NotBefore(oid, before + oid + ([4] + length + contents)[..cut], |before|)
    ensures StringBehind(before + oid + ([4] + length + contents)[..cut], oid, decode) ==
              if cut < 2 then None else Some(decode(contents[..Max(0, cut - 1 - |length|)]))
  {
    var sent := ([4] + length + contents)[..cut];
    ReadBehind(before, oid, sent, decode);
    if cut < 2 {
      TooShort(before + oid, sent, decode);
    } else {
      TruncatedAt(before + oid, length, contents, cut, decode);
    }
  }

  /** The decoding of object identifiers. */
  function OidText(): Decoder { (octets: seq<Byte>) => Dotted(Components(octets)) }

  /** The value right behind the first occurrence of an encoded OID; only one length octet is read. */
  function OidBehind(payload: seq<Byte>, prefix: seq<Byte>, decode: Decoder): Option<string> {
    var at := Find(prefix, payload);
    if at < 0 then None else OidAt(payload, at + |prefix|, decode)
  }

  function OidAt(payload: seq<Byte>, pos: nat, decode: Decoder): Option<string> {
    if pos + 1 >= |payload| || payload[pos] != 6 then None
    else
      var length: nat := payload[pos + 1];
      Some(decode(Clamped(payload, pos + 2, pos + 2 + length)))
  }

  method ExtractSnmpOid(payload: seq<Byte>, prefix: seq<Byte>) returns (r: Option<string>)
    ensures r == OidBehind(payload, prefix, OidText())
  {
    var idx := Find(prefix, payload);
    if idx < 0 {
      return None;
    }
    r := ReadOid(payload, idx + |prefix|);
  }

  method ReadOid(payload: seq<Byte>, from: nat) returns (r: Option<string>)
    ensures r == OidAt(payload, from, OidText())
  {
    if from >= |payload| || payload[from] != 6 {
      return None;
    }
    var pos := from + 1;
    if pos >= |payload| {
      return None;
    }
    var length: nat := payload[pos];
    pos := pos + 1;
    var octets := Clamped(payload, pos, pos + length);
    var text := DecodeOid(octets);
    assert text == OidText()(octets);
    r := Some(text);
  }

  /** An object identifier is read exactly where the prefix occurs and its tag and one more octet follow it. */
  lemma {:induction false} OidReadExactly(payload: seq<Byte>, prefix: seq<Byte>, decode: Decoder)
    ensures OidBehind(payload, prefix, decode).Some? <==>
              exists at ::
                IsFirstAt(prefix, payload, at) && at + |prefix| + 1 < |payload| && payload[at + |prefix|] == 6
  {
    FirstAtIsFound(prefix, payload);
  }

  /** A definite length in as few octets as possible. */
  predicate ShortestLength(octets: seq<Byte>, n: nat) {
    EncodesLength(octets, n) && (|octets| > 1 ==> n >= 128 && octets[1] > 0)
  }

  lemma {:induction false} BigEndianLarge(s: seq<Byte>)
    requires s != [] && s[0] > 0
    ensures BigEndian(s) >= 256 * (|s| - 1) && BigEndian(s) > 0
  {
    if |s| > 1 { BigEndianLarge(s[..|s| - 1]); }
  }

  /** Decoding never needs more octets to encode again than it read. */
  lemma {:induction false} SubIdsShort(octets: seq<Byte>, acc: nat)
    ensures |EncodeSubIds(SubIds(octets, acc))| <= |octets| + |Leading(acc)|
  {
    if octets != [] {
      var v := acc * 128 + octets[0] % 128;
      assert v / 128 == acc;
      if octets[0] < 128 {
        SubIdsShort(octets[1..], 0);
        assert ([v] + SubIds(octets[1..], 0))[1..] == SubIds(octets[1..], 0);
        assert |EncodeSubIds([v] + SubIds(octets[1..], 0))|
            == |EncodeSubId(v)| + |EncodeSubIds(SubIds(octets[1..], 0))|;
      } else {
        SubIdsShort(octets[1..], v);
      }
    }
  }

  lemma {:induction false} ShortSubId(n: nat)
    requires n < 256
    ensures |EncodeSubId(n)| <= 2
  {
    assert n / 128 == 0 || n / 128 == 1;
    assert Leading(0) == [] && |Leading(1)| == 1;
  }

  /** What is decoded to an identifier is at most one octet shorter than the identifier's encoding. */
  lemma {:induction false} DecodedFromEnough(octets: seq<Byte>, arcs: seq<nat>)
    requires LegalOid(arcs) && Components(octets) == arcs
    ensures |EncodeOid(arcs)| <= |octets| + 1 && octets != [] && octets[0] / 40 == arcs[0] && octets[0] % 40 == arcs[1]
  {
    assert octets != [] && Components(octets)[2..] == SubIds(octets[1..], 0);
    SubIdsShort(octets[1..], 0);
    assert Leading(0) == [];
    ShortSubId(40 * arcs[0] + arcs[1]);
  }

  lemma {:induction false} BigEndianOne(s: seq<Byte>)
    requires |s| == 1
    ensures BigEndian(s) == s[0]
  {
    assert s[..0] == [];
  }

  /** The slice read for a value of 128 octets or more starts with the length itself. */
  lemma {:induction false} LongValueMisread(length: seq<Byte>, arcs: seq<nat>, read: seq<Byte>)
    requires LegalOid(arcs) && |EncodeOid(arcs)| >= 128 && ShortestLength(length, |EncodeOid(arcs)|)
    requires |read| <= length[0] && (read == [] || read[0] == length[1])
    ensures Components(read) != arcs
  {
    BigEndianLarge(length[1..]);
    if |length| == 2 { BigEndianOne(length[1..]); }
    if Components(read) == arcs { DecodedFromEnough(read, arcs); }
  }

  /** A payload that answers with an object identifier. */
  function OidResponse(before: seq<Byte>, prefix: seq<Byte>, length: seq<Byte>, value: seq<Byte>,
                       after: seq<Byte>): seq<Byte> {
    before + prefix + ([6] + length + value + after)
  }

  /** The slice of a response that is read as the identifier. */
  function SliceRead(before: seq<Byte>, prefix: seq<Byte>, length: seq<Byte>, value: seq<Byte>,
                     after: seq<Byte>): seq<Byte>
    requires length != []
  {
    var start, n: nat := |before| + |prefix| + 2, length[0];
    Clamped(OidResponse(before, prefix, length, value, after), start, start + n)
  }

  lemma {:induction false} OidAtSlice(before: seq<Byte>, prefix: seq<Byte>, length: seq<Byte>, value: seq<Byte>,
                                      after: seq<Byte>, decode: Decoder)
    requires length != []
    ensures OidAt(OidResponse(before, prefix, length, value, after), |before| + |prefix|, decode)
         == Some(decode(SliceRead(before, prefix, length, value, after)))
  {
    var payload, pos := OidResponse(before, prefix, length, value, after), |before| + |prefix|;
    assert payload[pos] == 6 && payload[pos + 1] == length[0];
  }

  lemma {:induction false} FoundInResponse(before: seq<Byte>, prefix: seq<Byte>, length: seq<Byte>, value: seq<Byte>,
                                           after: seq<Byte>)
    requires NotBefore(prefix, OidResponse(before, prefix, length, value, after), |before|)
    ensures Find(prefix, OidResponse(before, prefix, length, value, after)) == |before|
  {
    FoundAt(before, prefix, [6] + length + value + after);
  }

  lemma {:induction false} OidRead(before: seq<Byte>, prefix: seq<Byte>, length: seq<Byte>, value: seq<Byte>,
                                   after: seq<Byte>, decode: Decoder)
    requires length != [] && NotBefore(prefix, OidResponse(before, prefix, length, value, after), |before|)
    ensures OidBehind(OidResponse(before, prefix, length, value, after), prefix, decode)
         == Some(decode(SliceRead(before, prefix, length, value, after)))
  {
    FoundInResponse(before, prefix, length, value, after);
    OidAtSlice(before, prefix, length, value, after, decode);
  }

  lemma {:induction false} ReadShort(before: seq<Byte>, prefix: seq<Byte>, length: seq<Byte>, value: seq<Byte>,
                                     after: seq<Byte>)
    requires length == [|value|] && |value| < 128
    ensures SliceRead(before, prefix, length, value, after) == value
  {
    ClampedPart(before + prefix + [6] + length, value, after);
    assert OidResponse(before, prefix, length, value, after) == before + prefix + [6] + length + value + after;
  }

  lemma {:induction false} ReadLong(before: seq<Byte>, prefix: seq<Byte>, length: seq<Byte>, value: seq<Byte>,
                                    after: seq<Byte>)
    requires |length| >= 2
    ensures var read := SliceRead(before, prefix, length, value, after);
            |read| <= length[0] && (read == [] || read[0] == length[1])
  {
    assert OidResponse(before, prefix, length, value, after)[|before| + |prefix| + 2] == length[1];
  }

  lemma {:induction false} SliceReadExactly(before: seq<Byte>, prefix: seq<Byte>, length: seq<Byte>, arcs: seq<nat>,
                                            after: seq<Byte>)
    requires LegalOid(arcs) && ShortestLength(length, |EncodeOid(arcs)|)
    ensures Dotted(Components(SliceRead(before, prefix, length, EncodeOid(arcs), after))) == Dotted(arcs) <==>
              arcs[1] <= 39 && |EncodeOid(arcs)| < 128
  {
    var read := SliceRead(before, prefix, length, EncodeOid(arcs), after);
    if |EncodeOid(arcs)| < 128 {
      ReadShort(before, prefix, length, EncodeOid(arcs), after);
      OidRoundTrip(arcs);
    } else {
      ReadLong(before, prefix, length, EncodeOid(arcs), after);
      LongValueMisread(length, arcs, read);
      if Dotted(Components(read)) == Dotted(arcs) { DottedInjective(Components(read), arcs); }
    }
  }

  /**
    An object identifier sent in a response comes back as its dotted text exactly
    when its second arc is at most 39 and its encoding is shorter than 128 octets,
    whatever surrounds it.
   */
  lemma {:induction false} SnmpOidRoundTrip(before: seq<Byte>, prefix: seq<Byte>, length: seq<Byte>, arcs: seq<nat>,
                                            after: seq<Byte>)
    requires LegalOid(arcs) && ShortestLength(length, |EncodeOid(arcs)|)
    requires NotBefore(prefix, OidResponse(before, prefix, length, EncodeOid(arcs), after), |before|)
    ensures OidBehind(OidResponse(before, prefix, length, EncodeOid(arcs), after), prefix, OidText())
              == Some(Dotted(arcs)) <==>
              arcs[1] <= 39 && |EncodeOid(arcs)| < 128
  {
    OidRead(before, prefix, length, EncodeOid(arcs), after, OidText());
    SliceReadExactly(before, prefix, length, arcs, after);
  }

  /* ---------- Modbus device identification ---------- */

  datatype Object = Object(id: Byte, value: seq<Byte>)

  type Values = map<Byte, seq<Byte>>

  /** The first n objects in the data, or as many as the data holds whole. */
  function Walk(data: seq<Byte>, n: nat, values: Values): Values {
    if n == 0 || |data| < 2 then values
    else
      var length: nat := data[1];
      if |data| < 2 + length then values
      else Walk(data[2 + length..], n - 1, values[data[0] := data[2..2 + length]])
  }

  /** None where the packet is skipped. */
  function DeviceIdentification(payload: seq<Byte>): Option<Values> {
    if |payload| < 14 || payload[7] != 0x2B || payload[8] != 0x0E then None
    else Some(Walk(payload[14..], payload[13], map[]))
  }

  method ParseDeviceIdentification(payload: seq<Byte>) returns (r: Option<Values>)
    ensures r == DeviceIdentification(payload)
  {
    if |payload| < 8 {
      return None;
    }
    var functionCode := payload[7];
    if functionCode != 0x2B || |payload| < 14 {
      return None;
    }
    var meiType := payload[8];
    if meiType != 0x0E {
      return None;
    }
    var numObjects := payload[13];
    var pos := 14;
    var values: Values := map[];
    for i := 0 to numObjects
      invariant 14 <= pos <= |payload|
      invariant Walk(payload[14..], numObjects, map[]) == Walk(payload[pos..], numObjects - i, values)
    {
      if pos + 2 > |payload| {
        break;
      }
      var id := payload[pos];
      var length := payload[pos + 1];
      if pos + 2 + length > |payload| {
        break;
      }
      WalkStep(payload, pos, numObjects - i, values);
      values := values[id := payload[pos + 2..pos + 2 + length]];
      pos := pos + 2 + length;
    }
    return Some(values);
  }

  lemma {:induction false} WalkStep(payload: seq<Byte>, pos: nat, n: nat, values: Values)
    requires n > 0 && pos + 2 <= |payload| && pos + 2 + payload[pos + 1] <= |payload|
    ensures var next := pos + 2 + payload[pos + 1];
            Walk(payload[pos..], n, values)
              == Walk(payload[next..], n - 1, values[payload[pos] := payload[pos + 2..next]])
  {
    var data, length := payload[pos..], payload[pos + 1];
    assert data[2..2 + length] == payload[pos + 2..pos + 2 + length];
    assert data[2 + length..] == payload[pos + 2 + length..];
  }

  predicate Encodable(objects: seq<Object>) {
    |objects| < 256 && forall o <- objects :: |o.value| < 256
  }

  function EncodeObject(o: Object): seq<Byte>
    requires |o.value| < 256
  {
    [o.id, |o.value|] + o.value
  }

  function EncodeObjects(objects: seq<Object>): seq<Byte>
    requires forall o <- objects :: |o.value| < 256
  {
    if objects == [] then [] else EncodeObject(objects[0]) + EncodeObjects(objects[1..])
  }

  /** How many of the objects lie wholly within the first `cut` octets of their encoding. */
  function Whole(objects: seq<Object>, cut: nat): (k: nat)
    ensures k <= |objects|
  {
    if objects == [] || cut < 2 + |objects[0].value| then 0
    else 1 + Whole(objects[1..], cut - 2 - |objects[0].value|)
  }

  /** The values objects give to ids, a later object overriding an earlier one. */
  function Overlay(values: Values, objects: seq<Object>): Values
    decreases objects
  {
    if objects == [] then values
    else Overlay(values[objects[0].id := objects[0].value], objects[1..])
  }

  lemma {:induction false} WalkReadsOne(o: Object, more: seq<Byte>, n: nat, values: Values)
    requires |o.value| < 256 && n > 0
    ensures Walk(EncodeObject(o) + more, n, values) == Walk(more, n - 1, values[o.id := o.value])
  {
    var data := EncodeObject(o) + more;
    assert data[0] == o.id && data[1] == |o.value|;
    assert data[2..2 + |o.value|] == o.value && data[2 + |o.value|..] == more;
  }

  lemma {:induction false} WalkStops(o: Object, cut: nat, n: nat, values: Values)
    requires |o.value| < 256 && cut < |EncodeObject(o)|
    ensures Walk(EncodeObject(o)[..cut], n, values) == values
  {
  }

  lemma {:induction false} CutBefore<T>(head: seq<T>, rest: seq<T>, cut: nat)
    requires cut <= |head|
    ensures (head + rest)[..cut] + [] == head[..cut]
  {
  }

  lemma {:induction false} CutBehind<T>(head: seq<T>, rest: seq<T>, more: nat, tail: seq<T>)
    requires more <= |rest|
    ensures (head + rest)[..|head| + more] + tail == head + (rest[..more] + tail)
  {
  }

  lemma {:induction false} WholeStep(objects: seq<Object>, more: nat)
    requires objects != []
    ensures var cut := 2 + |objects[0].value| + more;
            objects[..Whole(objects, cut)] == [objects[0]] + objects[1..][..Whole(objects[1..], more)]
  {
  }

  lemma {:induction false} OverlayStep(values: Values, o: Object, objects: seq<Object>)
    ensures Overlay(values, [o] + objects) == Overlay(values[o.id := o.value], objects)
  {
    assert ([o] + objects)[1..] == objects;
  }

  lemma {:induction false} WalkReadsObjects(objects: seq<Object>, cut: nat, tail: seq<Byte>, values: Values)
    requires forall o <- objects :: |o.value| < 256
    requires cut <= |EncodeObjects(objects)|
    requires tail == [] || cut == |EncodeObjects(objects)|
    ensures Walk(EncodeObjects(objects)[..cut] + tail, |objects|, values)
              == Overlay(values, objects[..Whole(objects, cut)])
    decreases |objects|
  {
    if objects != [] {
      var o, head := objects[0], EncodeObject(objects[0]);
      if cut < |head| {
        WalkStopsFirst(objects, cut, values);
      } else {
        WalkReadsObjects(objects[1..], cut - |head|, tail, values[o.id := o.value]);
        WalkReadsFirst(objects, cut - |head|, tail, values);
      }
    }
  }

  lemma {:induction false} WalkStopsFirst(objects: seq<Object>, cut: nat, values: Values)
    requires objects != [] && forall o <- objects :: |o.value| < 256
    requires cut < |EncodeObject(objects[0])|
    ensures Walk(EncodeObjects(objects)[..cut] + [], |objects|, values) == values
  {
    CutBefore(EncodeObject(objects[0]), EncodeObjects(objects[1..]), cut);
    WalkStops(objects[0], cut, |objects|, values);
  }

  /** Reading the first object, when the others are read as they should be. */
  lemma {:induction false} WalkReadsFirst(objects: seq<Object>, more: nat, tail: seq<Byte>, values: Values)
    requires objects != [] && |objects[0].value| < 256 && forall o <- objects[1..] :: |o.value| < 256
    requires more <= |EncodeObjects(objects[1..])|
    requires var rest, next := objects[1..], values[objects[0].id := objects[0].value];
             Walk(EncodeObjects(rest)[..more] + tail, |rest|, next) == Overlay(next, rest[..Whole(rest, more)])
    ensures var head, rest := EncodeObject(objects[0]), EncodeObjects(objects[1..]);
            Walk((head + rest)[..|head| + more] + tail, |objects|, values)
            == Overlay(values, objects[..Whole(objects, |head| + more)])
  {
    WalkPasses(objects[0], EncodeObjects(objects[1..]), more, tail, |objects|, values);
    OverlayWhole(objects, more, values);
  }

  lemma {:induction false} WalkPasses(o: Object, rest: seq<Byte>, more: nat, tail: seq<Byte>, n: nat, values: Values)
    requires |o.value| < 256 && more <= |rest| && n > 0
    ensures var head := EncodeObject(o);
            Walk((head + rest)[..|head| + more] + tail, n, values)
              == Walk(rest[..more] + tail, n - 1, values[o.id := o.value])
  {
    CutBehind(EncodeObject(o), rest, more, tail);
    WalkReadsOne(o, rest[..more] + tail, n, values);
  }

  lemma {:induction false} OverlayWhole(objects: seq<Object>, more: nat, values: Values)
    requires objects != []
    ensures var o, rest := objects[0], objects[1..];
            Overlay(values, objects[..Whole(objects, 2 + |o.value| + more)])
            == Overlay(values[o.id := o.value], rest[..Whole(rest, more)])
  {
    WholeStep(objects, more);
    OverlayStep(values, objects[0], objects[1..][..Whole(objects[1..], more)]);
  }

  lemma {:induction false} WholeEncoding(objects: seq<Object>)
    requires forall o <- objects :: |o.value| < 256
    ensures Whole(objects, |EncodeObjects(objects)|) == |objects|
  {
    if objects != [] { WholeEncoding(objects[1..]); }
  }

  predicate IsHeader(header: seq<Byte>, count: nat) {
    |header| == 14 && header[7] == 0x2B && header[8] == 0x0E && header[13] == count
  }

  lemma {:induction false} OverlayOfDistinct(values: Values, objects: seq<Object>)
    decreases objects
    requires forall i, j :: 0 <= i < j < |objects| ==> objects[i].id != objects[j].id
    ensures var r := Overlay(values, objects);
            && (forall o <- objects :: o.id in r && r[o.id] == o.value)
            && (forall id <- r :: (id in values && r[id] == values[id]) || exists o <- objects :: o.id == id)
            && (forall id <- values :: id in r && ((forall o <- objects :: o.id != id) ==> r[id] == values[id]))
  {
    if objects != [] {
      OverlayOfDistinct(values[objects[0].id := objects[0].value], objects[1..]);
      assert forall o <- objects[1..] :: o in objects && o.id != objects[0].id;
      assert forall o <- objects :: o == objects[0] || o in objects[1..];
    }
  }

  /**
    A response that lists objects with distinct ids is read as exactly the map
    of those objects, whatever follows them.
   */
  lemma {:induction false} DeviceIdentificationRoundTrip(header: seq<Byte>, objects: seq<Object>, tail: seq<Byte>)
    requires Encodable(objects) && IsHeader(header, |objects|)
    requires forall i, j :: 0 <= i < j < |objects| ==> objects[i].id != objects[j].id
    ensures var r := DeviceIdentification(header + EncodeObjects(objects) + tail);
            && r.Some?
            && (forall id :: id in r.value <==> exists o <- objects :: o.id == id)
            && (forall o <- objects :: o.id in r.value && r.value[o.id] == o.value)
  {
    WalkWholeResponse(header, objects, tail);
    OverlayOfDistinct(map[], objects);
  }

  lemma {:induction false} BehindHeader(header: seq<Byte>, data: seq<Byte>, count: nat)
    requires IsHeader(header, count)
    ensures DeviceIdentification(header + data) == Some(Walk(data, count, map[]))
  {
    assert (header + data)[14..] == data;
  }

  lemma {:induction false} WalkAll(objects: seq<Object>, tail: seq<Byte>)
    requires forall o <- objects :: |o.value| < 256
    ensures Walk(EncodeObjects(objects) + tail, |objects|, map[]) == Overlay(map[], objects)
  {
    var data := EncodeObjects(objects);
    WalkReadsObjects(objects, |data|, tail, map[]);
    assert data[..|data|] == data;
    WholeEncoding(objects);
    assert objects[..|objects|] == objects;
  }

  lemma {:induction false} WalkWholeResponse(header: seq<Byte>, objects: seq<Object>, tail: seq<Byte>)
    requires Encodable(objects) && IsHeader(header, |objects|)
    ensures DeviceIdentification(header + EncodeObjects(objects) + tail) == Some(Overlay(map[], objects))
  {
    WalkAll(objects, tail);
    BehindHeader(header, EncodeObjects(objects) + tail, |objects|);
    Reassociate(header, EncodeObjects(objects), tail);
  }

  lemma {:induction false} Reassociate<T>(a: seq<T>, b: seq<T>, c: seq<T>)
    ensures (a + b) + c == a + (b + c)
  {
  }

  /** A response cut short anywhere yields the objects that arrived whole. */
  lemma {:induction false} TruncatedDeviceIdentification(header: seq<Byte>, objects: seq<Object>, cut: nat)
    requires Encodable(objects) && IsHeader(header, |objects|) && cut <= |EncodeObjects(objects)|
    ensures DeviceIdentification(header + EncodeObjects(objects)[..cut])
         == Some(Overlay(map[], objects[..Whole(objects, cut)]))
  {
    var data := EncodeObjects(objects)[..cut];
    BehindHeader(header, data, |objects|);
    WalkReadsObjects(objects, cut, [], map[]);
    assert data + [] == data;
  }

  /** Objects one after the other, as many as asked for, or until the data holds no further one whole. */
  ghost predicate AreObjects(objects: seq<Object>, rest: seq<Byte>, data: seq<Byte>, n: nat) {
    && (forall o <- objects :: |o.value| < 256) && data == EncodeObjects(objects) + rest && |objects| <= n
    && (|objects| < n ==> |rest| < 2 || |rest| - 2 < rest[1])
  }

  lemma {:induction false} ObjectInFront(o: Object, objects: seq<Object>, rest: seq<Byte>, data: seq<Byte>, n: nat)
    requires |o.value| < 256 && AreObjects(objects, rest, data, n)
    ensures AreObjects([o] + objects, rest, EncodeObject(o) + data, n + 1)
  {
    assert ([o] + objects)[1..] == objects;
    assert EncodeObjects([o] + objects) == EncodeObject(o) + EncodeObjects(objects);
    assert EncodeObject(o) + (EncodeObjects(objects) + rest) == (EncodeObject(o) + EncodeObjects(objects)) + rest;
  }

  lemma {:induction false} ObjectsNext(o: Object, more: seq<Byte>, n: nat, values: Values, objects: seq<Object>,
                                       rest: seq<Byte>)
    requires |o.value| < 256 && AreObjects(objects, rest, more, n)
    requires Walk(more, n, values[o.id := o.value]) == Overlay(values[o.id := o.value], objects)
    ensures AreObjects([o] + objects, rest, EncodeObject(o) + more, n + 1)
    ensures Walk(EncodeObject(o) + more, n + 1, values) == Overlay(values, [o] + objects)
  {
    WalkReadsOne(o, more, n + 1, values);
    ObjectInFront(o, objects, rest, more, n);
    OverlayStep(values, o, objects);
  }

  lemma {:induction false} FirstObject(data: seq<Byte>) returns (o: Object, more: seq<Byte>)
    requires |data| >= 2 && |data| - 2 >= data[1]
    ensures |o.value| < 256 && data == EncodeObject(o) + more && |more| < |data|
  {
    var length: nat := data[1];
    o, more := Object(data[0], data[2..2 + length]), data[2 + length..];
  }

  lemma {:induction false} WalkExactly(data: seq<Byte>, n: nat, values: Values)
    returns (objects: seq<Object>, rest: seq<Byte>)
    ensures AreObjects(objects, rest, data, n) && Walk(data, n, values) == Overlay(values, objects)
    decreases n
  {
    if n == 0 || |data| < 2 || |data| - 2 < data[1] {
      objects, rest := [], data;
      assert EncodeObjects([]) + data == data;
    } else {
      var o, more := FirstObject(data);
      objects, rest := WalkExactly(more, n - 1, values[o.id := o.value]);
      ObjectsNext(o, more, n - 1, values, objects, rest);
      objects := [o] + objects;
    }
  }

  /** The last object with an id. */
  ghost predicate IsLastObject(objects: seq<Object>, id: Byte, k: int) {
    0 <= k < |objects| && objects[k].id == id && forall i :: k < i < |objects| ==> objects[i].id != id
  }

  lemma {:induction false} OverlayExactly(values: Values, objects: seq<Object>, id: Byte)
    ensures var r := Overlay(values, objects);
            && (id in r <==> id in values || exists k :: IsLastObject(objects, id, k))
            && (forall k :: IsLastObject(objects, id, k) ==> id in r && r[id] == objects[k].value)
            && ((forall k :: !IsLastObject(objects, id, k)) && id in values ==> r[id] == values[id])
    decreases objects
  {
    if objects != [] {
      var rest := objects[1..];
      OverlayExactly(values[objects[0].id := objects[0].value], rest, id);
      forall k | k > 0 ensures IsLastObject(objects, id, k) <==> IsLastObject(rest, id, k - 1) {
        LastObjectBehind(objects, id, k);
      }
      if (forall k :: !IsLastObject(rest, id, k)) && objects[0].id == id {
        NoLastObject(rest, id);
        assert forall i :: 0 < i < |objects| ==> objects[i] == rest[i - 1];
        assert IsLastObject(objects, id, 0);
      }
      if k :| IsLastObject(rest, id, k) {
        assert IsLastObject(objects, id, k + 1);
        assert objects[k + 1].id == id;
      }
    }
  }

  lemma {:induction false} LastObjectBehind(objects: seq<Object>, id: Byte, k: int)
    requires objects != [] && k > 0
    ensures IsLastObject(objects, id, k) <==> IsLastObject(objects[1..], id, k - 1)
  {
    assert forall i :: 0 < i < |objects| ==> objects[i] == objects[1..][i - 1];
  }

  lemma {:induction false} NoLastObject(objects: seq<Object>, id: Byte)
    requires forall k :: !IsLastObject(objects, id, k)
    ensures forall i :: 0 <= i < |objects| ==> objects[i].id != id
  {
    if objects != [] {
      var n := |objects| - 1;
      if objects[n].id == id {
        assert IsLastObject(objects, id, n);
      } else {
        forall k ensures !IsLastObject(objects[..n], id, k) {
          assert !IsLastObject(objects, id, k);
        }
        NoLastObject(objects[..n], id);
        assert forall i :: 0 <= i < n ==> objects[i] == objects[..n][i];
      }
    }
  }

  /**
    What any packet is read as: nothing unless it is long enough and carries the
    two codes, and otherwise the objects it holds, at most as many as it announces,
    the last of several with one id counting.
   */
  lemma {:induction false} DeviceIdentificationExactly(payload: seq<Byte>)
    ensures DeviceIdentification(payload).Some? <==> |payload| >= 14 && payload[7] == 0x2B && payload[8] == 0x0E
    ensures DeviceIdentification(payload).Some? ==> exists objects: seq<Object>, rest: seq<Byte> ::
              && AreObjects(objects, rest, payload[14..], payload[13])
              && forall id ::
                   && (id in DeviceIdentification(payload).value <==> exists k :: IsLastObject(objects, id, k))
                   && forall k :: IsLastObject(objects, id, k) ==>
                        DeviceIdentification(payload).value[id] == objects[k].value
  {
    if DeviceIdentification(payload).Some? {
      var objects, rest := WalkExactly(payload[14..], payload[13], map[]);
      forall id
        ensures id in DeviceIdentification(payload).value <==> exists k :: IsLastObject(objects, id, k)
        ensures forall k :: IsLastObject(objects, id, k) ==>
                  DeviceIdentification(payload).value[id] == objects[k].value
      {
        OverlayExactly(map[], objects, id);
      }
    }
  }
}
