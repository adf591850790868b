/**
  Dropping protocols from the templates of a source file.

  The text is seen as segments, each starting at an occurrence of `id="` (the
  first segment may start with other text).  Rewriting a segment that starts
  with the wanted template's marker edits its first protocol list; the loop over
  the text that it is itself editing is shown to do just that to every segment.
 */
module SourceRewriter {
  import opened Collections
  import opened Text
  import opened ProtocolLists

  const BOUNDARY := "id=\""
  const OPEN := "supported_protocols=["

  function Marker(id: string): string { BOUNDARY + id + ['"'] }

  /** Whether a text starts with a template's marker. */
  predicate Marked(id: string, s: string) { |Marker(id)| <= |s| && s[..|Marker(id)|] == Marker(id) }

  /* ---------- segments ---------- */

  /** Where the first segment of a text ends: at the next boundary behind its start. */
  function Cut(t: string): (k: nat)
    requires t != []
    ensures 0 < k <= |t|
  {
    var r := Find(BOUNDARY, t[1..]);
    if r < 0 then |t| else r + 1
  }

  function Segments(t: string): seq<string> {
    if t == [] then [] else [t[..Cut(t)]] + Segments(t[Cut(t)..])
  }

  /* ---------- one segment ---------- */

  /** The brackets of a segment's first protocol list: the text between positions `from` and `to`. */
  datatype Brackets = NoList | List(from: nat, to: nat)

  function FirstList(seg: string): (r: Brackets)
    ensures r.List? ==> |OPEN| <= r.from <= r.to < |seg| && seg[r.from - |OPEN|..r.from] == OPEN && seg[r.to] == ']'
    ensures r.List? ==> ']' !in seg[r.from..r.to]
  {
    var a := Find(OPEN, seg);
    if a < 0 then NoList
    else
      FindFirst(OPEN, seg);
      var from := a + |OPEN|;
      var b := Find([']'], seg[from..]);
      FindOne(']', seg[from..]);
      if b < 0 then NoList
      else assert seg[from..][..b] == seg[from..from + b]; List(from, from + b)
  }

  /** A protocol list opens at i, and a bracket closes at j. */
  ghost predicate Bracketed(seg: string, i: nat, j: nat) {
    OccursAt("supported_protocols=[", seg, i) && i + |OPEN| <= j < |seg| && seg[j] == ']'
  }

  /** The first list is between `from` and `to`: none opens earlier, and no bracket closes it earlier. */
  ghost predicate IsFirstList(seg: string, from: nat, to: nat) {
    && from >= |OPEN| && Bracketed(seg, from - |OPEN|, to)
    && forall i: nat, j: nat :: Bracketed(seg, i, j) ==> from - |OPEN| <= i && to <= j
  }

  /** A list is found whenever one opens and closes, and it is the first. */
  lemma {:induction false} FirstListExactly(seg: string)
    ensures FirstList(seg).List? <==> exists i: nat, j: nat :: Bracketed(seg, i, j)
    ensures forall from: nat, to: nat :: FirstList(seg) == List(from, to) <==> IsFirstList(seg, from, to)
  {
    FindFirst(OPEN, seg);
    var a := Find(OPEN, seg);
    if a >= 0 {
      var from := a + |OPEN|;
      FindOne(']', seg[from..]);
      forall i: nat, j: nat | Bracketed(seg, i, j)
        ensures a <= i && FirstList(seg).List? && FirstList(seg).to <= j
      {
        NoBracketBefore(seg, from, j);
      }
      if FirstList(seg).List? {
        var to := FirstList(seg).to;
        assert Bracketed(seg, a, to);
        assert IsFirstList(seg, from, to);
      }
    }
  }

  lemma {:induction false} NoBracketBefore(seg: string, from: nat, j: nat)
    requires from <= j < |seg| && seg[j] == ']'
    ensures var b := Find([']'], seg[from..]); 0 <= b && from + b <= j
  {
    var rest := seg[from..];
    FindOne(']', rest);
    assert rest[j - from] == ']';
    var b := Find([']'], rest);
    assert forall k :: 0 <= k < b ==> rest[..b][k] == rest[k];
  }

  function Kept(drop: set<string>): string -> bool { (n: string) => n !in drop }

  function Dropped(drop: set<string>): string -> bool { (n: string) => n in drop }

  datatype Edit = Edit(kept: seq<string>, removed: seq<string>)

  /** What is left of a text and the last edit made to it. */
  datatype Outcome = Outcome(text: string, last: Option<Edit>)

  /** The edit of one segment: none unless it is the template's and its list has something to drop. */
  function RewriteSegment(seg: string, id: string, drop: set<string>): Outcome {
    var list := FirstList(seg);
    if !Marked(id, seg) || list.NoList? then Outcome(seg, None)
    else
      var names := Names(seg[list.from..list.to]);
      if Keep(Dropped(drop), names) == [] then Outcome(seg, None)
      else
        Outcome(seg[..list.from] + Render(Keep(Kept(drop), names)) + seg[list.to..],
                Some(Edit(Keep(Kept(drop), names), Keep(Dropped(drop), names))))
  }

  function Then(a: Outcome, b: Outcome): Outcome {
    Outcome(a.text + b.text, if b.last.Some? then b.last else a.last)
  }

  type Editor = string -> Outcome

  /** The edit of one segment as a function, so that what follows need not look inside it. */
  function EditorFor(id: string, drop: set<string>): Editor { (seg: string) => RewriteSegment(seg, id, drop) }

  /** The whole rewrite: every segment by itself. */
  function Rewrite(f: Editor, t: string): Outcome {
    if t == [] then Outcome([], None) else Then(f(t[..Cut(t)]), Rewrite(f, t[Cut(t)..]))
  }

  /** An editor that leaves all but one template's segments alone. */
  ghost predicate OnlyEdits(f: Editor, id: string) {
    forall seg {:trigger f(seg)} :: !Marked(id, seg) ==> f(seg) == Outcome(seg, None)
  }

  /* ---------- boundaries ---------- */

  /** No boundary starts behind the first character. */
  ghost predicate NoInner(s: string) { forall i :: i > 0 ==> !OccursAt(BOUNDARY, s, i) }

  /** A template id whose marker holds no second boundary. */
  ghost predicate PlainId(id: string) { NoInner(Marker(id)) }

  /** A template id whose marker does not open a protocol list. */
  ghost predicate ListFree(id: string) { forall i :: !OccursAt(OPEN, Marker(id), i) }

  lemma {:induction false} BoundaryChars(s: string, i: int)
    ensures OccursAt(BOUNDARY, s, i) <==>
              0 <= i && i + 4 <= |s| && s[i] == 'i' && s[i + 1] == 'd' && s[i + 2] == '=' && s[i + 3] == '"'
  {
    if 0 <= i && i + 4 <= |s| {
      assert s[i..i + 4] == [s[i], s[i + 1], s[i + 2], s[i + 3]];
      assert BOUNDARY == ['i', 'd', '=', '"'];
    }
  }

  /** A boundary in a concatenation is in one of its parts, when the second starts like a boundary or with a bracket. */
  lemma {:induction false} BoundaryInPart(a: string, b: string, i: int)
    requires OccursAt(BOUNDARY, a + b, i)
    requires b == [] || b[0] == 'i' || b[0] == ']'
    ensures if i < |a| then OccursAt(BOUNDARY, a, i) else OccursAt(BOUNDARY, b, i - |a|)
  {
    BoundaryChars(a + b, i);
    BoundaryChars(a, i);
    BoundaryChars(b, i - |a|);
  }

  lemma {:induction false} CutFacts(t: string)
    requires t != []
    ensures NoInner(t[..Cut(t)])
    ensures Cut(t) < |t| ==> OccursAt(BOUNDARY, t, Cut(t)) && BOUNDARY <= t[Cut(t)..]
    ensures forall i :: 0 < i < Cut(t) ==> !OccursAt(BOUNDARY, t, i)
  {
    var k := Cut(t);
    FindFirst(BOUNDARY, t[1..]);
    forall i | i > 0 ensures OccursAt(BOUNDARY, t, i) <==> OccursAt(BOUNDARY, t[1..], i - 1) {
      BoundaryChars(t, i);
      BoundaryChars(t[1..], i - 1);
    }
    forall i | i > 0 ensures !OccursAt(BOUNDARY, t[..k], i) {
      BoundaryChars(t, i);
      BoundaryChars(t[..k], i);
    }
  }

  /** A text is cut where a boundary follows a part without inner boundaries. */
  lemma {:induction false} CutAt(a: string, b: string)
    requires a != [] && NoInner(a) && (b == [] || BOUNDARY <= b)
    ensures Cut(a + b) == |a| && (a + b)[..|a|] == a && (a + b)[|a|..] == b
  {
    var t := a + b;
    CutFacts(t);
    var k := Cut(t);
    BoundaryChars(b, 0);
    if k < |a| {
      BoundaryInPart(a, b, k);
    } else if |a| < k {
      assert OccursAt(BOUNDARY, t, |a|) by { assert t[|a|..|a| + 4] == b[..4]; }
    }
  }

  /* ---------- the loop ---------- */

  lemma {:induction false} OccursShift(pat: string, t: string, k: nat, i: int)
    requires k <= |t| && i >= 0
    ensures OccursAt(pat, t[k..], i) <==> OccursAt(pat, t, k + i)
  {
    if k + i + |pat| <= |t| { assert t[k..][i..i + |pat|] == t[k + i..k + i + |pat|]; }
  }

  lemma {:induction false} MarkerIsBoundary(id: string, t: string, i: int)
    requires OccursAt(Marker(id), t, i)
    ensures OccursAt(BOUNDARY, t, i)
  {
    assert t[i..i + 4] == t[i..i + |Marker(id)|][..4] == BOUNDARY;
  }

  /** The boundary behind a marker is the one that ends its segment. */
  lemma {:induction false} MarkerInSegment(id: string, t: string)
    requires PlainId(id) && Marked(id, t)
    ensures |Marker(id)| <= Cut(t)
    ensures var r := Find(BOUNDARY, t[|Marker(id)|..]);
            Cut(t) == |Marker(id)| + if r < 0 then |t| - |Marker(id)| else r
  {
    var m, k := Marker(id), Cut(t);
    CutFacts(t);
    FindFirst(BOUNDARY, t[|m|..]);
    if k < |t| {
      CutBehindMarker(id, t, k);
      OccursShift(BOUNDARY, t, |m|, k - |m|);
    }
    var r := Find(BOUNDARY, t[|m|..]);
    if r >= 0 { OccursShift(BOUNDARY, t, |m|, r); }
  }

  lemma {:induction false} CutBehindMarker(id: string, t: string, k: nat)
    requires PlainId(id) && Marked(id, t) && k > 0 && OccursAt(BOUNDARY, t, k)
    ensures k >= |Marker(id)|
  {
    var m := Marker(id);
    BoundaryChars(t, k);
    BoundaryChars(m, k);
    assert m[|m| - 1] == '"';
    assert forall i :: 0 <= i < |m| ==> t[i] == m[i];
  }

  lemma {:induction false} ThenAssoc(a: Outcome, b: Outcome, c: Outcome)
    ensures Then(Then(a, b), c) == Then(a, Then(b, c))
  {
    assert (a.text + b.text) + c.text == a.text + (b.text + c.text);
  }

  function Plain(text: string): Outcome { Outcome(text, None) }

  lemma {:induction false} Glue(a: string, b: string, ab: string, last: Option<Edit>, c: Outcome)
    requires ab == a + b
    ensures Then(Outcome(a, last), Then(Plain(b), c)) == Then(Outcome(ab, last), c)
  {
    ThenAssoc(Outcome(a, last), Plain(b), c);
  }

  /** Taking a piece in two steps. */
  lemma {:induction false} SliceSteps(t: string, k: nat, pos: nat)
    requires k <= pos <= |t|
    ensures t[..pos] == t[..k] + t[k..][..pos - k] && t[k..][pos - k..] == t[pos..]
  {
  }

  ghost predicate NoMarker(id: string, rest: string) {
    forall i :: i >= 0 ==> !OccursAt(Marker(id), rest, i)
  }

  ghost predicate FirstMarker(id: string, rest: string, k: nat) {
    OccursAt(Marker(id), rest, k) && forall i :: 0 <= i < k ==> !OccursAt(Marker(id), rest, i)
  }

  lemma {:induction false} MarkerShift(id: string, t: string, k: nat, pos: nat)
    requires k <= pos && FirstMarker(id, t, pos)
    ensures k <= |t| && FirstMarker(id, t[k..], pos - k)
  {
    forall i | i >= 0 ensures OccursAt(Marker(id), t[k..], i) <==> OccursAt(Marker(id), t, k + i) {
      OccursShift(Marker(id), t, k, i);
    }
  }

  lemma {:induction false} NoMarkerShift(id: string, t: string, k: nat)
    requires k <= |t| && NoMarker(id, t)
    ensures NoMarker(id, t[k..])
  {
    forall i | i >= 0 ensures !OccursAt(Marker(id), t[k..], i) {
      OccursShift(Marker(id), t, k, i);
    }
  }

  /** The first segment is left alone unless a marker starts the text. */
  lemma {:induction false} FirstSegmentKept(f: Editor, t: string, id: string)
    requires OnlyEdits(f, id) && t != [] && !OccursAt(Marker(id), t, 0)
    ensures Rewrite(f, t) == Then(Plain(t[..Cut(t)]), Rewrite(f, t[Cut(t)..]))
  {
    NotMarked(t, Cut(t), id);
  }

  lemma {:induction false} NoMarkerNoEdit(f: Editor, t: string, id: string)
    requires OnlyEdits(f, id) && NoMarker(id, t)
    ensures Rewrite(f, t) == Plain(t)
    decreases |t|
  {
    if t != [] {
      var k := Cut(t);
      NoMarkerShift(id, t, k);
      NoMarkerNoEdit(f, t[k..], id);
      FirstSegmentKept(f, t, id);
      assert t[..k] + t[k..] == t;
    }
  }

  lemma {:induction false} NotMarked(t: string, k: nat, id: string)
    requires k <= |t| && !OccursAt(Marker(id), t, 0)
    ensures !Marked(id, t[..k])
  {
  }

  /** Text before the first marker is left alone. */
  lemma {:induction false} SkipToMarker(f: Editor, t: string, id: string, pos: nat)
    requires OnlyEdits(f, id) && FirstMarker(id, t, pos)
    ensures Rewrite(f, t) == Then(Plain(t[..pos]), Rewrite(f, t[pos..]))
    decreases |t|
  {
    if pos == 0 {
      LoopStart(f, t);
    } else {
      var k := Cut(t);
      CutBeforeMarker(t, id, pos);
      FirstSegmentKept(f, t, id);
      MarkerShift(id, t, k, pos);
      SkipToMarker(f, t[k..], id, pos - k);
      SliceSteps(t, k, pos);
      Glue(t[..k], t[k..][..pos - k], t[..pos], None, Rewrite(f, t[pos..]));
    }
  }

  lemma {:induction false} CutBeforeMarker(t: string, id: string, pos: nat)
    requires pos > 0 && FirstMarker(id, t, pos)
    ensures t != [] && Cut(t) <= pos
  {
    CutFacts(t);
    MarkerIsBoundary(id, t, pos);
  }

  /** So is what is left of a segment behind its start. */
  lemma {:induction false} SkipTail(f: Editor, seg: string, c: nat, rest: string, id: string)
    requires OnlyEdits(f, id)
    requires 0 < c <= |seg| && NoInner(seg) && (rest == [] || BOUNDARY <= rest)
    ensures Rewrite(f, seg[c..] + rest) == Then(Plain(seg[c..]), Rewrite(f, rest))
  {
    var u := seg[c..];
    if u == [] {
      assert u + rest == rest && [] + Rewrite(f, rest).text == Rewrite(f, rest).text;
    } else {
      forall i | i >= 0 ensures !OccursAt(BOUNDARY, u, i) {
        OccursShift(BOUNDARY, seg, c, i);
      }
      CutAt(u, rest);
      if Marked(id, u) {
        assert u[0..4] == Marker(id)[..4] == BOUNDARY;
        assert OccursAt(BOUNDARY, u, 0);
      }
    }
  }

  lemma {:induction false} MiddleSlice(t: string, c: nat, k: nat)
    requires c <= k <= |t|
    ensures t[..k][c..] == t[c..k] && t[c..k] + t[k..] == t[c..]
  {
  }

  /** The text from a marker on: its segment, then the rest. */
  lemma {:induction false} AtMarker(f: Editor, t: string, id: string, c: nat)
    requires OnlyEdits(f, id)
    requires Marked(id, t) && 0 < c <= Cut(t)
    ensures var k, seg := Cut(t), f(t[..Cut(t)]);
            && Rewrite(f, t) == Then(seg, Rewrite(f, t[k..]))
            && Rewrite(f, t[c..]) == Then(Plain(t[c..k]), Rewrite(f, t[k..]))
  {
    var k := Cut(t);
    CutFacts(t);
    SkipTail(f, t[..k], c, t[k..], id);
    MiddleSlice(t, c, k);
  }

  /** Passing a segment that needs no edit. */
  lemma {:induction false} PassSegment(f: Editor, t: string, id: string, c: nat)
    requires OnlyEdits(f, id)
    requires Marked(id, t) && 0 < c <= Cut(t)
    requires f(t[..Cut(t)]) == Plain(t[..Cut(t)])
    ensures Rewrite(f, t) == Then(Plain(t[..c]), Rewrite(f, t[c..]))
  {
    var k := Cut(t);
    AtMarker(f, t, id, c);
    assert t[..k] == t[..c] + t[c..k];
    Glue(t[..c], t[c..k], t[..k], None, Rewrite(f, t[k..]));
  }

  /** Passing a segment whose edit leaves it unchanged from position `to` on. */
  lemma {:induction false} EditSegment(f: Editor, t: string, id: string, head: string, to: nat, e: Edit)
    requires OnlyEdits(f, id)
    requires Marked(id, t) && to < Cut(t)
    requires f(t[..Cut(t)]) == Outcome(head + t[to..Cut(t)], Some(e))
    ensures Rewrite(f, t) == Then(Outcome(head + [t[to]], Some(e)), Rewrite(f, t[to + 1..]))
  {
    var k := Cut(t);
    AtMarker(f, t, id, to + 1);
    SliceHead(t, to, k);
    EditJoin(head, t[to], t[to + 1..k], t[to..k], Some(e), Rewrite(f, t[k..]));
  }

  lemma {:induction false} SliceHead(t: string, i: nat, k: nat)
    requires i < k <= |t|
    ensures t[i..k] == [t[i]] + t[i + 1..k]
  {
  }

  lemma {:induction false} EditJoin(a: string, c: char, b: string, cb: string, last: Option<Edit>, rest: Outcome)
    requires cb == [c] + b && last.Some?
    ensures Then(Outcome(a + cb, last), rest) == Then(Outcome(a + [c], last), Then(Plain(b), rest))
  {
    assert a + cb == (a + [c]) + b;
    ThenAssoc(Outcome(a + [c], last), Plain(b), rest);
  }

  function LastOf(kept: seq<string>, removed: seq<string>): Option<Edit> {
    if removed == [] then None else Some(Edit(kept, removed))
  }

  /** f is the editor of this template. */
  ghost predicate Implements(f: Editor, id: string, drop: set<string>) {
    OnlyEdits(f, id) && forall seg {:trigger RewriteSegment(seg, id, drop)} :: f(seg) == RewriteSegment(seg, id, drop)
  }

  lemma {:induction false} EditorImplements(id: string, drop: set<string>)
    ensures Implements(EditorFor(id, drop), id, drop)
  {
  }

  method PatchTemplate(original: string, id: string, drop: set<string>)
    returns (text: string, kept: seq<string>, removed: seq<string>)
    requires PlainId(id)
    ensures Rewrite(EditorFor(id, drop), original) == Outcome(text, LastOf(kept, removed))
  {
    EditorImplements(id, drop);
    text, kept, removed := PatchLoop(EditorFor(id, drop), original, id, drop);
  }

  /**
    The rewriting loop.  It searches the text it has already edited, behind the
    cursor; the text shrinks or grows, but what is left behind the cursor gets
    shorter every time.
   */
  method PatchLoop(ghost f: Editor, original: string, id: string, drop: set<string>)
    returns (text: string, kept: seq<string>, removed: seq<string>)
    requires PlainId(id) && Implements(f, id, drop)
    ensures Rewrite(f, original) == Outcome(text, LastOf(kept, removed))
  {
    text, kept, removed := original, [], [];
    var cursor: nat := 0;
    LoopStart(f, original);
    var searching := true;
    while searching
      invariant cursor <= |text|
      invariant StillToDo(f, text, cursor, LastOf(kept, removed)) == Rewrite(f, original)
      invariant !searching ==> cursor == |text|
      decreases searching, |text| - cursor
    {
      searching, text, cursor, kept, removed := Round(f, text, cursor, id, drop, kept, removed);
    }
    LoopEnd(f, text, cursor, LastOf(kept, removed));
  }

  /** One round: the search for the next marker and, if there is one, the edit of its segment. */
  method Round(ghost f: Editor, text: string, cursor: nat, id: string, drop: set<string>, kept: seq<string>,
               removed: seq<string>)
    returns (found: bool, newText: string, newCursor: nat, newKept: seq<string>, newRemoved: seq<string>)
    requires PlainId(id) && cursor <= |text| && Implements(f, id, drop)
    ensures newCursor <= |newText|
    ensures if found then |newText| - newCursor < |text| - cursor else newCursor == |newText|
    ensures StillToDo(f, newText, newCursor, LastOf(newKept, newRemoved))
              == StillToDo(f, text, cursor, LastOf(kept, removed))
  {
    var at := NextMarker(f, text, cursor, id, LastOf(kept, removed));
    found := at >= 0;
    if found {
      newText, newCursor, newKept, newRemoved := PatchSegment(f, text, at, id, drop, kept, removed);
    } else {
      newText, newCursor, newKept, newRemoved := text, |text|, kept, removed;
    }
  }

  /** The outcome of the whole rewrite, seen from a cursor: what is before it is done. */
  ghost function StillToDo(f: Editor, text: string, cursor: nat, last: Option<Edit>): Outcome
    requires cursor <= |text|
  {
    Then(Outcome(text[..cursor], last), Rewrite(f, text[cursor..]))
  }

  /** Where the next marker behind the cursor is, if there is one; nothing before it needs an edit. */
  method NextMarker(ghost f: Editor, text: string, cursor: nat, id: string, ghost last: Option<Edit>) returns (at: int)
    requires cursor <= |text| && OnlyEdits(f, id)
    ensures at < 0 ==> StillToDo(f, text, |text|, last) == StillToDo(f, text, cursor, last)
    ensures at >= 0 ==>
      && cursor <= at <= |text| && Marked(id, text[at..])
      && StillToDo(f, text, at, last) == StillToDo(f, text, cursor, last)
  {
    var found := Find(Marker(id), text[cursor..]);
    MarkerFound(id, text[cursor..]);
    if found >= 0 {
      at := cursor + found;
      ReachMarker(f, text, cursor, at, id, last);
    } else {
      NothingLeft(f, text, cursor, id, last);
      at := -1;
    }
  }

  lemma {:induction false} MarkerFound(id: string, rest: string)
    ensures var r := Find(Marker(id), rest); if r < 0 then NoMarker(id, rest) else FirstMarker(id, rest, r)
  {
    FindFirst(Marker(id), rest);
  }

  lemma {:induction false} LoopStart(f: Editor, t: string)
    ensures StillToDo(f, t, 0, None) == Rewrite(f, t)
  {
    assert t[..0] == [] && t[0..] == t && [] + Rewrite(f, t).text == Rewrite(f, t).text;
  }

  lemma {:induction false} NothingLeft(f: Editor, text: string, cursor: nat, id: string, last: Option<Edit>)
    requires OnlyEdits(f, id) && cursor <= |text| && NoMarker(id, text[cursor..])
    ensures StillToDo(f, text, |text|, last) == StillToDo(f, text, cursor, last)
  {
    NoMarkerNoEdit(f, text[cursor..], id);
    assert text[..cursor] + text[cursor..] == text[..|text|] + [];
  }

  lemma {:induction false} LoopEnd(f: Editor, text: string, cursor: nat, last: Option<Edit>)
    requires cursor == |text|
    ensures StillToDo(f, text, cursor, last) == Outcome(text, last)
  {
    assert text[..cursor] + [] == text;
  }

  lemma {:induction false} ReachMarker(f: Editor, text: string, cursor: nat, at: nat, id: string, last: Option<Edit>)
    requires OnlyEdits(f, id)
    requires cursor <= |text| && cursor <= at && FirstMarker(id, text[cursor..], at - cursor)
    ensures at <= |text| && Marked(id, text[at..])
    ensures StillToDo(f, text, at, last) == StillToDo(f, text, cursor, last)
  {
    var rest, found := text[cursor..], at - cursor;
    SkipToMarker(f, rest, id, found);
    SliceSteps(text, cursor, at);
    assert rest[found..][..|Marker(id)|] == rest[found..found + |Marker(id)|];
    Glue(text[..cursor], rest[..found], text[..at], last, Rewrite(f, text[at..]));
  }

  /** What dropping leaves differs from the list, as sets, exactly when something is dropped. */
  lemma {:induction false} SetsDiffer(names: seq<string>, drop: set<string>)
    ensures (set n | n in names) != (set n | n in Keep(Kept(drop), names)) <==> Keep(Dropped(drop), names) != []
  {
    KeepSubset(Kept(drop), names);
    KeepSubset(Dropped(drop), names);
    var all, left := (set n | n in names), (set n | n in Keep(Kept(drop), names));
    var dropped := Keep(Dropped(drop), names);
    if dropped != [] {
      assert dropped[0] in dropped;
      assert dropped[0] in all && dropped[0] !in left;
    } else {
      forall n | n in names ensures n in left {
        assert n !in dropped;
      }
    }
  }

  /** The list and the edit of one segment of this template. */
  method SegmentEdit(seg: string, id: string, drop: set<string>)
    returns (list: Brackets, replacement: string, edit: Option<Edit>)
    requires Marked(id, seg)
    ensures list.List? ==> list.from <= list.to < |seg|
    ensures edit.None? ==> RewriteSegment(seg, id, drop) == Plain(seg)
    ensures edit.Some? ==>
      && list.List? && edit.value.removed != []
      && RewriteSegment(seg, id, drop) == Outcome(seg[..list.from] + replacement + seg[list.to..], edit)
  {
    list, replacement, edit := FirstList(seg), "", None;
    if list.List? {
      var protocols := Names(seg[list.from..list.to]);
      var newProtocols := Keep(Kept(drop), protocols);
      SetsDiffer(protocols, drop);
      if (set n | n in protocols) != (set n | n in newProtocols) {
        replacement := Render(newProtocols);
        edit := Some(Edit(newProtocols, Keep(Dropped(drop), protocols)));
      }
    }
  }

  /** The same, as the editor has it. */
  method EditOf(ghost f: Editor, seg: string, id: string, drop: set<string>)
    returns (list: Brackets, replacement: string, edit: Option<Edit>)
    requires Marked(id, seg) && Implements(f, id, drop)
    ensures list.List? ==> list.from <= list.to < |seg|
    ensures edit.None? ==> f(seg) == Plain(seg)
    ensures edit.Some? ==>
      && list.List? && edit.value.removed != []
      && f(seg) == Outcome(seg[..list.from] + replacement + seg[list.to..], edit)
  {
    list, replacement, edit := SegmentEdit(seg, id, drop);
    assert f(seg) == RewriteSegment(seg, id, drop);
  }

  /** One round of the loop, for the marker found at `pos`. */
  method PatchSegment(ghost f: Editor, text: string, pos: nat, id: string, drop: set<string>, kept: seq<string>,
                      removed: seq<string>)
    returns (newText: string, cursor: nat, newKept: seq<string>, newRemoved: seq<string>)
    requires PlainId(id) && pos <= |text| && Marked(id, text[pos..])
    requires Implements(f, id, drop)
    ensures cursor <= |newText| && |newText| - cursor < |text| - pos
    ensures StillToDo(f, newText, cursor, LastOf(newKept, newRemoved)) == StillToDo(f, text, pos, LastOf(kept, removed))
  {
    var end := SegmentEnd(text, pos, id);
    newText, newKept, newRemoved := text, kept, removed;
    var list, replacement, edit := EditOf(f, text[pos..end], id, drop);
    if edit.Some? {
      newKept, newRemoved := edit.value.kept, edit.value.removed;
      newText, cursor := ReplaceList(f, text, pos, end, id, list.from, list.to, replacement, edit.value,
        LastOf(kept, removed));
    } else {
      cursor := if list.List? then pos + list.to + 1 else pos + |Marker(id)|;
      PassText(f, text, pos, end, id, cursor, LastOf(kept, removed));
    }
  }

  /** Leaving a segment that needs no edit. */
  lemma {:induction false} PassText(f: Editor, text: string, pos: nat, end: nat, id: string, cursor: nat,
                                    last: Option<Edit>)
    requires OnlyEdits(f, id) && pos <= |text| && Marked(id, text[pos..])
    requires end == pos + Cut(text[pos..]) && pos < cursor <= end && f(text[pos..end]) == Plain(text[pos..end])
    ensures StillToDo(f, text, cursor, last) == StillToDo(f, text, pos, last)
  {
    SegmentText(text, pos, end);
    PassRest(f, text[..pos], text[pos..], text[pos..end], id, cursor - pos, last);
    SliceSteps(text, pos, cursor);
  }

  lemma {:induction false} PassRest(f: Editor, done: string, rest: string, seg: string, id: string, c: nat,
                                    last: Option<Edit>)
    requires OnlyEdits(f, id) && Marked(id, rest) && 0 < c <= Cut(rest)
    requires seg == rest[..Cut(rest)] && f(seg) == Plain(seg)
    ensures Then(Outcome(done + rest[..c], last), Rewrite(f, rest[c..])) == Then(Outcome(done, last), Rewrite(f, rest))
  {
    PassSegment(f, rest, id, c);
    ThenAssoc(Outcome(done, last), Plain(rest[..c]), Rewrite(f, rest[c..]));
  }

  lemma {:induction false} SegmentText(text: string, pos: nat, end: nat)
    requires pos <= end <= |text|
    ensures text[pos..end] == text[pos..][..end - pos]
  {
  }

  /** The next boundary behind a marker, or the end of the text. */
  method SegmentEnd(text: string, pos: nat, id: string) returns (end: nat)
    requires PlainId(id) && pos <= |text| && Marked(id, text[pos..])
    ensures end == pos + Cut(text[pos..]) && pos + |Marker(id)| <= end <= |text|
    ensures text[pos..end] == text[pos..][..Cut(text[pos..])] && Marked(id, text[pos..end])
  {
    ghost var t := text[pos..];
    var markerEnd := pos + |Marker(id)|;
    MarkerInSegment(id, t);
    assert text[markerEnd..] == t[|Marker(id)|..];
    var next := Find(BOUNDARY, text[markerEnd..]);
    end := if next >= 0 then markerEnd + next else |text|;
    assert text[pos..end] == t[..Cut(t)];
    assert t[..Cut(t)][..|Marker(id)|] == t[..|Marker(id)|];
  }

  /** The edit itself: the list between the brackets is replaced and the cursor put behind it. */
  method ReplaceList(ghost f: Editor, text: string, pos: nat, ghost end: nat, id: string, from: nat, to: nat,
                     replacement: string, ghost e: Edit, ghost last: Option<Edit>)
    returns (newText: string, cursor: nat)
    requires pos <= |text| && Marked(id, text[pos..]) && end == pos + Cut(text[pos..]) && from <= to < end - pos
    requires OnlyEdits(f, id)
    requires f(text[pos..end]) == Outcome(text[pos..end][..from] + replacement + text[pos..end][to..], Some(e))
    ensures cursor <= |newText| && |newText| - cursor < |text| - pos
    ensures StillToDo(f, newText, cursor, Some(e)) == StillToDo(f, text, pos, last)
  {
    newText := text[..pos + from] + replacement + text[pos + to..];
    cursor := pos + from + |replacement| + 1;
    SegmentParts(text, pos, end, from, to);
    ReplacedOutcome(f, text, pos, id, from, to, replacement, e, last, newText, cursor);
  }

  lemma {:induction false} SegmentParts(text: string, pos: nat, end: nat, from: nat, to: nat)
    requires from <= to && pos + to < end <= |text|
    ensures var t := text[pos..];
            text[pos..end] == t[..end - pos] && text[pos..end][..from] == t[..from]
              && text[pos..end][to..] == t[to..end - pos]
  {
  }

  lemma {:induction false} ReplacedOutcome(f: Editor, text: string, pos: nat, id: string, from: nat, to: nat,
                                           replacement: string, e: Edit, last: Option<Edit>, newText: string,
                                           cursor: nat)
    requires pos <= |text| && OnlyEdits(f, id) && Marked(id, text[pos..]) && from <= to < Cut(text[pos..])
    requires var t := text[pos..]; f(t[..Cut(t)]) == Outcome(t[..from] + replacement + t[to..Cut(t)], Some(e))
    requires newText == text[..pos + from] + replacement + text[pos + to..] && cursor == pos + from + |replacement| + 1
    ensures cursor <= |newText| && |newText| - cursor < |text| - pos
    ensures StillToDo(f, newText, cursor, Some(e)) == StillToDo(f, text, pos, last)
  {
    var t := text[pos..];
    var head := t[..from] + replacement;
    EditSegment(f, t, id, head, to, e);
    Resume(text, pos, from, to, replacement);
    ThenAssoc(Outcome(text[..pos], last), Outcome(head + [t[to]], Some(e)), Rewrite(f, t[to + 1..]));
  }

  /** Where an edit leaves the cursor. */
  lemma {:induction false} Resume(text: string, pos: nat, from: nat, to: nat, replacement: string)
    requires pos <= |text| && from <= to < |text| - pos
    ensures var newText, cursor := text[..pos + from] + replacement + text[pos + to..], pos + from + |replacement| + 1;
            && cursor <= |newText|
            && newText[cursor..] == text[pos..][to + 1..]
            && newText[..cursor] == text[..pos] + (text[pos..][..from] + replacement + [text[pos..][to]])
  {
    var head, tail := text[..pos + from] + replacement, text[pos + to..];
    assert tail == [text[pos + to]] + text[pos + to + 1..];
    assert text[..pos + from] == text[..pos] + text[pos..][..from];
    assert (head + tail)[..|head| + 1] == head + [tail[0]] && (head + tail)[|head| + 1..] == tail[1..];
  }

  /* ---------- what an edit leaves behind ---------- */

  /** A name that makes a boundary with the quote written behind it. */
  predicate EndsLikeId(name: string) { |name| >= 3 && name[|name| - 3..] == "id=" }

  /** No name of a segment's first list ends like that, as identifiers do not. */
  ghost predicate PlainNames(seg: string) {
    forall from: nat, to: nat :: IsFirstList(seg, from, to) ==> forall n <- Names(seg[from..to]) :: !EndsLikeId(n)
  }

  /** Nothing to drop is left in a segment's first list. */
  ghost predicate Clean(seg: string, drop: set<string>) {
    forall from: nat, to: nat :: IsFirstList(seg, from, to) ==> forall n <- Names(seg[from..to]) :: n !in drop
  }

  lemma {:induction false} ListedNames(seg: string, drop: set<string>)
    ensures var list := FirstList(seg);
            && (Clean(seg, drop) <==> (list.List? ==> forall n <- Names(seg[list.from..list.to]) :: n !in drop))
            && (PlainNames(seg) <==> (list.List? ==> forall n <- Names(seg[list.from..list.to]) :: !EndsLikeId(n)))
  {
    FirstListExactly(seg);
    var list := FirstList(seg);
    if list.List? {
      assert IsFirstList(seg, list.from, list.to);
      forall from: nat, to: nat | IsFirstList(seg, from, to) ensures list == List(from, to) {
      }
    } else {
      forall from: nat, to: nat ensures !IsFirstList(seg, from, to) {
        assert FirstList(seg) != List(from, to);
      }
    }
  }

  /** A template's list starts behind its marker. */
  lemma {:induction false} ListBehindMarker(seg: string, id: string, a: nat)
    requires ListFree(id) && Marked(id, seg) && OccursAt(OPEN, seg, a)
    ensures |Marker(id)| <= a
  {
    var m := Marker(id);
    assert forall i :: 0 <= i < |OPEN| ==> OPEN[i] != '"' && seg[a + i] == OPEN[i];
    assert seg[|m| - 1] == m[|m| - 1] == '"';
    OccursInPrefix(OPEN, m, seg, a);
  }

  lemma {:induction false} OccursInPrefix(pat: string, m: string, s: string, a: nat)
    requires m <= s && OccursAt(pat, s, a)
    ensures a + |pat| <= |m| ==> OccursAt(pat, m, a)
  {
    if a + |pat| <= |m| { assert m[a..a + |pat|] == s[a..a + |pat|]; }
  }

  /** A list's brackets, found in a text put together of what is before, between and behind them. */
  lemma {:induction false} ListOf(head: string, middle: string, tail: string)
    requires |OPEN| <= |head| && Find(OPEN, head + (middle + ([']'] + tail))) == |head| - |OPEN| && ']' !in middle
    ensures FirstList(head + (middle + ([']'] + tail))) == List(|head|, |head| + |middle|)
  {
    var r := head + (middle + ([']'] + tail));
    assert r[|head|..] == middle + ([']'] + tail);
    CloseAfterReplacing(middle, tail);
  }

  /** Replacing what is between the brackets leaves the list where it was. */
  lemma {:induction false} ListAfterReplacing(seg: string, from: nat, to: nat, middle: string)
    requires FirstList(seg) == List(from, to) && ']' !in middle
    ensures var r := seg[..from] + middle + seg[to..];
            FirstList(r) == List(from, from + |middle|) && r[from..from + |middle|] == middle
  {
    var head, tail := seg[..from], seg[to + 1..];
    OpenAfterReplacing(seg, from, middle + ([']'] + tail));
    ListOf(head, middle, tail);
    assert seg[to..] == [']'] + tail;
    assert head + middle + seg[to..] == head + (middle + ([']'] + tail));
  }

  lemma {:induction false} OpenAfterReplacing(seg: string, from: nat, rest: string)
    requires FirstList(seg).List? && FirstList(seg).from == from
    ensures Find(OPEN, seg[..from] + rest) == from - |OPEN|
  {
    var r, a := seg[..from] + rest, from - |OPEN|;
    FindFirst(OPEN, seg);
    assert r[a..from] == seg[a..from];
    forall i | 0 <= i < a ensures !OccursAt(OPEN, r, i) {
      assert r[i..i + |OPEN|] == seg[i..i + |OPEN|];
      assert !OccursAt(OPEN, seg, i);
    }
    FindIs(OPEN, r, a);
  }

  lemma {:induction false} CloseAfterReplacing(middle: string, rest: string)
    requires ']' !in middle
    ensures Find([']'], middle + ([']'] + rest)) == |middle|
  {
    var s := middle + ([']'] + rest);
    assert s == middle + [']'] + rest && s[|middle|] == ']';
    FindOne(']', s);
    var b := Find([']'], s);
    assert s == s[..b] + [']'] + s[b + 1..];
    FirstCutUnique(middle, s[..b], rest, s[b + 1..], ']');
  }

  /** A boundary cannot reach over a bracket. */
  lemma {:induction false} BoundaryBehind(a: string, b: string, i: int)
    requires a != [] && a[|a| - 1] == '[' && OccursAt(BOUNDARY, a + b, i)
    ensures if i < |a| then OccursAt(BOUNDARY, a, i) else OccursAt(BOUNDARY, b, i - |a|)
  {
    BoundaryChars(a + b, i);
    BoundaryChars(a, i);
    BoundaryChars(b, i - |a|);
    assert (a + b)[|a| - 1] == '[';
  }

  lemma {:induction false} BoundaryInSlice(s: string, k: nat, i: int)
    requires k <= |s|
    ensures OccursAt(BOUNDARY, s[..k], i) ==> OccursAt(BOUNDARY, s, i)
    ensures OccursAt(BOUNDARY, s[k..], i) ==> OccursAt(BOUNDARY, s, i + k)
  {
    BoundaryChars(s, i);
    BoundaryChars(s, i + k);
    BoundaryChars(s[..k], i);
    BoundaryChars(s[k..], i);
  }

  /** Nor does it create a boundary, if the new text holds none. */
  lemma {:induction false} NoBoundaryFromReplacing(seg: string, from: nat, to: nat, middle: string)
    requires NoInner(seg) && FirstList(seg) == List(from, to) && BoundaryFree(middle)
    ensures NoInner(seg[..from] + middle + seg[to..])
  {
    var head, tail := seg[..from], seg[to..];
    assert head[|head| - 1] == seg[from - |OPEN|..from][|OPEN| - 1] == '[';
    assert head + middle + tail == head + (middle + tail);
    forall i | i > 0 ensures !OccursAt(BOUNDARY, head + (middle + tail), i) {
      if OccursAt(BOUNDARY, head + (middle + tail), i) {
        BoundaryBehind(head, middle + tail, i);
        BoundaryInSlice(seg, from, i);
        if i >= |head| {
          BoundaryInPart(middle, tail, i - |head|);
          BoundaryInSlice(seg, to, i - |head| - |middle|);
        }
      }
    }
  }

  /* ---------- boundaries in rendered lists ---------- */

  ghost predicate BoundaryFree(s: string) { forall i :: !OccursAt(BOUNDARY, s, i) }

  lemma {:induction false} StretchIsFree(x: string, s: string)
    requires Within(x, s) && BoundaryFree(s)
    ensures BoundaryFree(x)
  {
    var i :| OccursAt(x, s, i);
    forall k ensures !OccursAt(BOUNDARY, x, k) {
      BoundaryChars(x, k);
      BoundaryChars(s, i + k);
      if 0 <= k && k + 4 <= |x| {
        assert x[k] == s[i + k] && x[k + 1] == s[i + k + 1] && x[k + 2] == s[i + k + 2] && x[k + 3] == s[i + k + 3];
      }
    }
  }

  /** Only the end of a name can make a boundary with its quotes. */
  lemma {:induction false} QuotedIsFree(name: string)
    requires BoundaryFree(name)
    ensures BoundaryFree(Quoted(name)) <==> !EndsLikeId(name)
  {
    var q, k := Quoted(name), |name| - 3;
    forall i | i != k + 1 ensures !OccursAt(BOUNDARY, q, i) {
      BoundaryChars(q, i);
      BoundaryChars(name, i - 1);
      if 1 <= i && i + 4 <= |q| - 1 {
        assert q[i] == name[i - 1] && q[i + 1] == name[i] && q[i + 2] == name[i + 1] && q[i + 3] == name[i + 2];
      }
    }
    BoundaryChars(q, k + 1);
    if k >= 0 {
      assert name[k..] == [name[k], name[k + 1], name[k + 2]];
      assert q[k + 1] == name[k] && q[k + 2] == name[k + 1] && q[k + 3] == name[k + 2] && q[k + 4] == '"';
    }
  }

  /** No boundary crosses a comma. */
  lemma {:induction false} FreeAroundComma(a: string, b: string)
    requires b == [] || b[0] == ','
    ensures BoundaryFree(a + b) <==> BoundaryFree(a) && BoundaryFree(b)
  {
    var r := a + b;
    forall i
      ensures OccursAt(BOUNDARY, r, i) <==> OccursAt(BOUNDARY, a, i) || (i >= |a| && OccursAt(BOUNDARY, b, i - |a|))
    {
      BoundaryChars(r, i);
      BoundaryChars(a, i);
      BoundaryChars(b, i - |a|);
    }
    assert forall k :: OccursAt(BOUNDARY, b, k) ==> OccursAt(BOUNDARY, r, |a| + k);
  }

  lemma {:induction false} FreeBehindComma(s: string)
    ensures BoundaryFree([',', ' '] + s) <==> BoundaryFree(s)
  {
    var r := [',', ' '] + s;
    forall i ensures OccursAt(BOUNDARY, r, i) <==> OccursAt(BOUNDARY, s, i - 2) {
      BoundaryChars(r, i);
      BoundaryChars(s, i - 2);
    }
    assert forall k :: OccursAt(BOUNDARY, s, k) ==> OccursAt(BOUNDARY, r, k + 2);
  }

  lemma {:induction false} RenderTailIsFree(names: seq<string>)
    requires forall n <- names :: BoundaryFree(n)
    ensures BoundaryFree(RenderTail(names)) <==> forall n <- names :: !EndsLikeId(n)
    ensures RenderTail(names) == [] || RenderTail(names)[0] == ','
  {
    if names == [] {
      assert forall i :: !OccursAt(BOUNDARY, "", i);
    } else {
      RenderTailIsFree(names[1..]);
      QuotedIsFree(names[0]);
      FreeAroundComma(Quoted(names[0]), RenderTail(names[1..]));
      FreeBehindComma(Quoted(names[0]) + RenderTail(names[1..]));
      assert RenderTail(names) == [',', ' '] + (Quoted(names[0]) + RenderTail(names[1..]));
      assert names == [names[0]] + names[1..];
    }
  }

  /** Writing a list creates a boundary exactly when one of its names ends in `id=`. */
  lemma {:induction false} RenderIsFreeExactly(names: seq<string>)
    requires forall n <- names :: BoundaryFree(n)
    ensures BoundaryFree(Render(names)) <==> forall n <- names :: !EndsLikeId(n)
  {
    if names == [] {
      assert forall i :: !OccursAt(BOUNDARY, "", i);
    } else {
      RenderTailIsFree(names[1..]);
      QuotedIsFree(names[0]);
      FreeAroundComma(Quoted(names[0]), RenderTail(names[1..]));
      assert names == [names[0]] + names[1..];
    }
  }

  /** A name that can be written back between the brackets without disturbing the text. */
  ghost predicate Writable(name: string) {
    Listable(name) && ']' !in name && BoundaryFree(name) && !EndsLikeId(name)
  }

  lemma {:induction false} RenderedRead(names: seq<string>)
    requires forall n <- names :: Writable(n)
    ensures Names(Render(names)) == names
  {
    NamesRoundTrip(names);
  }

  lemma {:induction false} RenderedUnbracketed(names: seq<string>)
    requires forall n <- names :: Writable(n)
    ensures ']' !in Render(names)
  {
    RenderChars(names, ']');
  }

  lemma {:induction false} RenderedFree(names: seq<string>)
    requires forall n <- names :: Writable(n)
    ensures BoundaryFree(Render(names))
  {
    forall n | n in names ensures BoundaryFree(n) && !EndsLikeId(n) {
      assert Writable(n);
    }
    RenderIsFreeExactly(names);
  }

  /** A rewritten segment is still one segment of the same template, with a clean list and nothing more to drop. */
  lemma {:induction false} RewrittenSegment(seg: string, id: string, drop: set<string>)
    requires ListFree(id) && NoInner(seg) && (Marked(id, seg) ==> PlainNames(seg))
    ensures var r := RewriteSegment(seg, id, drop).text;
            && NoInner(r) && (Marked(id, r) <==> Marked(id, seg))
            && (!Marked(id, seg) ==> r == seg)
            && (Marked(id, seg) ==> Clean(r, drop) && PlainNames(r))
            && RewriteSegment(r, id, drop) == Plain(r)
  {
    var list := FirstList(seg);
    ListedNames(seg, drop);
    if Marked(id, seg) && list.List? {
      var content := seg[list.from..list.to];
      KeepSubset(Dropped(drop), Names(content));
      if Keep(Dropped(drop), Names(content)) == [] {
        NothingDropped(Names(content), drop);
      } else {
        EditedSegment(seg, id, drop, list.from, list.to);
      }
    }
  }

  lemma {:induction false} NothingDropped(names: seq<string>, drop: set<string>)
    ensures Keep(Dropped(drop), names) == [] <==> forall n <- names :: n !in drop
  {
    KeepSubset(Dropped(drop), names);
    if Keep(Dropped(drop), names) == [] {
      forall n | n in names ensures n !in drop {
        assert n !in Keep(Dropped(drop), names);
      }
    } else {
      assert Keep(Dropped(drop), names)[0] in names;
    }
  }

  lemma {:induction false} EditedSegment(seg: string, id: string, drop: set<string>, from: nat, to: nat)
    requires ListFree(id) && NoInner(seg) && Marked(id, seg) && PlainNames(seg) && FirstList(seg) == List(from, to)
    requires Keep(Dropped(drop), Names(seg[from..to])) != []
    ensures var r := RewriteSegment(seg, id, drop).text;
            && NoInner(r) && Marked(id, r) && Clean(r, drop) && PlainNames(r) && RewriteSegment(r, id, drop) == Plain(r)
  {
    WritableNames(seg, from, to);
    EditTaken(seg, id, drop, from, to);
    EditedText(seg, id, drop, from, to, Names(seg[from..to]), RewriteSegment(seg, id, drop).text);
  }

  lemma {:induction false} EditTaken(seg: string, id: string, drop: set<string>, from: nat, to: nat)
    requires Marked(id, seg) && FirstList(seg) == List(from, to)
    requires Keep(Dropped(drop), Names(seg[from..to])) != []
    ensures RewriteSegment(seg, id, drop).text
              == seg[..from] + Render(Keep(Kept(drop), Names(seg[from..to]))) + seg[to..]
  {
  }

  lemma {:induction false} WritableNames(seg: string, from: nat, to: nat)
    requires NoInner(seg) && FirstList(seg) == List(from, to) && PlainNames(seg)
    ensures forall n <- Names(seg[from..to]) :: Writable(n)
  {
    var content := seg[from..to];
    ListedNames(seg, {});
    ReadNamesAreListable(content);
    forall i ensures !OccursAt(BOUNDARY, content, i) {
      BoundaryChars(content, i);
      BoundaryChars(seg, from + i);
    }
    forall n | n in Names(content) ensures Writable(n) {
      StretchIsFree(n, content);
      WithinChars(n, content);
    }
  }

  lemma {:induction false} EditedText(seg: string, id: string, drop: set<string>, from: nat, to: nat,
                                      names: seq<string>, r: string)
    requires ListFree(id) && NoInner(seg) && Marked(id, seg) && FirstList(seg) == List(from, to)
    requires forall n <- names :: Writable(n)
    requires r == seg[..from] + Render(Keep(Kept(drop), names)) + seg[to..]
    ensures NoInner(r) && Marked(id, r) && Clean(r, drop) && PlainNames(r) && RewriteSegment(r, id, drop) == Plain(r)
  {
    KeptIsWritable(names, drop);
    WritableEnds(names);
    EditedWith(seg, id, drop, from, to, names, Render(Keep(Kept(drop), names)), r);
  }

  lemma {:induction false} EditedWith(seg: string, id: string, drop: set<string>, from: nat, to: nat,
                                      names: seq<string>, middle: string, r: string)
    requires ListFree(id) && NoInner(seg) && Marked(id, seg) && FirstList(seg) == List(from, to)
    requires ']' !in middle && BoundaryFree(middle) && Names(middle) == Keep(Kept(drop), names)
    requires forall n <- names :: !EndsLikeId(n)
    requires r == seg[..from] + middle + seg[to..]
    ensures NoInner(r) && Marked(id, r) && Clean(r, drop) && PlainNames(r) && RewriteSegment(r, id, drop) == Plain(r)
  {
    ReplacedListRead(seg, id, from, to, middle, Keep(Kept(drop), names), r);
    CleanListStays(r, id, drop, names);
  }

  lemma {:induction false} WritableEnds(names: seq<string>)
    requires forall n <- names :: Writable(n)
    ensures forall n <- names :: !EndsLikeId(n)
  {
  }

  /** These names are read from a segment's first list. */
  ghost predicate ListReads(seg: string, names: seq<string>) {
    var list := FirstList(seg);
    list.List? && Names(seg[list.from..list.to]) == names
  }

  /** A segment whose list is replaced by a list of names reads as those names. */
  lemma {:induction false} ReplacedListRead(seg: string, id: string, from: nat, to: nat, middle: string,
                                            names: seq<string>, r: string)
    requires ListFree(id) && NoInner(seg) && Marked(id, seg) && FirstList(seg) == List(from, to)
    requires ']' !in middle && BoundaryFree(middle) && Names(middle) == names
    requires r == seg[..from] + middle + seg[to..]
    ensures NoInner(r) && Marked(id, r)
    ensures ListReads(r, names)
  {
    ListAfterReplacing(seg, from, to, middle);
    ReplacedShape(seg, id, from, to, middle, r);
  }

  lemma {:induction false} KeptIsWritable(names: seq<string>, drop: set<string>)
    requires forall n <- names :: Writable(n)
    ensures var kept := Keep(Kept(drop), names);
            Names(Render(kept)) == kept && ']' !in Render(kept) && BoundaryFree(Render(kept))
  {
    var kept := Keep(Kept(drop), names);
    KeepSubset(Kept(drop), names);
    RenderedRead(kept);
    RenderedUnbracketed(kept);
    RenderedFree(kept);
  }

  /** A segment whose list is replaced by other text is still one segment of its template. */
  lemma {:induction false} ReplacedShape(seg: string, id: string, from: nat, to: nat, middle: string, r: string)
    requires ListFree(id) && NoInner(seg) && Marked(id, seg) && FirstList(seg) == List(from, to)
    requires BoundaryFree(middle) && r == seg[..from] + middle + seg[to..]
    ensures NoInner(r) && Marked(id, r)
  {
    NoBoundaryFromReplacing(seg, from, to, middle);
    MarkerStays(seg, id, from, middle + seg[to..]);
    assert r == seg[..from] + (middle + seg[to..]);
  }

  lemma {:induction false} MarkerStays(seg: string, id: string, from: nat, rest: string)
    requires ListFree(id) && Marked(id, seg) && FirstList(seg).List? && FirstList(seg).from == from
    ensures Marked(id, seg[..from] + rest)
  {
    assert seg[from - |OPEN|..from - |OPEN| + |OPEN|] == OPEN;
    ListBehindMarker(seg, id, from - |OPEN|);
    assert (seg[..from] + rest)[..|Marker(id)|] == seg[..|Marker(id)|];
  }

  /** A list of kept names has nothing more to drop. */
  lemma {:induction false} CleanListStays(r: string, id: string, drop: set<string>, names: seq<string>)
    requires ListReads(r, Keep(Kept(drop), names))
    requires forall n <- names :: !EndsLikeId(n)
    ensures Clean(r, drop) && PlainNames(r) && RewriteSegment(r, id, drop) == Plain(r)
  {
    ListedNames(r, drop);
    KeepSubset(Kept(drop), names);
    NothingDropped(Keep(Kept(drop), names), drop);
  }

  /* ---------- the whole text, after ---------- */

  /** Every list the rewrite may touch holds plain names only. */
  ghost predicate AllPlain(t: string, id: string) {
    forall seg <- Segments(t) :: Marked(id, seg) ==> PlainNames(seg)
  }

  function Edited(f: Editor, segs: seq<string>): (r: seq<string>)
    ensures |r| == |segs|
  {
    seq(|segs|, i requires 0 <= i < |segs| => f(segs[i]).text)
  }

  /** An edit that turns a segment into a segment. */
  ghost predicate KeepsSegment(f: Editor, seg: string) {
    NoInner(f(seg).text) && f(seg).text != [] && (BOUNDARY <= seg ==> BOUNDARY <= f(seg).text)
  }

  /** The segments of the rewritten text are the rewritten segments. */
  lemma {:induction false} SegmentsAfter(f: Editor, t: string)
    requires forall seg <- Segments(t) :: KeepsSegment(f, seg)
    ensures var r := Rewrite(f, t).text;
            Segments(r) == Edited(f, Segments(t)) && (BOUNDARY <= t ==> BOUNDARY <= r)
    decreases |t|
  {
    if t != [] {
      var k := Cut(t);
      var seg, rest := t[..k], t[k..];
      CutFacts(t);
      SegmentsOf(t);
      SegmentsAfter(f, rest);
      assert KeepsSegment(f, seg);
      SegmentsCons(f(seg).text, Rewrite(f, rest).text);
      EditedCons(f, seg, Segments(rest));
      if BOUNDARY <= t {
        OneSegment(t);
        PrefixStays(f(seg).text, Rewrite(f, rest).text);
      }
    }
  }

  lemma {:induction false} EditedCons(f: Editor, seg: string, segs: seq<string>)
    ensures Edited(f, [seg] + segs) == [f(seg).text] + Edited(f, segs)
  {
  }

  lemma {:induction false} PrefixStays(a: string, b: string)
    requires BOUNDARY <= a
    ensures BOUNDARY <= a + b
  {
    assert (a + b)[..4] == a[..4];
  }

  lemma {:induction false} SegmentsOf(t: string)
    requires t != []
    ensures Segments(t) == [t[..Cut(t)]] + Segments(t[Cut(t)..])
    ensures t[..Cut(t)] in Segments(t) && forall x <- Segments(t[Cut(t)..]) :: x in Segments(t)
  {
  }

  lemma {:induction false} EditorKeepsSegments(t: string, id: string, drop: set<string>)
    requires ListFree(id) && AllPlain(t, id)
    ensures forall seg <- Segments(t) :: KeepsSegment(EditorFor(id, drop), seg)
  {
    SegmentsAreWhole(t);
    forall seg | seg in Segments(t) ensures KeepsSegment(EditorFor(id, drop), seg) {
      EditorKeepsOne(seg, id, drop);
    }
  }

  lemma {:induction false} EditorKeepsOne(seg: string, id: string, drop: set<string>)
    requires ListFree(id) && NoInner(seg) && seg != [] && (Marked(id, seg) ==> PlainNames(seg))
    ensures KeepsSegment(EditorFor(id, drop), seg)
  {
    RewrittenSegment(seg, id, drop);
    MarkerStartsWithBoundary(id, RewriteSegment(seg, id, drop).text);
  }

  lemma {:induction false} MarkerStartsWithBoundary(id: string, s: string)
    ensures Marked(id, s) ==> BOUNDARY <= s
  {
    if Marked(id, s) { assert s[..4] == s[..|Marker(id)|][..4] == BOUNDARY; }
  }

  lemma {:induction false} OneSegment(t: string)
    requires t != [] && BOUNDARY <= t
    ensures BOUNDARY <= t[..Cut(t)]
  {
    CutFacts(t);
    if Cut(t) < |t| {
      BoundaryChars(t, Cut(t));
      assert t[0] == BOUNDARY[0] && t[1] == BOUNDARY[1] && t[2] == BOUNDARY[2] && t[3] == BOUNDARY[3];
      assert Cut(t) >= 4;
    }
    assert t[..Cut(t)][..4] == t[..4];
  }

  lemma {:induction false} SegmentsCons(a: string, b: string)
    requires a != [] && NoInner(a) && (b == [] || BOUNDARY <= b)
    ensures Segments(a + b) == [a] + Segments(b)
  {
    CutAt(a, b);
  }

  /**
    After the rewrite no segment of the template lists a dropped protocol, and
    every other segment is as it was.
   */
  lemma {:induction false} RewriteCleans(t: string, id: string, drop: set<string>)
    requires ListFree(id) && AllPlain(t, id)
    ensures var before, after := Segments(t), Segments(Rewrite(EditorFor(id, drop), t).text);
            && |after| == |before|
            && (forall i :: 0 <= i < |after| ==>
                  if Marked(id, before[i])
                  then Marked(id, after[i]) && Clean(after[i], drop) && exists edit ::
                         Patched(before[i], after[i], edit, id, drop)
                  else after[i] == before[i])
            && AllPlain(Rewrite(EditorFor(id, drop), t).text, id)
  {
    EditorKeepsSegments(t, id, drop);
    SegmentsAfter(EditorFor(id, drop), t);
    SegmentsAreWhole(t);
    var before, after := Segments(t), Segments(Rewrite(EditorFor(id, drop), t).text);
    forall i | 0 <= i < |after|
      ensures if Marked(id, before[i]) then Marked(id, after[i]) && Clean(after[i], drop) && PlainNames(after[i])
              else after[i] == before[i]
      ensures Patched(before[i], after[i], RewriteSegment(before[i], id, drop).last, id, drop)
    {
      assert before[i] in before;
      RewrittenSegment(before[i], id, drop);
      SegmentPatched(before[i], id, drop);
    }
  }

  lemma {:induction false} SegmentsAreWhole(t: string)
    ensures forall seg <- Segments(t) :: NoInner(seg) && seg != []
    decreases |t|
  {
    if t != [] {
      CutFacts(t);
      SegmentsAreWhole(t[Cut(t)..]);
    }
  }

  /** Whether a segment is the template's and its first list names something to drop. */
  ghost predicate NamesDropped(seg: string, id: string, drop: set<string>) {
    Marked(id, seg) && !Clean(seg, drop)
  }

  /** With the dropped names taken out of the list between `from` and `to`, and the others written in their order. */
  ghost predicate IsEdit(before: string, after: string, from: nat, to: nat, drop: set<string>, edit: Edit)
    requires from <= to <= |before|
  {
    var names := Names(before[from..to]);
    && edit == Edit(Keep(Kept(drop), names), Keep(Dropped(drop), names))
    && after == before[..from] + Render(edit.kept) + before[to..]
  }

  /** What becomes of one segment, and what is reported of it: only what is between its brackets can change. */
  ghost predicate Patched(before: string, after: string, edit: Option<Edit>, id: string, drop: set<string>) {
    if NamesDropped(before, id, drop)
    then edit.Some? && exists from: nat, to: nat ::
           IsFirstList(before, from, to) && IsEdit(before, after, from, to, drop, edit.value)
    else after == before && edit.None?
  }

  lemma {:induction false} SegmentPatched(seg: string, id: string, drop: set<string>)
    ensures Patched(seg, RewriteSegment(seg, id, drop).text, RewriteSegment(seg, id, drop).last, id, drop)
  {
    var list, r := FirstList(seg), RewriteSegment(seg, id, drop);
    FirstListExactly(seg);
    ListedNames(seg, drop);
    if list.List? {
      NothingDropped(Names(seg[list.from..list.to]), drop);
      assert IsFirstList(seg, list.from, list.to);
      if r.last.Some? {
        assert IsEdit(seg, r.text, list.from, list.to, drop, r.last.value);
      }
    }
  }

  function Join(segs: seq<string>): string {
    if segs == [] then [] else segs[0] + Join(segs[1..])
  }

  lemma {:induction false} JoinedSegments(f: Editor, t: string)
    ensures Join(Segments(t)) == t
    ensures Join(Edited(f, Segments(t))) == Rewrite(f, t).text
    decreases |t|
  {
    if t != [] {
      var k := Cut(t);
      SegmentsOf(t);
      JoinedSegments(f, t[k..]);
      EditedCons(f, t[..k], Segments(t[k..]));
      assert ([t[..k]] + Segments(t[k..]))[1..] == Segments(t[k..]);
      assert ([f(t[..k]).text] + Edited(f, Segments(t[k..])))[1..] == Edited(f, Segments(t[k..]));
      assert t[..k] + t[k..] == t;
    }
  }

  /** Segments cut a text into pieces that start at a boundary, but for the first, and hold no other. */
  ghost predicate IsCut(t: string, segs: seq<string>) {
    && t == Join(segs)
    && forall i :: 0 <= i < |segs| ==> segs[i] != [] && NoInner(segs[i]) && (i > 0 ==> BOUNDARY <= segs[i])
  }

  lemma {:induction false} FirstOfCut(t: string)
    requires t != []
    ensures BOUNDARY <= t ==> BOUNDARY <= Segments(t)[0]
  {
    if BOUNDARY <= t { OneSegment(t); }
  }

  lemma {:induction false} CutInFront(seg: string, t: string, segs: seq<string>)
    requires IsCut(t, segs) && seg != [] && NoInner(seg) && (segs != [] ==> BOUNDARY <= segs[0])
    ensures IsCut(seg + t, [seg] + segs)
  {
    assert ([seg] + segs)[1..] == segs;
  }

  lemma {:induction false} SegmentsCutStep(t: string, k: nat, segs: seq<string>)
    requires t != [] && k == Cut(t) && segs == Segments(t[k..]) && IsCut(t[k..], segs)
    ensures IsCut(t, [t[..k]] + segs)
  {
    CutFacts(t);
    if k < |t| { FirstOfCut(t[k..]); }
    CutInFront(t[..k], t[k..], segs);
    assert t == t[..k] + t[k..];
  }

  lemma {:induction false} SegmentsCut(t: string)
    ensures IsCut(t, Segments(t))
    decreases |t|
  {
    if t != [] {
      SegmentsCut(t[Cut(t)..]);
      SegmentsOf(t);
      SegmentsCutStep(t, Cut(t), Segments(t[Cut(t)..]));
    }
  }

  ghost predicate AllPatched(before: seq<string>, after: seq<string>, edits: seq<Option<Edit>>, id: string,
                             drop: set<string>) {
    |after| == |edits| == |before|
      && forall i :: 0 <= i < |before| ==> Patched(before[i], after[i], edits[i], id, drop)
  }

  /** The last edit there is, or none. */
  ghost predicate IsLastEdit(last: Option<Edit>, edits: seq<Option<Edit>>) {
    if forall i :: 0 <= i < |edits| ==> edits[i].None? then last.None?
    else last.Some? && exists i :: 0 <= i < |edits| && edits[i] == last
                                   && forall k :: i < k < |edits| ==> edits[k].None?
  }

  function EditsOf(f: Editor, segs: seq<string>): (r: seq<Option<Edit>>)
    ensures |r| == |segs|
  {
    seq(|segs|, i requires 0 <= i < |segs| => f(segs[i]).last)
  }

  lemma {:induction false} LastReported(f: Editor, t: string)
    ensures IsLastEdit(Rewrite(f, t).last, EditsOf(f, Segments(t)))
    decreases |t|
  {
    if t != [] {
      var k := Cut(t);
      SegmentsOf(t);
      LastReported(f, t[k..]);
      var edits, rest := EditsOf(f, Segments(t)), EditsOf(f, Segments(t[k..]));
      assert edits == [f(t[..k]).last] + rest;
      LastInFront(f(t[..k]).last, rest, Rewrite(f, t[k..]).last);
    }
  }

  lemma {:induction false} LastInFront(first: Option<Edit>, rest: seq<Option<Edit>>, last: Option<Edit>)
    requires IsLastEdit(last, rest)
    ensures IsLastEdit(if last.Some? then last else first, [first] + rest)
  {
    var edits := [first] + rest;
    assert forall i :: 0 <= i < |rest| ==> edits[i + 1] == rest[i];
    if last.Some? {
      var i :| 0 <= i < |rest| && rest[i] == last && forall k :: i < k < |rest| ==> rest[k].None?;
      assert edits[i + 1] == last;
      forall k | i + 1 < k < |edits| ensures edits[k].None? {
        assert edits[k] == rest[k - 1];
      }
    } else if first.Some? {
      assert edits[0] == first;
    }
  }

  /**
    For every text, template and set of protocols: the result is the text with
    each of its segments as it was or, if it is the template's and names something
    to drop, with the other names between the brackets of its first list; and the
    last of these edits is reported.
   */
  lemma {:induction false} OnlyListsChange(t: string, id: string, drop: set<string>)
    ensures IsCut(t, Segments(t))
    ensures exists after, edits ::
              && AllPatched(Segments(t), after, edits, id, drop)
              && Rewrite(EditorFor(id, drop), t).text == Join(after)
              && IsLastEdit(Rewrite(EditorFor(id, drop), t).last, edits)
  {
    var f, before := EditorFor(id, drop), Segments(t);
    SegmentsCut(t);
    JoinedSegments(f, t);
    LastReported(f, t);
    forall i | 0 <= i < |before| ensures Patched(before[i], Edited(f, before)[i], EditsOf(f, before)[i], id, drop) {
      SegmentPatched(before[i], id, drop);
    }
    assert AllPatched(before, Edited(f, before), EditsOf(f, before), id, drop);
  }

  lemma {:induction false} NothingToEdit(f: Editor, t: string)
    requires forall seg <- Segments(t) :: f(seg) == Plain(seg)
    ensures Rewrite(f, t) == Plain(t)
    decreases |t|
  {
    if t != [] {
      SegmentsOf(t);
      NothingToEdit(f, t[Cut(t)..]);
      assert t[..Cut(t)] + t[Cut(t)..] == t;
    }
  }

  lemma {:induction false} NothingLeftToEdit(f: Editor, t: string)
    requires forall seg <- Segments(t) :: KeepsSegment(f, seg)
    requires forall seg <- Segments(t) :: f(f(seg).text) == Plain(f(seg).text)
    ensures Rewrite(f, Rewrite(f, t).text) == Plain(Rewrite(f, t).text)
  {
    var r := Rewrite(f, t).text;
    SegmentsAfter(f, t);
    forall seg | seg in Segments(r) ensures f(seg) == Plain(seg) {
      var i :| 0 <= i < |Segments(t)| && seg == f(Segments(t)[i]).text;
      assert Segments(t)[i] in Segments(t);
    }
    NothingToEdit(f, r);
  }

  /** Rewriting twice changes nothing the second time and reports nothing removed. */
  lemma {:induction false} RewriteIsIdempotent(t: string, id: string, drop: set<string>)
    requires ListFree(id) && AllPlain(t, id)
    ensures var r := Rewrite(EditorFor(id, drop), t).text;
            Rewrite(EditorFor(id, drop), r) == Plain(r)
  {
    var f := EditorFor(id, drop);
    EditorKeepsSegments(t, id, drop);
    SegmentsAreWhole(t);
    forall seg | seg in Segments(t) ensures f(f(seg).text) == Plain(f(seg).text) {
      RewrittenSegment(seg, id, drop);
    }
    NothingLeftToEdit(f, t);
  }

  /* ---------- all fixes of one file ---------- */

  datatype Fix = Fix(id: string, drop: set<string>)

  function FixOne(t: string, fix: Fix): string { Rewrite(EditorFor(fix.id, fix.drop), t).text }

  function FixAll(t: string, fixes: seq<Fix>): string {
    if fixes == [] then t else FixOne(FixAll(t, fixes[..|fixes| - 1]), fixes[|fixes| - 1])
  }

  /** How many of the fixes change the text, each seeing what the ones before it left. */
  function Changing(t: string, fixes: seq<Fix>): (n: nat)
    ensures n <= |fixes|
  {
    if fixes == [] then 0
    else
      var before, last := fixes[..|fixes| - 1], fixes[|fixes| - 1];
      Changing(t, before) + if Rewrite(EditorFor(last.id, last.drop), FixAll(t, before)).last.Some? then 1 else 0
  }

  /** Without an edit to report, an editor leaves the segment as it is. */
  ghost predicate ReportsChanges(f: Editor) {
    forall seg :: f(seg).last.None? ==> f(seg).text == seg
  }

  lemma {:induction false} EditorReportsChanges(id: string, drop: set<string>)
    ensures ReportsChanges(EditorFor(id, drop))
  {
  }

  lemma {:induction false} NoEditNoChange(f: Editor, t: string)
    requires ReportsChanges(f)
    ensures Rewrite(f, t).last.None? ==> Rewrite(f, t).text == t
    decreases |t|
  {
    if t != [] {
      NoEditNoChange(f, t[Cut(t)..]);
      assert t[..Cut(t)] + t[Cut(t)..] == t;
    }
  }

  lemma {:induction false} CutsDiffer(a: string, m: string, n: string, rest: string, x: string, y: string)
    requires m != n && ']' !in m && ']' !in n
    ensures a + m + ([']'] + rest) + x != a + n + ([']'] + rest) + y
  {
    var s, u := a + m + ([']'] + rest) + x, a + n + ([']'] + rest) + y;
    if s == u {
      assert s[|a|..] == m + [']'] + (rest + x);
      assert u[|a|..] == n + [']'] + (rest + y);
      FirstCutUnique(m, n, rest + x, rest + y, ']');
    }
  }

  /** An edit shows: the segment's text differs before its list is closed, whatever follows. */
  lemma {:induction false} EditShows(seg: string, id: string, drop: set<string>, x: string, y: string)
    requires RewriteSegment(seg, id, drop).last.Some?
    ensures RewriteSegment(seg, id, drop).text + x != seg + y
  {
    var list := FirstList(seg);
    assert Marked(id, seg) && list.List? && Keep(Dropped(drop), Names(seg[list.from..list.to])) != [];
    EditTaken(seg, id, drop, list.from, list.to);
    ListEditShows(seg, list.from, list.to, Names(seg[list.from..list.to]), drop, x, y);
  }

  lemma {:induction false} ListEditShows(seg: string, from: nat, to: nat, names: seq<string>, drop: set<string>,
                                         x: string, y: string)
    requires FirstList(seg) == List(from, to) && names == Names(seg[from..to]) && Keep(Dropped(drop), names) != []
    ensures seg[..from] + Render(Keep(Kept(drop), names)) + seg[to..] + x != seg + y
  {
    KeptIsShorter(seg[from..to], drop);
    SegmentAround(seg, from, to);
    CutsDiffer(seg[..from], Render(Keep(Kept(drop), names)), seg[from..to], seg[to + 1..], x, y);
  }

  lemma {:induction false} SegmentAround(seg: string, from: nat, to: nat)
    requires from <= to < |seg| && seg[to] == ']'
    ensures seg[to..] == [']'] + seg[to + 1..] && seg == seg[..from] + seg[from..to] + seg[to..]
  {
  }

  lemma {:induction false} KeptIsShorter(content: string, drop: set<string>)
    requires ']' !in content && Keep(Dropped(drop), Names(content)) != []
    ensures var middle := Render(Keep(Kept(drop), Names(content))); middle != content && ']' !in middle
  {
    var names := Names(content);
    var kept := Keep(Kept(drop), names);
    ReadNamesAreListable(content);
    KeepSubset(Kept(drop), names);
    NothingDropped(names, drop);
    forall n | n in kept ensures ']' !in n {
      WithinChars(n, content);
    }
    RenderChars(kept, ']');
    NamesRoundTrip(kept);
  }

  /** An editor whose edits show, whatever follows. */
  ghost predicate EditsShow(f: Editor) {
    forall seg, x, y :: f(seg).last.Some? ==> f(seg).text + x != seg + y
  }

  lemma {:induction false} ReportedByEditor(f: Editor, t: string)
    requires ReportsChanges(f) && EditsShow(f)
    ensures Rewrite(f, t).last.None? <==> Rewrite(f, t).text == t
    decreases |t|
  {
    NoEditNoChange(f, t);
    if t != [] && Rewrite(f, t).last.Some? {
      var k := Cut(t);
      var seg, rest := t[..k], t[k..];
      assert t == seg + rest;
      if f(seg).last.None? {
        ReportedByEditor(f, rest);
        assert f(seg).text == seg && (seg + Rewrite(f, rest).text)[k..] == Rewrite(f, rest).text;
      }
    }
  }

  /** An edit is reported exactly when the text changes. */
  lemma {:induction false} ReportedExactly(t: string, id: string, drop: set<string>)
    ensures Rewrite(EditorFor(id, drop), t).last.None? <==> Rewrite(EditorFor(id, drop), t).text == t
  {
    var f := EditorFor(id, drop);
    EditorReportsChanges(id, drop);
    forall seg, x, y | f(seg).last.Some? ensures f(seg).text + x != seg + y {
      EditShows(seg, id, drop, x, y);
    }
    ReportedByEditor(f, t);
  }

  /** The text before, between and after the fixes of a file. */
  function Stages(t: string, fixes: seq<Fix>): (r: seq<string>)
    ensures |r| == |fixes| + 1
  {
    if fixes == [] then [t] else Stages(t, fixes[..|fixes| - 1]) + [FixAll(t, fixes)]
  }

  ghost predicate Differ(stages: seq<string>, i: nat)
    requires i + 1 < |stages|
  {
    stages[i] != stages[i + 1]
  }

  ghost function ChangesIn(stages: seq<string>): set<nat> { set i | 0 <= i < |stages| - 1 && Differ(stages, i) }

  lemma {:induction false} ChangesSnoc(stages: seq<string>, next: string)
    requires stages != []
    ensures var n := |stages| - 1;
            n !in ChangesIn(stages)
              && ChangesIn(stages + [next]) == ChangesIn(stages) + if next != stages[n] then {n} else {}
  {
    var n := |stages| - 1;
    assert forall i :: 0 <= i < n ==> Differ(stages + [next], i) == Differ(stages, i);
    assert Differ(stages + [next], n) == (next != stages[n]);
  }

  lemma {:induction false} LastStage(t: string, fixes: seq<Fix>)
    ensures Stages(t, fixes)[|fixes|] == FixAll(t, fixes)
  {
  }

  /** The fixes counted are exactly those that change the text the ones before them left. */
  lemma {:induction false} ChangingExactly(t: string, fixes: seq<Fix>)
    ensures Changing(t, fixes) == |ChangesIn(Stages(t, fixes))|
  {
    if fixes != [] {
      var k := |fixes| - 1;
      var before, last := FixAll(t, fixes[..k]), fixes[k];
      ChangingExactly(t, fixes[..k]);
      LastStage(t, fixes[..k]);
      ReportedExactly(before, last.id, last.drop);
      ChangesSnoc(Stages(t, fixes[..k]), FixAll(t, fixes));
    }
  }

  /** Applies the fixes of one file in turn, and counts those that changed it. */
  method ApplyFixes(original: string, fixes: seq<Fix>) returns (text: string, templatesFixed: nat)
    requires forall fix <- fixes :: PlainId(fix.id)
    ensures text == FixAll(original, fixes) && templatesFixed == Changing(original, fixes)
  {
    text, templatesFixed := original, 0;
    for i := 0 to |fixes|
      invariant text == FixAll(original, fixes[..i]) && templatesFixed == Changing(original, fixes[..i])
    {
      assert fixes[..i + 1][..i] == fixes[..i];
      var newText, kept, removed := PatchTemplate(text, fixes[i].id, fixes[i].drop);
      EditorReportsChanges(fixes[i].id, fixes[i].drop);
      NoEditNoChange(EditorFor(fixes[i].id, fixes[i].drop), text);
      if removed != [] {
        text := newText;
        templatesFixed := templatesFixed + 1;
      }
    }
    assert fixes[..|fixes|] == fixes;
  }

  /** Template ids whose markers cannot stand at one place. */
  ghost predicate Apart(a: string, b: string) { !Marked(a, Marker(b)) && !Marked(b, Marker(a)) }

  /** Different ids without quotes, in particular. */
  lemma {:induction false} DifferentIdsAreApart(a: string, b: string)
    requires a != b && '"' !in a && '"' !in b
    ensures Apart(a, b)
  {
    if Marked(a, Marker(b)) { OneTemplate(a, b); }
    if Marked(b, Marker(a)) { OneTemplate(b, a); }
  }

  lemma {:induction false} OneTemplate(a: string, b: string)
    requires Marked(a, Marker(b)) && '"' !in a && '"' !in b
    ensures a == b
  {
    var rest := Marker(b)[|Marker(a)|..];
    assert Marker(b) == Marker(a) + rest;
    assert Marker(b)[4..] == b + ['"'] + [] && Marker(b)[4..] == a + ['"'] + rest;
    FirstCutUnique(a, b, rest, [], '"');
  }

  /** Fixes for templates that are apart and whose lists, in this text, are plain. */
  ghost predicate Independent(t: string, fixes: seq<Fix>) {
    && (forall fix <- fixes :: ListFree(fix.id) && AllPlain(t, fix.id))
    && (forall i, j :: 0 <= i < j < |fixes| ==> Apart(fixes[i].id, fixes[j].id))
  }

  lemma {:induction false} OneTemplatePerSegment(seg: string, a: string, b: string)
    requires Marked(a, seg) && Marked(b, seg)
    ensures !Apart(a, b)
  {
    if |Marker(a)| <= |Marker(b)| {
      assert Marker(b)[..|Marker(a)|] == seg[..|Marker(a)|];
    } else {
      assert Marker(a)[..|Marker(b)|] == seg[..|Marker(b)|];
    }
  }

  /** A fix leaves the segments of every other template exactly as they were. */
  lemma {:induction false} FixLeavesOthers(t: string, fix: Fix, other: string)
    requires ListFree(fix.id) && Apart(fix.id, other) && AllPlain(t, fix.id)
    ensures var before, after := Segments(t), Segments(FixOne(t, fix));
            && |after| == |before|
            && (forall i :: 0 <= i < |after| ==> (Marked(other, after[i]) <==> Marked(other, before[i])))
            && (forall i :: 0 <= i < |after| && Marked(other, before[i]) ==> after[i] == before[i])
            && (forall seg <- after :: Marked(other, seg) ==> seg in before)
    ensures AllPlain(t, other) ==> AllPlain(FixOne(t, fix), other)
  {
    RewriteCleans(t, fix.id, fix.drop);
    var before, after := Segments(t), Segments(FixOne(t, fix));
    forall i | 0 <= i < |after|
      ensures Marked(other, after[i]) <==> Marked(other, before[i])
      ensures Marked(other, before[i]) ==> after[i] == before[i]
    {
      if Marked(fix.id, before[i]) {
        if Marked(other, before[i]) { OneTemplatePerSegment(before[i], fix.id, other); }
        if Marked(other, after[i]) { OneTemplatePerSegment(after[i], fix.id, other); }
      }
    }
    forall seg | seg in after && Marked(other, seg) ensures seg in before {
      var i :| 0 <= i < |after| && after[i] == seg;
      assert before[i] in before;
    }
  }

  ghost predicate AllClean(t: string, fix: Fix) {
    forall seg <- Segments(t) :: Marked(fix.id, seg) ==> Clean(seg, fix.drop)
  }

  /** The fixes of some templates leave another one's lists plain. */
  lemma {:induction false} OthersStayPlain(t: string, fixes: seq<Fix>, other: string)
    requires Independent(t, fixes) && AllPlain(t, other)
    requires forall fix <- fixes :: Apart(fix.id, other)
    ensures AllPlain(FixAll(t, fixes), other)
  {
    if fixes != [] {
      var k := |fixes| - 1;
      OthersStayPlain(t, fixes[..k], fixes[k].id);
      OthersStayPlain(t, fixes[..k], other);
      FixLeavesOthers(FixAll(t, fixes[..k]), fixes[k], other);
    }
  }

  /** After all fixes of a file, no segment of any fixed template lists a protocol dropped for it. */
  lemma {:induction false} AllTemplatesFixed(t: string, fixes: seq<Fix>)
    requires Independent(t, fixes)
    ensures forall fix <- fixes :: AllClean(FixAll(t, fixes), fix)
  {
    if fixes != [] {
      var k := |fixes| - 1;
      var before, last := FixAll(t, fixes[..k]), fixes[k];
      AllTemplatesFixed(t, fixes[..k]);
      OthersStayPlain(t, fixes[..k], last.id);
      FixCleans(before, last);
      forall fix | fix in fixes[..k] ensures AllClean(FixOne(before, last), fix) {
        FixKeepsClean(before, last, fix);
      }
      assert fixes == fixes[..k] + [last];
    }
  }

  lemma {:induction false} FixCleans(t: string, fix: Fix)
    requires ListFree(fix.id) && AllPlain(t, fix.id)
    ensures AllClean(FixOne(t, fix), fix)
  {
    RewriteCleans(t, fix.id, fix.drop);
    var before, after := Segments(t), Segments(FixOne(t, fix));
    forall seg | seg in after && Marked(fix.id, seg) ensures Clean(seg, fix.drop) {
      var i :| 0 <= i < |after| && after[i] == seg;
    }
  }

  lemma {:induction false} FixKeepsClean(t: string, fix: Fix, other: Fix)
    requires ListFree(fix.id) && Apart(fix.id, other.id)
    requires AllPlain(t, fix.id) && AllClean(t, other)
    ensures AllClean(FixOne(t, fix), other)
  {
    FixLeavesOthers(t, fix, other.id);
  }
}
