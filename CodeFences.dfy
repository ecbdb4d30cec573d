/** The split of an answer at its fenced code blocks (src/components/QueryResults.tsx
    line 28): `answer.split` with the regular expression
    three backticks, an optional word-character tag, a newline, the shortest
    body, three backticks. The scanner below is that expression and that split
    written out: at each index in turn the fence is tried; a match cuts the
    text, and the tag and body are kept as the split's captured groups. */
module CodeFences {
  import opened Wrappers
  import opened Strings

  const Ticks: string := "```"

  /** The characters of `\w`. */
  predicate IsWordChar(c: char)
  {
    ('a' <= c <= 'z') || ('A' <= c <= 'Z') || ('0' <= c <= '9') || c == '_'
  }

  /** A captured tag: absent, or one or more word characters. */
  predicate ValidTag(tag: Option<string>)
  {
    tag.Some? ==> |tag.value| > 0 && forall i :: 0 <= i < |tag.value| ==> IsWordChar(tag.value[i])
  }

  /** The body is the shortest one: no "```" starts inside it, not even one
      that runs on into the closing backticks. */
  predicate ShortestBody(body: string)
  {
    forall j: nat :: j < |body| ==> !OccursAt(body + Ticks, Ticks, j)
  }

  function TagText(tag: Option<string>): string
  {
    match tag
    case None => ""
    case Some(t) => t
  }

  /** The text a fence with this tag and body occupies. */
  function FenceText(tag: Option<string>, body: string): string
  {
    Ticks + TagText(tag) + "\n" + body + Ticks
  }

  /** The length of the run of word characters of `s` starting at `i`
      (the greedy `\w+`). */
  function WordRun(s: string, i: nat): (n: nat)
    requires i <= |s|
    ensures i + n <= |s|
    ensures forall j :: i <= j < i + n ==> IsWordChar(s[j])
    ensures i + n == |s| || !IsWordChar(s[i + n])
    decreases |s| - i
  {
    if i < |s| && IsWordChar(s[i]) then 1 + WordRun(s, i + 1) else 0
  }

  /** The first index at or after `i` where "```" occurs (the lazy body
      stops there). */
  function FindTicks(s: string, i: nat): (k: Option<nat>)
    requires i <= |s|
    ensures k.Some? ==> i <= k.value && OccursAt(s, Ticks, k.value)
    ensures forall j: nat :: i <= j && (k.None? || j < k.value) ==> !OccursAt(s, Ticks, j)
    decreases |s| - i
  {
    if i + |Ticks| > |s| then None
    else if OccursAt(s, Ticks, i) then Some(i)
    else FindTicks(s, i + 1)
  }

  /** One match of the fence expression: the captured tag (absent when the
      optional group did not take part), the captured body, and the index just
      past the closing backticks. */
  datatype Match = Match(tag: Option<string>, body: string, end: nat)

  /** The fence expression tried at index `q` of `s`. */
  function MatchAt(s: string, q: nat): (m: Option<Match>)
    requires q <= |s|
    ensures m.Some? ==> q < m.value.end <= |s|
  {
    if OccursAt(s, Ticks, q) then
      var n := WordRun(s, q + 3);
      var nl := q + 3 + n;
      if nl < |s| && s[nl] == '\n' then
        match FindTicks(s, nl + 1)
        case None => None
        case Some(k) => Some(Match(if n == 0 then None else Some(s[q + 3..nl]), s[nl + 1..k], k + 3))
      else None
    else None
  }

  /** Every match is a fence: it covers exactly "```", the tag, a newline, the
      body and "```"; the tag is absent or word characters, and no "```"
      starts inside the body. */
  lemma MatchAtSound(s: string, q: nat)
    requires q <= |s| && MatchAt(s, q).Some?
    ensures var m := MatchAt(s, q).value;
      && s[q..m.end] == FenceText(m.tag, m.body)
      && ValidTag(m.tag) && ShortestBody(m.body)
  {
    var nl := q + 3 + WordRun(s, q + 3);
    var k := FindTicks(s, nl + 1).value;
    MatchAtFields(s, q, nl, k);
    CapturedText(s, q, nl, k);
    CapturedTag(s, q, nl, k);
    CapturedBody(s, q, nl, k);
  }

  /** The fields of a match, given where its newline and closing backticks
      were found. */
  lemma MatchAtFields(s: string, q: nat, nl: nat, k: nat)
    requires q <= |s| && MatchAt(s, q).Some?
    requires nl == q + 3 + WordRun(s, q + 3) && FindTicks(s, nl + 1) == Some(k)
    ensures MatchAt(s, q).value == Match(if nl == q + 3 then None else Some(s[q + 3..nl]), s[nl + 1..k], k + 3)
  {
  }

  /** The text a match covers is the fence of its captured groups. */
  lemma CapturedText(s: string, q: nat, nl: nat, k: nat)
    requires q + 3 <= |s| && OccursAt(s, Ticks, q)
    requires nl == q + 3 + WordRun(s, q + 3) && nl < |s| && s[nl] == '\n' && FindTicks(s, nl + 1) == Some(k)
    ensures s[q..k + 3] == FenceText(if nl == q + 3 then None else Some(s[q + 3..nl]), s[nl + 1..k])
  {
    FenceSlice(s, q, nl, k);
  }

  /** The captured tag is absent or a run of word characters. */
  lemma CapturedTag(s: string, q: nat, nl: nat, k: nat)
    requires q + 3 <= |s| && OccursAt(s, Ticks, q)
    requires nl == q + 3 + WordRun(s, q + 3) && nl < |s| && s[nl] == '\n' && FindTicks(s, nl + 1) == Some(k)
    ensures ValidTag(if nl == q + 3 then None else Some(s[q + 3..nl]))
  {
  }

  /** The captured body is the shortest one. */
  lemma CapturedBody(s: string, q: nat, nl: nat, k: nat)
    requires q + 3 <= |s| && OccursAt(s, Ticks, q)
    requires nl == q + 3 + WordRun(s, q + 3) && nl < |s| && s[nl] == '\n' && FindTicks(s, nl + 1) == Some(k)
    ensures ShortestBody(s[nl + 1..k])
  {
    ShortestBodyFromFind(s, nl + 1, k);
  }

  lemma FenceSlice(s: string, q: nat, nl: nat, k: nat)
    requires q + 3 <= nl < k && k + 3 <= |s|
    requires OccursAt(s, Ticks, q) && s[nl] == '\n' && OccursAt(s, Ticks, k)
    ensures s[q..k + 3] == Ticks + s[q + 3..nl] + "\n" + s[nl + 1..k] + Ticks
  {
    calc {
      s[q..k + 3];
      s[q..nl] + s[nl..k + 3];
      s[q..q + 3] + s[q + 3..nl] + s[nl..k + 3];
      { assert s[nl..k + 3] == s[nl..nl + 1] + s[nl + 1..k] + s[k..k + 3]; }
      s[q..q + 3] + s[q + 3..nl] + (s[nl..nl + 1] + s[nl + 1..k] + s[k..k + 3]);
      { assert s[nl..nl + 1] == "\n"; }
      Ticks + s[q + 3..nl] + "\n" + s[nl + 1..k] + Ticks;
    }
  }

  lemma ShortestBodyFromFind(s: string, i: nat, k: nat)
    requires i <= k && k + 3 <= |s| && OccursAt(s, Ticks, k)
    requires forall j: nat :: i <= j < k ==> !OccursAt(s, Ticks, j)
    ensures ShortestBody(s[i..k])
  {
    var body := s[i..k];
    assert body + Ticks == s[i..k + 3];
    forall j: nat | j < |body| ensures !OccursAt(body + Ticks, Ticks, j) {
      if j + 3 <= |body| + 3 {
        assert (body + Ticks)[j..j + 3] == s[i + j..i + j + 3];
        assert !OccursAt(s, Ticks, i + j);
      }
    }
  }

  /** A run of exactly `n` word characters followed by a non-word character
      (or the end) is what the greedy `\w+` takes. */
  lemma {:induction false} WordRunExact(s: string, i: nat, n: nat)
    requires i + n <= |s|
    requires forall j :: i <= j < i + n ==> IsWordChar(s[j])
    requires i + n == |s| || !IsWordChar(s[i + n])
    ensures WordRun(s, i) == n
    decreases n
  {
    if n > 0 {
      WordRunExact(s, i + 1, n - 1);
    }
  }

  /** When "```" occurs at `k` and nowhere in `i..k-1`, the lazy body stops at `k`. */
  lemma {:induction false} FindTicksExact(s: string, i: nat, k: nat)
    requires i <= k && OccursAt(s, Ticks, k)
    requires forall j: nat :: i <= j < k ==> !OccursAt(s, Ticks, j)
    ensures FindTicks(s, i) == Some(k)
    decreases k - i
  {
    if i < k {
      FindTicksExact(s, i + 1, k);
    }
  }

  /** A slice of a slice. */
  lemma SubSlice(s: string, q: nat, f: string, x: nat, y: nat)
    requires q + |f| <= |s| && s[q..q + |f|] == f && x <= y <= |f|
    ensures s[q + x..q + y] == f[x..y]
  {
    forall j | 0 <= j < y - x ensures s[q + x..q + y][j] == f[x..y][j] {
      assert s[q + x + j] == s[q..q + |f|][x + j];
    }
  }

  /** The pieces of a fence's text, each at its index. */
  lemma FenceTextPieces(tag: Option<string>, body: string)
    ensures var f := FenceText(tag, body); var n := |TagText(tag)|;
      && |f| == n + |body| + 7
      && f[..3] == Ticks && f[3..3 + n] == TagText(tag) && f[3 + n] == '\n'
      && f[4 + n..] == body + Ticks
  {
    var t := TagText(tag);
    var f := FenceText(tag, body);
    assert f == Ticks + (t + ("\n" + (body + Ticks)));
    assert f[3..] == t + ("\n" + (body + Ticks));
    assert f[3..][|t|..] == "\n" + (body + Ticks);
  }

  /** The pieces of a fence lying at `q`: the opening backticks, the tag, the
      newline, the body and the closing backticks, each at its index. */
  lemma FencePieces(s: string, q: nat, tag: Option<string>, body: string)
    requires q + |FenceText(tag, body)| <= |s|
    requires s[q..q + |FenceText(tag, body)|] == FenceText(tag, body)
    ensures var nl := q + 3 + |TagText(tag)|;
      && OccursAt(s, Ticks, q)
      && s[q + 3..nl] == TagText(tag)
      && s[nl] == '\n'
      && s[nl + 1..nl + 1 + |body| + 3] == body + Ticks
  {
    var f := FenceText(tag, body);
    var n := |TagText(tag)|;
    FenceTextPieces(tag, body);
    SubSlice(s, q, f, 0, 3);
    SubSlice(s, q, f, 3, 3 + n);
    SubSlice(s, q, f, 3 + n, 4 + n);
    assert s[q + 3 + n] == s[q + 3 + n..q + 4 + n][0];
    SubSlice(s, q, f, 4 + n, |f|);
  }

  /** No "```" starts in `s` inside a shortest body lying at `i`. */
  lemma NoTicksInBody(s: string, i: nat, body: string)
    requires ShortestBody(body)
    requires i + |body| + 3 <= |s| && s[i..i + |body| + 3] == body + Ticks
    ensures forall j: nat :: i <= j < i + |body| ==> !OccursAt(s, Ticks, j)
  {
    forall j: nat | i <= j < i + |body|
      ensures !OccursAt(s, Ticks, j)
    {
      assert !OccursAt(body + Ticks, Ticks, j - i);
      SubSlice(s, i, body + Ticks, j - i, j - i + 3);
    }
  }

  /** The closing backticks of a body lying at `i`. */
  lemma TicksAfterBody(s: string, i: nat, body: string)
    requires i + |body| + 3 <= |s| && s[i..i + |body| + 3] == body + Ticks
    ensures OccursAt(s, Ticks, i + |body|) && s[i..i + |body|] == body
  {
    SubSlice(s, i, body + Ticks, |body|, |body| + 3);
    SubSlice(s, i, body + Ticks, 0, |body|);
  }

  /** `MatchAt` unfolded: the pieces it looks for, found at their indices. */
  lemma MatchAtFound(s: string, q: nat, n: nat, k: nat)
    requires q + 3 + n < |s| && OccursAt(s, Ticks, q) && WordRun(s, q + 3) == n
    requires s[q + 3 + n] == '\n' && FindTicks(s, q + 4 + n) == Some(k)
    ensures MatchAt(s, q) == Some(Match(if n == 0 then None else Some(s[q + 3..q + 3 + n]), s[q + 4 + n..k], k + 3))
  {
  }

  /** The unfolded match, with its captured groups read back as the given
      tag and body. */
  lemma MatchAtRead(s: string, q: nat, n: nat, k: nat, tag: Option<string>, body: string)
    requires q + 3 + n < |s| && n == |TagText(tag)| && k == q + 4 + n + |body| && k <= |s|
    requires MatchAt(s, q) == Some(Match(if n == 0 then None else Some(s[q + 3..q + 3 + n]), s[q + 4 + n..k], k + 3))
    requires (if n == 0 then None else Some(s[q + 3..q + 3 + n])) == tag && s[q + 4 + n..k] == body
    ensures MatchAt(s, q) == Some(Match(tag, body, q + |TagText(tag)| + |body| + 7))
  {
  }

  /** A tag lying at index `i` is a run of word characters ended by a newline,
      and is read back as itself. */
  lemma TagAt(s: string, i: nat, tag: Option<string>)
    requires ValidTag(tag)
    requires i + |TagText(tag)| < |s| && s[i..i + |TagText(tag)|] == TagText(tag) && s[i + |TagText(tag)|] == '\n'
    ensures WordRun(s, i) == |TagText(tag)|
    ensures (if |TagText(tag)| == 0 then None else Some(s[i..i + |TagText(tag)|])) == tag
  {
    var t := TagText(tag);
    forall j | i <= j < i + |t| ensures IsWordChar(s[j]) {
      assert s[j] == s[i..i + |t|][j - i];
    }
    WordRunExact(s, i, |t|);
  }

  /** The expression finds every fence: when a fence with a valid tag and a
      shortest body lies at `q`, the match at `q` is exactly that fence. */
  lemma MatchAtComplete(s: string, q: nat, tag: Option<string>, body: string)
    requires ValidTag(tag) && ShortestBody(body)
    requires q + |FenceText(tag, body)| <= |s|
    requires s[q..q + |FenceText(tag, body)|] == FenceText(tag, body)
    ensures MatchAt(s, q) == Some(Match(tag, body, q + |FenceText(tag, body)|))
  {
    assert |FenceText(tag, body)| == |TagText(tag)| + |body| + 7;
    FencePieces(s, q, tag, body);
    MatchAtFromPieces(s, q, tag, body);
  }

  /** The same, from the pieces of the fence. */
  lemma MatchAtFromPieces(s: string, q: nat, tag: Option<string>, body: string)
    requires ValidTag(tag) && ShortestBody(body)
    requires OccursAt(s, Ticks, q) && q + |TagText(tag)| + |body| + 7 <= |s|
    requires s[q + 3..q + 3 + |TagText(tag)|] == TagText(tag) && s[q + 3 + |TagText(tag)|] == '\n'
    requires s[q + 4 + |TagText(tag)|..q + 7 + |TagText(tag)| + |body|] == body + Ticks
    ensures MatchAt(s, q) == Some(Match(tag, body, q + |TagText(tag)| + |body| + 7))
  {
    var n := |TagText(tag)|;
    var k := q + 4 + n + |body|;
    PiecesFound(s, q, n, tag, body);
    MatchAtFound(s, q, n, k);
    MatchAtRead(s, q, n, k, tag, body);
  }

  /** What the expression's parts find at the pieces of a fence. */
  lemma PiecesFound(s: string, q: nat, n: nat, tag: Option<string>, body: string)
    requires n == |TagText(tag)| && ValidTag(tag) && ShortestBody(body)
    requires q + n + |body| + 7 <= |s|
    requires s[q + 3..q + 3 + n] == TagText(tag) && s[q + 3 + n] == '\n'
    requires s[q + 4 + n..q + 7 + n + |body|] == body + Ticks
    ensures WordRun(s, q + 3) == n
    ensures FindTicks(s, q + 4 + n) == Some(q + 4 + n + |body|)
    ensures (if n == 0 then None else Some(s[q + 3..q + 3 + n])) == tag
    ensures s[q + 4 + n..q + 4 + n + |body|] == body
  {
    TagAt(s, q + 3, tag);
    BodyAt(s, q + 4 + n, body);
  }

  /** A shortest body lying at `i`, followed by "```", is what the lazy body
      takes. */
  lemma BodyAt(s: string, i: nat, body: string)
    requires ShortestBody(body)
    requires i + |body| + 3 <= |s| && s[i..i + |body| + 3] == body + Ticks
    ensures FindTicks(s, i) == Some(i + |body|) && s[i..i + |body|] == body
  {
    NoTicksInBody(s, i, body);
    TicksAfterBody(s, i, body);
    FindTicksExact(s, i, i + |body|);
  }

  /** One cut of the split: the prose before a fence, and the fence's captured
      tag and body. */
  datatype Fence = Fence(prose: string, tag: Option<string>, body: string)

  /** The whole split: the fences in order and the prose after the last one. */
  datatype Split = Split(fences: seq<Fence>, tail: string)

  predicate WellFormedFences(fences: seq<Fence>)
  {
    forall i :: 0 <= i < |fences| ==> ValidTag(fences[i].tag) && ShortestBody(fences[i].body)
  }

  /** The split of `s[p..]`, where indices `p..q-1` are already known not to
      start a fence. */
  function SplitFrom(s: string, p: nat, q: nat): (r: Split)
    requires p <= q <= |s|
    ensures WellFormedFences(r.fences)
    decreases |s| - q
  {
    if q == |s| then Split([], s[p..])
    else
      match MatchAt(s, q)
      case None => SplitFrom(s, p, q + 1)
      case Some(m) =>
        MatchAtSound(s, q);
        var rest := SplitFrom(s, m.end, m.end);
        Split([Fence(s[p..q], m.tag, m.body)] + rest.fences, rest.tail)
  }

  /** `answer.split(...)` with the fence expression, as fences and a tail. */
  function SplitFences(s: string): (r: Split)
    ensures WellFormedFences(r.fences)
    ensures Unsplit(r.fences, r.tail) == s
  {
    SplitFromRoundTrip(s, 0, 0);
    SplitFrom(s, 0, 0)
  }

  /** The text a split stands for: every prose piece followed by its fence,
      then the tail. */
  function Unsplit(fences: seq<Fence>, tail: string): string
  {
    if fences == [] then tail
    else fences[0].prose + FenceText(fences[0].tag, fences[0].body) + Unsplit(fences[1..], tail)
  }

  lemma {:induction false} SplitFromRoundTrip(s: string, p: nat, q: nat)
    requires p <= q <= |s|
    ensures Unsplit(SplitFrom(s, p, q).fences, SplitFrom(s, p, q).tail) == s[p..]
    decreases |s| - q
  {
    if q < |s| {
      var m := MatchAt(s, q);
      if m.None? {
        SplitFromRoundTrip(s, p, q + 1);
      } else {
        var e := m.value.end;
        MatchAtSound(s, q);
        var rest := SplitFrom(s, e, e);
        SplitFromRoundTrip(s, e, e);
        var f := Fence(s[p..q], m.value.tag, m.value.body);
        assert SplitFrom(s, p, q) == Split([f] + rest.fences, rest.tail);
        UnsplitCons(f, rest.fences, rest.tail);
        ThreeSlices(s, p, q, e);
      }
    }
  }

  lemma ThreeSlices(s: string, p: nat, q: nat, e: nat)
    requires p <= q <= e <= |s|
    ensures s[p..] == s[p..q] + s[q..e] + s[e..]
  {
  }

  lemma UnsplitCons(f: Fence, fences: seq<Fence>, tail: string)
    ensures Unsplit([f] + fences, tail) == f.prose + FenceText(f.tag, f.body) + Unsplit(fences, tail)
  {
    assert ([f] + fences)[1..] == fences;
  }

  /** No fence starts at any index of `s` from `p` up to `q - 1`. */
  predicate NoMatchIn(s: string, p: nat, q: nat)
    requires q <= |s|
  {
    forall j: nat :: p <= j < q ==> MatchAt(s, j).None?
  }

  /** Indices where no fence starts are passed over: the split from `q` is
      the split from the next candidate `k`. */
  lemma {:induction false} SplitFromSkip(s: string, p: nat, q: nat, k: nat)
    requires p <= q <= k <= |s| && NoMatchIn(s, q, k)
    ensures SplitFrom(s, p, q) == SplitFrom(s, p, k)
    decreases k - q
  {
    if q < k {
      assert MatchAt(s, q).None?;
      assert NoMatchIn(s, q + 1, k);
      SplitFromSkip(s, p, q + 1, k);
    }
  }

  /** The split of `s[p..]` cuts at the leftmost match: when the expression
      first matches at index `k`, the first fence's prose is `s[p..k]`, its
      tag and body are those of that match, and the remaining fences and the
      tail are the split of the text after the match. */
  lemma SplitFromFirstMatch(s: string, p: nat, k: nat)
    requires p <= k < |s| && NoMatchIn(s, p, k) && MatchAt(s, k).Some?
    ensures var m := MatchAt(s, k).value; var rest := SplitFrom(s, m.end, m.end);
      SplitFrom(s, p, p) == Split([Fence(s[p..k], m.tag, m.body)] + rest.fences, rest.tail)
  {
    SplitFromSkip(s, p, p, k);
  }

  /** When the expression matches nowhere in `s[p..]`, the split of it is
      that text alone. */
  lemma SplitFromNoMatch(s: string, p: nat)
    requires p <= |s| && NoMatchIn(s, p, |s|)
    ensures SplitFrom(s, p, p) == Split([], s[p..])
  {
    SplitFromSkip(s, p, p, |s|);
  }

  /** The whole answer's split cuts at the leftmost match; the rest is the
      split of the text after it. */
  lemma SplitFencesFirstMatch(s: string, k: nat)
    requires k < |s| && NoMatchIn(s, 0, k) && MatchAt(s, k).Some?
    ensures var m := MatchAt(s, k).value;
      && SplitFences(s).fences != []
      && SplitFences(s).fences[0] == Fence(s[..k], m.tag, m.body)
      && Split(SplitFences(s).fences[1..], SplitFences(s).tail) == SplitFrom(s, m.end, m.end)
  {
    SplitFromFirstMatch(s, 0, k);
    var m := MatchAt(s, k).value;
    var rest := SplitFrom(s, m.end, m.end);
    assert ([Fence(s[0..k], m.tag, m.body)] + rest.fences)[1..] == rest.fences;
  }

  /** When the expression matches nowhere, the split is the whole text. */
  lemma SplitFencesNoMatch(s: string)
    requires NoMatchIn(s, 0, |s|)
    ensures SplitFences(s) == Split([], s)
  {
    SplitFromNoMatch(s, 0);
  }

  /** An answer that is a single fence splits into that fence alone, with
      empty prose before and after it. */
  lemma SingleFenceSplit(tag: Option<string>, body: string)
    requires ValidTag(tag) && ShortestBody(body)
    ensures SplitFences(FenceText(tag, body)) == Split([Fence("", tag, body)], "")
  {
    var s := FenceText(tag, body);
    MatchAtComplete(s, 0, tag, body);
    SplitFencesFirstMatch(s, 0);
    var sp := SplitFences(s);
    assert sp.fences == [sp.fences[0]] + sp.fences[1..];
  }

  /** A text without "```" anywhere is one piece of prose. */
  lemma {:induction false} NoTicksNoFences(s: string, p: nat, q: nat)
    requires p <= q <= |s|
    requires forall j: nat :: !OccursAt(s, Ticks, j)
    ensures SplitFrom(s, p, q) == Split([], s[p..])
    decreases |s| - q
  {
    if q < |s| {
      NoTicksNoFences(s, p, q + 1);
    }
  }

  /** No "```" occurs anywhere in `t`. */
  predicate TickFree(t: string)
  {
    forall j: nat :: j < |t| ==> !OccursAt(t, Ticks, j)
  }

  predicate ProseTickFree(fences: seq<Fence>)
  {
    forall i :: 0 <= i < |fences| ==> TickFree(fences[i].prose)
  }

  /** "```" at `i`, character by character. */
  lemma OccursTicks(s: string, i: nat)
    ensures OccursAt(s, Ticks, i) <==> i + 3 <= |s| && s[i] == '`' && s[i + 1] == '`' && s[i + 2] == '`'
  {
    if i + 3 <= |s| {
      assert s[i..i + 3] == [s[i], s[i + 1], s[i + 2]];
    }
  }

  /** An occurrence of "```" lying wholly inside `s[p..k]` is one of that
      slice. */
  lemma TickFreeSlice(s: string, p: nat, k: nat)
    requires p <= k <= |s| && TickFree(s[p..k])
    ensures forall j: nat :: p <= j && j + 3 <= k ==> !OccursAt(s, Ticks, j)
  {
    var t := s[p..k];
    forall j: nat | p <= j && j + 3 <= k ensures !OccursAt(s, Ticks, j) {
      var i: nat := j - p;
      assert i < |t| && !OccursAt(t, Ticks, i);
      OccursTicks(t, i);
      OccursTicks(s, j);
    }
  }

  /** Prose free of "```" that runs up to a fence holds no match: one could
      only start in its last two characters, and then the fence's own
      backticks stand where a tag or a newline would have to be. */
  lemma ProseNoMatch(s: string, p: nat, k: nat)
    requires p <= k && k + 4 <= |s| && OccursAt(s, Ticks, k) && TickFree(s[p..k])
    ensures NoMatchIn(s, p, k)
  {
    TickFreeSlice(s, p, k);
    OccursTicks(s, k);
    forall j: nat | p <= j < k ensures MatchAt(s, j).None? {
      if OccursAt(s, Ticks, j) {
        assert !IsWordChar(s[j + 3]);
        assert WordRun(s, j + 3) == 0;
      }
    }
  }

  /** Where `s[p..]` is a prose piece, a fence and more text, each sits at
      its own indices. */
  lemma UnsplitPieces(s: string, p: nat, k: nat, e: nat, f: Fence, rest: string)
    requires p <= |s| && s[p..] == f.prose + FenceText(f.tag, f.body) + rest
    requires k == p + |f.prose| && e == k + |FenceText(f.tag, f.body)|
    ensures e <= |s| && s[p..k] == f.prose && s[k..e] == FenceText(f.tag, f.body) && s[e..] == rest
  {
    var ft := FenceText(f.tag, f.body);
    var u := f.prose + ft + rest;
    assert s[p..p + |u|] == u;
    SubSlice(s, p, u, 0, k - p);
    assert u[0..k - p] == f.prose;
    SubSlice(s, p, u, k - p, e - p);
    assert u[k - p..e - p] == ft;
    SubSlice(s, p, u, e - p, |u|);
    assert u[e - p..|u|] == rest;
  }

  /** One step of the inverse: prose without "```" followed by a valid fence
      is cut exactly there. */
  lemma SplitFromFence(s: string, p: nat, k: nat, e: nat, f: Fence)
    requires p <= k && e <= |s| && e == k + |FenceText(f.tag, f.body)|
    requires s[p..k] == f.prose && s[k..e] == FenceText(f.tag, f.body)
    requires TickFree(f.prose) && ValidTag(f.tag) && ShortestBody(f.body)
    ensures SplitFrom(s, p, p) == Split([f] + SplitFrom(s, e, e).fences, SplitFrom(s, e, e).tail)
  {
    FencePieces(s, k, f.tag, f.body);
    ProseNoMatch(s, p, k);
    MatchAtComplete(s, k, f.tag, f.body);
    SplitFromFirstMatch(s, p, k);
  }

  /** Splitting the text of a split gives that split back, wherever it
      starts in `s`, as long as its prose and tail hold no "```". */
  lemma {:induction false} SplitFromUnsplit(s: string, p: nat, fences: seq<Fence>, tail: string)
    requires p <= |s| && s[p..] == Unsplit(fences, tail)
    requires WellFormedFences(fences) && ProseTickFree(fences) && TickFree(tail)
    ensures SplitFrom(s, p, p) == Split(fences, tail)
    decreases |fences|
  {
    if fences == [] {
      assert s[p..|s|] == tail;
      TickFreeSlice(s, p, |s|);
      SplitFromNoMatch(s, p);
    } else {
      var f := fences[0];
      var k := p + |f.prose|;
      var e := k + |FenceText(f.tag, f.body)|;
      UnsplitPieces(s, p, k, e, f, Unsplit(fences[1..], tail));
      SplitFromFence(s, p, k, e, f);
      SplitFromUnsplit(s, e, fences[1..], tail);
      assert [f] + fences[1..] == fences;
    }
  }

  /** The split is the inverse of `Unsplit`: a text built from fences and
      prose without "```" is cut at every one of its fences, in order. */
  lemma SplitUnsplit(fences: seq<Fence>, tail: string)
    requires WellFormedFences(fences) && ProseTickFree(fences) && TickFree(tail)
    ensures SplitFences(Unsplit(fences, tail)) == Split(fences, tail)
  {
    SplitFromUnsplit(Unsplit(fences, tail), 0, fences, tail);
  }

  /** The array `split` returns: each fence contributes its prose, its tag
      (`undefined` when absent) and its body, and the tail comes last. */
  function Parts(fences: seq<Fence>, tail: string): (parts: seq<Option<string>>)
    ensures |parts| == 3 * |fences| + 1
  {
    if fences == [] then [Some(tail)]
    else [Some(fences[0].prose), fences[0].tag, Some(fences[0].body)] + Parts(fences[1..], tail)
  }

  /** Positions 3i, 3i+1 and 3i+2 of the parts array hold the i-th fence's
      prose, tag and body; the last position holds the tail. */
  lemma {:induction false} PartsAt(fences: seq<Fence>, tail: string, i: nat)
    requires i <= |fences|
    ensures i < |fences| ==> Parts(fences, tail)[3 * i] == Some(fences[i].prose)
    ensures i < |fences| ==> Parts(fences, tail)[3 * i + 1] == fences[i].tag
    ensures i < |fences| ==> Parts(fences, tail)[3 * i + 2] == Some(fences[i].body)
    ensures i == |fences| ==> Parts(fences, tail)[3 * i] == Some(tail)
  {
    if 0 < i {
      PartsAt(fences[1..], tail, i - 1);
      var parts := Parts(fences, tail);
      var rest := Parts(fences[1..], tail);
      assert parts == [Some(fences[0].prose), fences[0].tag, Some(fences[0].body)] + rest;
      assert parts[3 * i] == rest[3 * (i - 1)];
      if i < |fences| {
        assert parts[3 * i + 1] == rest[3 * (i - 1) + 1];
        assert parts[3 * i + 2] == rest[3 * (i - 1) + 2];
      }
    }
  }

  /** In the parts array, only positions 1, 4, 7, ... (tags) may be `undefined`. */
  lemma PartsDefinedOffTags(fences: seq<Fence>, tail: string, i: nat)
    requires i < |Parts(fences, tail)| && i % 3 != 1
    ensures Parts(fences, tail)[i].Some?
  {
    PartsAt(fences, tail, i / 3);
  }
}
