/** The results panel (src/components/QueryResults.tsx): the confidence band
    and icon, the formatting of the answer into prose lines and code blocks,
    and what the panel shows. Markup is replaced by a description of it. */
module QueryResults {
  import opened Wrappers
  import opened Strings
  import opened Types
  import opened CodeFences

  // ---------------------------------------------------------------------------
  // Confidence (lines 15-24)
  // ---------------------------------------------------------------------------

  /** The three colour schemes of the confidence badge. */
  datatype Band = Green | Yellow | Red

  /** `getConfidenceColor`: the bands split the scale at 0.6 and 0.8. */
  function ConfidenceColor(confidence: real): (band: Band)
    ensures band == Green <==> 0.8 <= confidence
    ensures band == Yellow <==> 0.6 <= confidence < 0.8
    ensures band == Red <==> confidence < 0.6
  {
    if confidence >= 0.8 then Green
    else if confidence >= 0.6 then Yellow
    else Red
  }

  function Rank(band: Band): nat
  {
    match band
    case Red => 0
    case Yellow => 1
    case Green => 2
  }

  /** A higher confidence never gets a worse band. */
  lemma ConfidenceColorMonotone(c1: real, c2: real)
    requires c1 <= c2
    ensures Rank(ConfidenceColor(c1)) <= Rank(ConfidenceColor(c2))
  {
  }

  /** `getConfidenceIcon`: the check icon (rather than the alert icon) is shown
      exactly for the green band. */
  function ShowsCheckIcon(confidence: real): (check: bool)
    ensures check <==> ConfidenceColor(confidence) == Green
  {
    confidence >= 0.8
  }

  // ---------------------------------------------------------------------------
  // Prose lines (lines 35-57)
  // ---------------------------------------------------------------------------

  /** What a line of prose becomes: a heading, a list item or a paragraph,
      each with the text it shows. */
  datatype Line = Heading(text: string) | ListItem(text: string) | Paragraph(text: string)

  predicate IsHeadingLine(line: string) { StartsWith(line, "**") && EndsWith(line, "**") }

  /** The tests of lines 36, 43 and 50, in that order; a blank line shows
      nothing. A heading shows the line with every "**" removed, a list item
      the line after its "- ", a paragraph the line itself. */
  function ClassifyLine(line: string): (r: Option<Line>)
    ensures (r.Some? && r.value.Heading?) <==> IsHeadingLine(line)
    ensures (r.Some? && r.value.ListItem?) <==> !IsHeadingLine(line) && StartsWith(line, "- ")
    ensures (r.Some? && r.value.Paragraph?) <==> !IsHeadingLine(line) && !StartsWith(line, "- ") && !AllSpace(line)
    ensures r.Some? && r.value.Heading? ==>
      r.value.text == StripDoubleStars(line) && NoDoubleStar(r.value.text) && NonStars(r.value.text) == NonStars(line)
    ensures r.Some? && r.value.ListItem? ==> line == "- " + r.value.text
    ensures r.Some? && r.value.Paragraph? ==> r.value.text == line
  {
    if IsHeadingLine(line) then Some(Heading(StripDoubleStars(line)))
    else if StartsWith(line, "- ") then
      assert line == line[..2] + line[2..];
      Some(ListItem(line[2..]))
    else if Trim(line) != "" then Some(Paragraph(line))
    else None
  }

  // ---------------------------------------------------------------------------
  // Blocks (lines 26-88)
  // ---------------------------------------------------------------------------

  /** A rendered part of the answer: prose, one entry per line of it (absent
      for a blank line), or a code block with its language label, the code it
      shows and the text its copy button copies. */
  datatype Block = Prose(lines: seq<Option<Line>>) | Code(language: string, shown: string, copied: string)

  /** `parts[index - 1] || 'bash'`: the tag, or "bash" when there is none. */
  function Language(tag: Option<string>): (language: string)
    ensures language != ""
    ensures tag.None? ==> language == "bash"
    ensures tag.Some? && tag.value != "" ==> language == tag.value
    ensures tag == Some("") ==> language == "bash"
  {
    match tag
    case None => "bash"
    case Some(t) => if t == "" then "bash" else t
  }

  /** A prose part, split at its newlines and each line classified. */
  function ProseBlock(text: string): (b: Block)
    ensures b.Prose? && |b.lines| == |SplitLines(text)|
    ensures forall i :: 0 <= i < |b.lines| ==> b.lines[i] == ClassifyLine(SplitLines(text)[i])
  {
    var lines := SplitLines(text);
    Prose(seq(|lines|, i requires 0 <= i < |lines| => ClassifyLine(lines[i])))
  }

  /** Prose written as newline-free lines joined by newlines is shown line by
      line: entry i is the classification of the i-th line written. */
  lemma ProseBlockOfLines(lines: seq<string>)
    requires |lines| >= 1
    requires forall k :: 0 <= k < |lines| ==> NoNewline(lines[k])
    ensures |ProseBlock(JoinLines(lines)).lines| == |lines|
    ensures forall i :: 0 <= i < |lines| ==> ProseBlock(JoinLines(lines)).lines[i] == ClassifyLine(lines[i])
  {
    SplitJoinLines(lines);
  }

  predicate DefinedOffTags(parts: seq<Option<string>>)
  {
    forall i :: 0 <= i < |parts| && i % 3 != 1 ==> parts[i].Some?
  }

  /** The callback of `parts.map`: prose at positions 0, 3, 6, ..., a code block
      at 2, 5, 8, ... labelled by the tag just before it, nothing for a tag. */
  function FormatPart(parts: seq<Option<string>>, index: nat): (b: Option<Block>)
    requires index < |parts| && DefinedOffTags(parts)
    ensures b.None? <==> index % 3 == 1
    ensures index % 3 == 0 ==> b.Some? && b.value == ProseBlock(parts[index].value)
    ensures index % 3 == 2 ==>
      && b.Some? && b.value.Code? && b.value.shown == parts[index].value
      && b.value.copied == b.value.shown && b.value.language == Language(parts[index - 1])
  {
    if index % 3 == 0 then Some(ProseBlock(parts[index].value))
    else if index % 3 == 2 then Some(Code(Language(parts[index - 1]), parts[index].value, parts[index].value))
    else None
  }

  /** `formatAnswer(answer)`: one entry per part of the split. */
  function FormatAnswer(answer: string): (blocks: seq<Option<Block>>)
    ensures |blocks| == 3 * |SplitFences(answer).fences| + 1
  {
    var sp := SplitFences(answer);
    var parts := Parts(sp.fences, sp.tail);
    PartsDefined(sp.fences, sp.tail);
    seq(|parts|, i requires 0 <= i < |parts| => FormatPart(parts, i))
  }

  lemma PartsDefined(fences: seq<Fence>, tail: string)
    ensures DefinedOffTags(Parts(fences, tail))
  {
    var parts := Parts(fences, tail);
    forall i | 0 <= i < |parts| && i % 3 != 1 ensures parts[i].Some? {
      PartsDefinedOffTags(fences, tail, i);
    }
  }

  lemma FormatAnswerIndex(answer: string, j: nat)
    requires j < |FormatAnswer(answer)|
    ensures DefinedOffTags(Parts(SplitFences(answer).fences, SplitFences(answer).tail))
    ensures FormatAnswer(answer)[j] == FormatPart(Parts(SplitFences(answer).fences, SplitFences(answer).tail), j)
  {
    PartsDefined(SplitFences(answer).fences, SplitFences(answer).tail);
  }

  lemma Mod3(i: nat)
    ensures (3 * i) % 3 == 0 && (3 * i + 1) % 3 == 1 && (3 * i + 2) % 3 == 2
  {
  }

  /** The i-th fence's prose is shown as a prose block, and so is the tail. */
  lemma FormatAnswerProse(answer: string, i: nat)
    requires i <= |SplitFences(answer).fences|
    ensures var sp := SplitFences(answer);
      FormatAnswer(answer)[3 * i] == Some(ProseBlock(if i < |sp.fences| then sp.fences[i].prose else sp.tail))
  {
    var sp := SplitFences(answer);
    PartsAt(sp.fences, sp.tail, i);
    FormatAnswerIndex(answer, 3 * i);
    Mod3(i);
  }

  /** The i-th fence's tag shows nothing of its own. */
  lemma FormatAnswerTag(answer: string, i: nat)
    requires i < |SplitFences(answer).fences|
    ensures FormatAnswer(answer)[3 * i + 1] == None
  {
    FormatAnswerIndex(answer, 3 * i + 1);
    Mod3(i);
  }

  /** The i-th fence's body is shown as a code block labelled by its tag, or
      "bash" without one, and its copy button copies exactly the code shown. */
  lemma FormatAnswerCode(answer: string, i: nat)
    requires i < |SplitFences(answer).fences|
    ensures var f := SplitFences(answer).fences[i];
      FormatAnswer(answer)[3 * i + 2] == Some(Code(Language(f.tag), f.body, f.body))
  {
    var sp := SplitFences(answer);
    PartsAt(sp.fences, sp.tail, i);
    FormatAnswerIndex(answer, 3 * i + 2);
    Mod3(i);
  }

  /** A fence without a tag is labelled "bash". */
  lemma UntaggedFenceIsBash(answer: string, i: nat)
    requires i < |SplitFences(answer).fences| && SplitFences(answer).fences[i].tag.None?
    ensures FormatAnswer(answer)[3 * i + 2].value.language == "bash"
  {
    FormatAnswerCode(answer, i);
  }

  /** Every code block's copy button copies exactly the code it shows. */
  lemma CopyIsShownCode(answer: string)
    ensures forall k :: 0 <= k < |FormatAnswer(answer)| && FormatAnswer(answer)[k].Some? && FormatAnswer(answer)[k].value.Code? ==>
      FormatAnswer(answer)[k].value.copied == FormatAnswer(answer)[k].value.shown
  {
  }

  /** An answer without "```" is rendered as a single prose block. */
  lemma PlainAnswerIsOneProseBlock(answer: string)
    requires forall j: nat :: !OccursAt(answer, Ticks, j)
    ensures FormatAnswer(answer) == [Some(ProseBlock(answer))]
  {
    NoTicksNoFences(answer, 0, 0);
    FormatAnswerProse(answer, 0);
  }

  // ---------------------------------------------------------------------------
  // The panel (lines 90-161)
  // ---------------------------------------------------------------------------

  /** What the panel shows: the quoted query, the confidence badge, the
      formatted answer and the cited sources (their list only when there is
      one). */
  datatype ResultsView = ResultsView(
    query: string, band: Band, checkIcon: bool, answer: seq<Option<Block>>,
    sources: seq<Source>, showSources: bool)

  /** `QueryResults`: nothing while loading, otherwise the panel. */
  function Render(result: QueryResult, isLoading: bool): (view: Option<ResultsView>)
    ensures view.None? <==> isLoading
    ensures view.Some? ==>
      && view.value.query == result.query
      && view.value.band == ConfidenceColor(result.confidence)
      && (view.value.checkIcon <==> view.value.band == Green)
      && view.value.answer == FormatAnswer(result.answer)
      && view.value.sources == result.sources
      && (view.value.showSources <==> |result.sources| > 0)
  {
    if isLoading then None
    else Some(ResultsView(
      result.query, ConfidenceColor(result.confidence), ShowsCheckIcon(result.confidence),
      FormatAnswer(result.answer), result.sources, |result.sources| > 0))
  }
}
