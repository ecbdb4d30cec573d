# Freshservice API documentation assistant: the query page, modelled in Dafny

The application is a single React page for asking questions about the
Freshservice API. It has three parts:

- a search form that forwards the trimmed question;
- a results panel that shows the answer, cut into prose lines and fenced code
  blocks, with a confidence badge and the cited pages;
- a sidebar that lists the recent queries.

No retrieval happens. Every answer comes from `generateMockResponse`, which
matches keywords against the query and returns one of four canned results.

The model covers this logic:

- **Wrappers, Types.** `Option`, and the `QueryResult` and `Source` records.
  Numbers are `real`.
- **Strings.** The JavaScript built-ins the page relies on:
  - `toLowerCase` (ASCII letters) and `includes`;
  - `trim`, with the ECMAScript white-space and line-terminator set;
  - `startsWith` and `endsWith`;
  - `split('\n')` and `join('\n')`;
  - the global replace of `**`.
- **MockResponse.** `generateMockResponse`:
  - the keyword tests in their order of precedence;
  - the four canned results, with the answer texts verbatim.
- **History.** The bounded, most-recent-first history, the five-entry window
  and the 40-character button labels.
- **CodeFences.** The `split` of an answer by the fence expression
  (src/components/QueryResults.tsx line 28), written as a scanner that tries
  the expression at each index in turn.
- **QueryResults.** The confidence bands and icon, the line classifier,
  `formatAnswer` and what the panel shows.
- **SearchInterface.** The form's `query` state, `handleSubmit`, the
  submit-button condition and the "Searching documentation" banner.
- **Session.** The page as a class `App`:
  - its four state variables;
  - `handleQuery` and its two halves (before and after the simulated delay);
  - the main panel and the sidebar;
  - submitting the form and clicking a recent query.

Two behaviours of the code that are easy to misread:

- **Case-insensitivity.** The query is lower-cased before matching
  (src/App.tsx:34), so dispatch looks case-insensitive. It is for the branch,
  the sources and the confidence. It is not for the answer of the default
  branch, which quotes the query as typed (src/App.tsx:149):
  - `MockResponse.CaseInsensitiveDispatch` proves the part that holds;
  - `MockResponse.DefaultAnswerIsCaseSensitive` shows that "Hi" and "hi" get
    different answers.
- **Labels.** A label equals its query for every query of at most 40
  characters. It also does for a 43-character query that ends in "..." after
  its 40th character (`History.LabelFixedPoints`).

## Model

| member | source | states |
|---|---|---|
| Strings.LowerChar | src/App.tsx:34 | the result is never an upper-case ASCII letter; an upper-case letter moves by the fixed 'a'-'A' offset and every other character is kept |
| Strings.Lower | src/App.tsx:34 | `toLowerCase` keeps the length, turns each upper-case ASCII letter into its lower-case letter ('a' - 'A' further on), leaves no upper-case ASCII letter and keeps every other character in place |
| Strings.LowerIdempotent | src/App.tsx:34 | lower-casing a lower-cased query changes nothing |
| Strings.LowerOfUpper | src/App.tsx:34 | a query typed in capitals lower-cases to the same text as the query itself |
| Strings.StartsWithChars | src/components/QueryResults.tsx:36 | `startsWith` holds exactly when the first characters of the line are those of the prefix, one by one |
| Strings.EndsWithChars | src/components/QueryResults.tsx:36 | `endsWith` holds exactly when the last characters of the line are those of the suffix, one by one |
| Strings.Includes | src/App.tsx:36 | `includes` holds whenever the text starts with the keyword, and only when the keyword is no longer than the text |
| Strings.IncludesIffOccurs | src/App.tsx:36 | `includes` holds exactly when some index of the text starts the keyword |
| Strings.IncludesInContext | src/App.tsx:149 | text placed around a string that contains a keyword still contains it |
| Strings.TrimStart | src/components/SearchInterface.tsx:19 | the result is a suffix of the input, only white space was dropped, and it does not start with white space |
| Strings.TrimEnd | src/components/SearchInterface.tsx:19 | the result is a prefix of the input, only white space was dropped, and it does not end with white space |
| Strings.Trim | src/components/SearchInterface.tsx:19-20 | `trim()` is a slice of the input with only white space around it and none at its ends; it is empty exactly when the input is all white space |
| Strings.TrimIdempotent | src/components/SearchInterface.tsx:20 | a trimmed string is its own trim |
| Strings.SplitLines | src/components/QueryResults.tsx:35 | `split('\n')` yields at least one piece, and no piece contains a newline |
| Strings.JoinSplitLines | src/components/QueryResults.tsx:35 | joining the pieces with newlines gives the text back |
| Strings.SplitJoinLines | src/components/QueryResults.tsx:35 | splitting newline-free lines joined by newlines gives the same lines |
| Strings.StripDoubleStars | src/components/QueryResults.tsx:39 | the global replace of `**` leaves no `**`, keeps every other character in order, removes an even number of asterisks and keeps a leading non-asterisk |
| Strings.StripStarRun | src/components/QueryResults.tsx:39 | a run of n asterisks in front of a character other than `*` is replaced by n mod 2 asterisks |
| Strings.StripIsCollapse | src/components/QueryResults.tsx:39 | the replace equals the run-by-run reference: every maximal run of n asterisks becomes n mod 2 asterisks in its place, and every other character is kept |
| Strings.StripOddRuns | src/components/QueryResults.tsx:39 | the heading line "***a***" is shown as "*a*" |
| Strings.StripDoubleStarsNoop | src/components/QueryResults.tsx:39 | a line without `**` is left unchanged |
| Strings.StripDoubleStarsIdempotent | src/components/QueryResults.tsx:39 | stripping twice is stripping once |
| MockResponse.IntentOf | src/App.tsx:34-148 | each keyword branch is taken only when the lower-cased query contains its keywords, and the default only when it does not contain "auth" |
| MockResponse.ResponseFor | src/App.tsx:37-171 | each of the four canned results echoes the query as typed, cites at least one page, and has its confidence and every relevance score in [0, 1] |
| MockResponse.GenerateMockResponse | src/App.tsx:33-172 | the result echoes the query as typed, cites at least one page, and has its confidence and every relevance score in [0, 1] |
| MockResponse.DispatchPrecedence | src/App.tsx:34-148 | the branch is chosen by the lower-cased query, in order: "create" and "ticket" anywhere (either order), else "update" and "status", else "auth", else the default; all four directions are iffs |
| MockResponse.CaseInsensitiveDispatch | src/App.tsx:34-170 | queries with the same lower-cased form get the same branch, sources and confidence, and the same answer outside the default branch |
| MockResponse.IntentOfLower | src/App.tsx:34 | dispatching the lower-cased query picks the same branch |
| MockResponse.ShoutedQuery | src/App.tsx:34-36 | a query typed in capitals gets the same branch, sources and confidence as the query itself |
| MockResponse.ShoutedTicketRequest | src/App.tsx:34-36 | "CREATE A TICKET" gets the ticket answer |
| MockResponse.DefaultAnswerQuotesQuery | src/App.tsx:149 | the default answer contains the query exactly as typed |
| MockResponse.DefaultAnswerIsCaseSensitive | src/App.tsx:149 | "Hi" and "hi" lower-case alike and both reach the default branch, yet get different answers |
| MockResponse.AuthorCountsAsAuth | src/App.tsx:114 | "Author" contains "auth" and gets the authentication answer |
| History.Push | src/App.tsx:22 | the new history starts with the query, has at most 10 entries, and continues with the previous entries in order, without de-duplication |
| History.PushAllKeepsMostRecent | src/App.tsx:22 | after any run of queries the history is those queries newest first, then the earlier history, cut to 10 entries |
| History.HistoryOfSession | src/App.tsx:22 | from an empty history, the history lists the last 10 queries, newest first |
| History.Window | src/App.tsx:211 | the sidebar shows the first min(5, length) entries, in history order |
| History.WindowAfterPush | src/App.tsx:211 | after a query (line 22) the sidebar shows it first, followed by the first four entries it showed before |
| History.Label | src/App.tsx:217 | a button label has at most 43 characters; it is the query itself when the query has at most 40 characters, otherwise exactly 43 characters: the query's first 40 followed by "..." |
| History.LabelIdempotent | src/App.tsx:217 | a label is its own label |
| History.LabelFixedPoints | src/App.tsx:217 | a query is its own label exactly when it has at most 40 characters or is 40 characters followed by "..." |
| History.SidebarLabels | src/App.tsx:211-217 | one label per windowed entry, each the label of that entry and at most 43 characters |
| CodeFences.WordRun | src/components/QueryResults.tsx:28 | the greedy `\w+` run: every character in it is a word character and the next one is not |
| CodeFences.FindTicks | src/components/QueryResults.tsx:28 | the lazy body stops at the first "```" from the given index; none occurs before it |
| CodeFences.MatchAt | src/components/QueryResults.tsx:28 | a match starts at the index tried and ends within the text; what it matches is stated by the two lemmas below |
| CodeFences.MatchAtSound | src/components/QueryResults.tsx:28 | a match covers exactly "```", the tag, a newline, the body and "```"; the tag is absent or word characters, and no "```" starts inside the body |
| CodeFences.MatchAtComplete | src/components/QueryResults.tsx:28 | conversely, a fence with a valid tag and a shortest body lying at the index tried is matched, with exactly that tag, body and end |
| CodeFences.SingleFenceSplit | src/components/QueryResults.tsx:28 | an answer that is one fence splits into that fence alone, with empty prose before and after it |
| CodeFences.SplitFrom | src/components/QueryResults.tsx:28 | every fence of the split has a valid tag and a shortest body; where it cuts, from any start index, is stated by the two lemmas after the next |
| CodeFences.SplitFromSkip | src/components/QueryResults.tsx:28 | indices where the expression does not match are passed over without cutting the text |
| CodeFences.SplitFromFirstMatch | src/components/QueryResults.tsx:28 | from any start index, the split cuts at the leftmost match: the prose is the text from the start to that match, the tag and body are the match's, and the rest is the split from the match's end |
| CodeFences.SplitFromNoMatch | src/components/QueryResults.tsx:28 | from any start index where the expression matches nowhere further on, the split is the rest of the text as one piece |
| CodeFences.SplitFencesFirstMatch | src/components/QueryResults.tsx:28 | the split cuts at the leftmost match: the first fence's prose is the text before the first matching index, its tag and body are that match's, and the rest is the split of the text after it |
| CodeFences.SplitFencesNoMatch | src/components/QueryResults.tsx:28 | where the expression matches nowhere, the split is the whole answer as one piece |
| CodeFences.SplitFromRoundTrip | src/components/QueryResults.tsx:28 | the split of a suffix loses nothing: prose, fences and tail put back together give the suffix |
| CodeFences.SplitFences | src/components/QueryResults.tsx:28 | every fence of the split has a valid tag and a shortest body, and putting each fence back between the prose pieces gives the answer again |
| CodeFences.SplitFromUnsplit | src/components/QueryResults.tsx:28 | from any start index, text made of valid fences and prose without "```" splits into exactly those fences and that tail |
| CodeFences.SplitUnsplit | src/components/QueryResults.tsx:28 | the converse of the round trip: an answer made of valid fences and prose without "```" is cut at every one of its fences, in order, and nowhere else |
| CodeFences.NoTicksNoFences | src/components/QueryResults.tsx:28 | a text without "```" is split into nothing but itself |
| CodeFences.Parts | src/components/QueryResults.tsx:28 | the split array has 3 × (number of fences) + 1 entries |
| CodeFences.PartsAt | src/components/QueryResults.tsx:28-31 | entries 3i, 3i+1 and 3i+2 are the i-th fence's prose, tag and body, and the last entry is the tail |
| CodeFences.PartsDefinedOffTags | src/components/QueryResults.tsx:28-31 | only tag entries (index ≡ 1 mod 3) can be `undefined` |
| QueryResults.ConfidenceColor | src/components/QueryResults.tsx:15-19 | green exactly when confidence ≥ 0.8, yellow exactly when 0.6 ≤ confidence < 0.8, red exactly when confidence < 0.6 |
| QueryResults.ConfidenceColorMonotone | src/components/QueryResults.tsx:15-19 | a higher confidence never gets a worse band |
| QueryResults.ShowsCheckIcon | src/components/QueryResults.tsx:21-23 | the check icon is shown exactly for the green band |
| QueryResults.ClassifyLine | src/components/QueryResults.tsx:35-57 | heading iff the line starts and ends with `**`; else list item iff it starts with "- "; else paragraph iff not blank; else nothing. A heading's text is the line after the global replace of `**` (so it has no `**` and the same other characters), a list item's is the line after "- " and a paragraph's is the line |
| QueryResults.Language | src/components/QueryResults.tsx:63 | the label is the tag, or "bash" when the tag is missing or empty; it is never empty |
| QueryResults.ProseBlock | src/components/QueryResults.tsx:35-58 | one entry per line of the prose, entry i being the classification of line i |
| QueryResults.ProseBlockOfLines | src/components/QueryResults.tsx:35-58 | prose written as newline-free lines joined by newlines is shown line by line, each line classified as written |
| QueryResults.FormatPart | src/components/QueryResults.tsx:30-87 | a part shows nothing exactly at tag positions; prose positions show their prose block; body positions show a code block of the body, labelled by the tag before it, whose copy button copies the body |
| QueryResults.FormatAnswer | src/components/QueryResults.tsx:26-30 | one entry per part: 3 × (number of fences) + 1 |
| QueryResults.PartsDefined | src/components/QueryResults.tsx:28-31 | every prose and body part of the split is defined |
| QueryResults.FormatAnswerProse | src/components/QueryResults.tsx:31-60 | entry 3i is the prose block of the i-th fence's prose, or of the tail |
| QueryResults.FormatAnswerTag | src/components/QueryResults.tsx:86 | a tag entry shows nothing of its own |
| QueryResults.FormatAnswerCode | src/components/QueryResults.tsx:61-84 | entry 3i+2 is a code block of the i-th fence's body, labelled by its language, whose copy button copies that same body |
| QueryResults.UntaggedFenceIsBash | src/components/QueryResults.tsx:63 | a fence without a tag is labelled "bash" |
| QueryResults.CopyIsShownCode | src/components/QueryResults.tsx:72-80 | every code block's copy button copies exactly the code it shows |
| QueryResults.PlainAnswerIsOneProseBlock | src/components/QueryResults.tsx:28-60 | an answer without "```" is shown as one prose block |
| QueryResults.Render | src/components/QueryResults.tsx:90-161 | nothing while loading; otherwise the query, the band and icon of the confidence, the formatted answer and the sources, with the sources list shown only when there is one |
| SearchInterface.SearchBox.constructor | src/components/SearchInterface.tsx:15 | the input starts empty |
| SearchInterface.SearchBox.SetQuery | src/components/SearchInterface.tsx:45 | each change of the input replaces the typed text |
| SearchInterface.SearchBox.HandleSubmit | src/components/SearchInterface.tsx:17-22 | forwards what the guard allows, and forwards nothing exactly when the submit button (line 53) is disabled |
| SearchInterface.SearchBox.SubmitDisabled | src/components/SearchInterface.tsx:53 | the button is disabled exactly while loading or when the input is all white space |
| SearchInterface.ShowsSearchingBanner | src/components/SearchInterface.tsx:67 | the banner is hidden when not loading or when the current query is empty, and shown when loading with a non-empty query |
| SearchInterface.Forwarded | src/components/SearchInterface.tsx:19-20 | nothing is forwarded exactly when loading or when the input is all white space; otherwise the trimmed input is forwarded, non-empty and its own trim |
| Session.App.constructor | src/App.tsx:11-14 | empty query, no result, not loading, empty history |
| Session.App.Panel | src/App.tsx:188-197 | the examples are shown exactly when there is no result and nothing is loading; the results panel exactly when there is a result, and it is empty exactly while loading |
| Session.App.Sidebar | src/App.tsx:204-219 | the sidebar appears exactly when the history is non-empty and then shows the labels of at most five entries |
| Session.App.BeginQuery | src/App.tsx:18-22 | keeps the page invariant; loading, the query is current and pushed on the history, the examples are hidden and the results panel is empty, and the banner shows exactly for a non-empty query, and the input is disabled (src/components/SearchInterface.tsx line 48) |
| Session.App.CompleteQuery | src/App.tsx:28-30 | keeps the page invariant; not loading, the result is `generateMockResponse(query)` and the panel renders it; the banner is gone and the input is enabled again |
| Session.App.HandleQuery | src/App.tsx:17-31 | keeps the page invariant; afterwards not loading, the query is current, the result is `generateMockResponse(query)` and the history is the query pushed on the old history |
| Session.App.Submit | src/components/SearchInterface.tsx:17-22 | a blank input or a pending query changes nothing on the page; otherwise the trimmed input goes through `handleQuery` |
| Session.App.SelectRecent | src/App.tsx:211-214 | clicking a recent query re-runs it to completion (not loading, its canned result shown), and it enters the history again |
| Session.MockResultDisplay | src/App.tsx:65-170 | a canned result is shown with its query, its sources and a green badge with the check icon exactly for the three keyword branches, a yellow one for the default |
| Session.SidebarLeadsWithLastQuery | src/App.tsx:217 | after a query the first sidebar button is labelled with that query |

## Left out

- The simulated delay (src/App.tsx:25) and `async`/`await` are not modelled. `handleQuery` is its two halves run one after the other. Interleaved queries, where a second one starts during the delay, are not modelled.
- React's batching of state updates and re-rendering are not modelled. Each state setter is an assignment to a field of `App` or `SearchBox`.
- Strings.Lower: lower-cases ASCII letters only, where `toLowerCase` covers all of Unicode.
- Strings.Trim: strings are sequences of characters, not UTF-16 code units.
- History.Label: `substring(0, 40)` and `length > 40` count characters, not UTF-16 code units.
- The clipboard write (`navigator.clipboard.writeText`) is a browser call. The model states only the text handed to it: Block.Code's `copied` field.
- The percentage text of the badge and the source scores (`toFixed(1)`) is a number-to-text conversion and is not modelled. Confidences are `real` and are compared only with the thresholds.
- JSX markup, CSS classes and icons are replaced by the datatypes `Band`, `Line`, `Block`, `ResultsView` and `MainPanel`.
- src/components/ExampleQueries.tsx, src/components/Header.tsx and src/components/SystemStatus.tsx are not part of this model. They hold static content and the current date. Choosing an example query calls `handleQuery`, which is Session.App.HandleQuery.
- The canned answers are exact constants. CodeFences.SplitUnsplit says how any answer made of fences and prose without "```" is cut, the two fences of the authentication answer included. No lemma applies it to a particular canned answer, because equating a long constant with its pieces put together is beyond what the verifier does cheaply.
- Retrieval, ranking and answer generation appear in none of the source files and are not modelled.
