/** The recent-queries list of the query page (src/App.tsx): the bounded,
    most-recent-first history kept by `handleQuery`, the five-entry window the
    sidebar shows and the 40-character labels of its buttons. */
module History {

  /** Entries kept in the history. */
  const HistoryLimit: nat := 10
  /** Entries shown in the sidebar. */
  const WindowSize: nat := 5
  /** Characters of a query shown on its sidebar button. */
  const LabelWidth: nat := 40
  const Ellipsis: string := "..."

  function Min(a: int, b: int): int { if a <= b then a else b }

  /** `[query, ...prev.slice(0, 9)]`: the new query in front of the first
      nine older entries; nothing is de-duplicated. */
  function Push(history: seq<string>, query: string): (h: seq<string>)
    ensures |h| == Min(|history| + 1, HistoryLimit)
    ensures h[0] == query
    ensures forall i :: 1 <= i < |h| ==> h[i] == history[i - 1]
  {
    [query] + history[..Min(|history|, HistoryLimit - 1)]
  }

  function Reversed(s: seq<string>): (r: seq<string>)
    ensures |r| == |s|
  {
    if s == [] then [] else Reversed(s[1..]) + [s[0]]
  }

  /** The history after the queries `qs` were made, in that order. */
  function PushAll(history: seq<string>, qs: seq<string>): seq<string>
    decreases |qs|
  {
    if qs == [] then history else PushAll(Push(history, qs[0]), qs[1..])
  }

  lemma TakeOfTake(a: seq<string>, b: seq<string>, m: nat, n: nat)
    requires m <= |b| && n <= |a| + m
    ensures (a + b[..m])[..n] == (a + b)[..n]
  {
    assert forall i :: 0 <= i < n ==> (a + b[..m])[i] == (a + b)[i];
  }

  /** The history always holds the (at most ten) most recent queries, newest
      first, followed by what it held before, cut to ten entries. */
  lemma {:induction false} PushAllKeepsMostRecent(history: seq<string>, qs: seq<string>)
    requires |history| <= HistoryLimit
    ensures PushAll(history, qs) == (Reversed(qs) + history)[..Min(|qs| + |history|, HistoryLimit)]
    decreases |qs|
  {
    if qs != [] {
      var h' := Push(history, qs[0]);
      assert h' == ([qs[0]] + history)[..Min(|history| + 1, HistoryLimit)];
      PushAllKeepsMostRecent(h', qs[1..]);
      var a := Reversed(qs[1..]);
      assert Reversed(qs) + history == a + ([qs[0]] + history);
      TakeOfTake(a, [qs[0]] + history, |h'|, Min(|qs[1..]| + |h'|, HistoryLimit));
    }
  }

  /** Starting from an empty history, it lists the last ten queries, newest first. */
  lemma HistoryOfSession(qs: seq<string>)
    ensures PushAll([], qs) == Reversed(qs)[..Min(|qs|, HistoryLimit)]
  {
    var empty: seq<string> := [];
    PushAllKeepsMostRecent(empty, qs);
    assert Reversed(qs) + empty == Reversed(qs);
    assert |qs| + |empty| == |qs|;
  }

  /** `queryHistory.slice(0, 5)`: the entries the sidebar lists, in history order. */
  function Window(history: seq<string>): (w: seq<string>)
    ensures |w| == Min(|history|, WindowSize)
    ensures forall i :: 0 <= i < |w| ==> w[i] == history[i]
  {
    history[..Min(|history|, WindowSize)]
  }

  /** After a query the sidebar shows it first, followed by the first four
      entries it showed before. */
  lemma WindowAfterPush(history: seq<string>, query: string)
    ensures Window(Push(history, query)) == [query] + Window(history)[..Min(|history|, WindowSize - 1)]
  {
  }

  /** The text of a sidebar button: the query, or its first 40 characters
      followed by "..." when it is longer than that. */
  function Label(query: string): (shown: string)
    ensures |shown| <= LabelWidth + |Ellipsis|
    ensures |query| <= LabelWidth ==> shown == query
    ensures |query| > LabelWidth ==> |shown| == LabelWidth + |Ellipsis| && shown[LabelWidth..] == Ellipsis
    ensures shown[..Min(|query|, LabelWidth)] == query[..Min(|query|, LabelWidth)]
  {
    if |query| > LabelWidth then query[..LabelWidth] + Ellipsis else query
  }

  /** A label is its own label. */
  lemma LabelIdempotent(query: string)
    ensures Label(Label(query)) == Label(query)
  {
  }

  /** A query is shown unshortened exactly when it has at most 40 characters,
      or when it already is 40 characters followed by "...". */
  lemma LabelFixedPoints(query: string)
    ensures Label(query) == query <==>
      |query| <= LabelWidth || (|query| == LabelWidth + |Ellipsis| && query[LabelWidth..] == Ellipsis)
  {
    if |query| > LabelWidth && Label(query) == query {
      assert query[LabelWidth..] == Label(query)[LabelWidth..];
    }
    if |query| == LabelWidth + |Ellipsis| && query[LabelWidth..] == Ellipsis {
      assert query == query[..LabelWidth] + query[LabelWidth..];
    }
  }

  /** The labels of the sidebar buttons, one per windowed entry. */
  function SidebarLabels(history: seq<string>): (labels: seq<string>)
    ensures |labels| == Min(|history|, WindowSize)
    ensures forall i :: 0 <= i < |labels| ==> labels[i] == Label(history[i]) && |labels[i]| <= LabelWidth + |Ellipsis|
  {
    var w := Window(history);
    seq(|w|, i requires 0 <= i < |w| => Label(w[i]))
  }
}
