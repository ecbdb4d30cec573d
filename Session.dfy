/** The query page's state (src/App.tsx): the current query, the pending flag,
    the last result and the recent-queries history, the `handleQuery`
    transition that updates them, and which panels the page shows. The
    simulated 1.5 s delay between the two halves of `handleQuery` is not
    modelled: its halves are two methods, called one after the other. */
module Session {
  import opened Wrappers
  import opened Strings
  import opened Types
  import opened MockResponse
  import opened History
  import opened QueryResults
  import opened SearchInterface

  /** The main column below the search form: the results panel (which itself
      shows nothing while loading), the example queries, or neither. */
  datatype MainPanel = ResultsPanel(view: Option<ResultsView>) | ExamplesPanel | NoPanel

  class App {
    var currentQuery: string
    var queryResult: Option<QueryResult>
    var isLoading: bool
    var queryHistory: seq<string>

    /** The history is bounded and starts with the current query; a result is
        always the canned answer to the query it echoes; once nothing is
        pending, the result answers the current query. */
    ghost predicate Valid()
      reads this
    {
      && |queryHistory| <= HistoryLimit
      && (queryResult.Some? ==> queryResult.value == GenerateMockResponse(queryResult.value.query))
      && (|queryHistory| > 0 ==> queryHistory[0] == currentQuery)
      && (isLoading ==> |queryHistory| > 0)
      && (queryResult.Some? ==> |queryHistory| > 0)
      && (!isLoading && |queryHistory| > 0 ==> queryResult.Some? && queryResult.value.query == currentQuery)
    }

    /** The initial `useState` values. */
    constructor ()
      ensures Valid()
      ensures currentQuery == "" && queryResult.None? && !isLoading && queryHistory == []
    {
      currentQuery := "";
      queryResult := None;
      isLoading := false;
      queryHistory := [];
    }

    /** The main column: results when there is a result, the example queries
        when there is no result and nothing is pending. */
    function Panel(): (p: MainPanel)
      reads this
      ensures p == ExamplesPanel <==> queryResult.None? && !isLoading
      ensures p.ResultsPanel? <==> queryResult.Some?
      ensures p.ResultsPanel? ==> (p.view.None? <==> isLoading)
    {
      if queryResult.Some? then ResultsPanel(Render(queryResult.value, isLoading))
      else if !isLoading then ExamplesPanel
      else NoPanel
    }

    /** The "Recent Queries" sidebar: absent for an empty history, otherwise
        the labels of the first five entries. */
    function Sidebar(): (labels: Option<seq<string>>)
      reads this
      ensures labels.Some? <==> |queryHistory| > 0
      ensures labels.Some? ==> labels.value == SidebarLabels(queryHistory) && |labels.value| <= WindowSize
    {
      if |queryHistory| > 0 then Some(SidebarLabels(queryHistory)) else None
    }

    /** The first half of `handleQuery` (lines 18-22): mark the query pending,
        make it current and put it in front of the history. */
    method BeginQuery(query: string)
      requires Valid()
      modifies this
      ensures Valid()
      ensures isLoading && currentQuery == query
      ensures queryHistory == Push(old(queryHistory), query)
      ensures queryResult == old(queryResult)
      ensures Panel() != ExamplesPanel && (Panel().ResultsPanel? ==> Panel().view.None?)
      ensures ShowsSearchingBanner(isLoading, currentQuery) <==> query != ""
      ensures InputDisabled(isLoading)
    {
      isLoading := true;
      currentQuery := query;
      queryHistory := Push(queryHistory, query);
    }

    /** The second half of `handleQuery` (lines 28-30): store the canned result
        and clear the pending flag. */
    method CompleteQuery(query: string)
      requires Valid() && isLoading && currentQuery == query
      modifies this
      ensures Valid()
      ensures !isLoading && queryResult == Some(GenerateMockResponse(query))
      ensures currentQuery == old(currentQuery) && queryHistory == old(queryHistory)
      ensures Panel() == ResultsPanel(Render(GenerateMockResponse(query), false))
      ensures !ShowsSearchingBanner(isLoading, currentQuery)
      ensures !InputDisabled(isLoading)
    {
      var mockResult := GenerateMockResponse(query);
      queryResult := Some(mockResult);
      isLoading := false;
    }

    /** `handleQuery(query)`, run to completion. */
    method HandleQuery(query: string)
      requires Valid()
      modifies this
      ensures Valid()
      ensures !isLoading && currentQuery == query
      ensures queryResult == Some(GenerateMockResponse(query))
      ensures queryHistory == Push(old(queryHistory), query)
    {
      BeginQuery(query);
      CompleteQuery(query);
    }

    /** Submitting the search form, whose `onQuery` is `handleQuery` and whose
        `isLoading` is the page's: a blank input or a pending query changes
        nothing, otherwise the trimmed input is queried. */
    method Submit(box: SearchBox)
      requires Valid()
      modifies this
      ensures Valid()
      ensures var f := Forwarded(old(box.query), old(isLoading));
        && (f.None? ==> unchanged(this))
        && (f.Some? ==>
              && currentQuery == f.value && !isLoading
              && queryResult == Some(GenerateMockResponse(f.value))
              && queryHistory == Push(old(queryHistory), f.value))
    {
      var typed := box.query;
      var forwarded := box.HandleSubmit(isLoading);
      assert forwarded == Forwarded(typed, old(isLoading));
      if forwarded.Some? {
        HandleQuery(forwarded.value);
      }
    }

    /** Clicking the i-th "Recent Queries" button re-runs that query, which
        enters the history again (it is not de-duplicated). */
    method SelectRecent(i: nat)
      requires Valid() && i < |Window(queryHistory)|
      modifies this
      ensures Valid()
      ensures !isLoading && currentQuery == old(queryHistory)[i]
      ensures queryHistory == Push(old(queryHistory), old(queryHistory)[i])
      ensures queryResult == Some(GenerateMockResponse(old(queryHistory)[i]))
    {
      HandleQuery(queryHistory[i]);
    }
  }

  /** What the results panel shows for a canned result: the query as typed,
      the sources, a green badge with a check icon for the three keyword
      answers and a yellow one for the default answer. */
  lemma MockResultDisplay(query: string)
    ensures var v := Render(GenerateMockResponse(query), false);
      && v.Some? && v.value.query == query && v.value.showSources
      && (v.value.band == Green <==> IntentOf(query) != General)
      && (v.value.checkIcon <==> IntentOf(query) != General)
      && (IntentOf(query) == General ==> v.value.band == Yellow)
  {
  }

  /** After a completed query the sidebar's first button is labelled with
      that query. */
  lemma SidebarLeadsWithLastQuery(history: seq<string>, query: string)
    ensures SidebarLabels(Push(history, query))[0] == Label(query)
  {
  }
}
