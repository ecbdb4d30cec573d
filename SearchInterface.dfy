/** The search form (src/components/SearchInterface.tsx): the text typed so
    far, the submit guard, and when the button, the input and the
    "Searching documentation" banner are disabled or shown. */
module SearchInterface {
  import opened Wrappers
  import opened Strings

  /** The form's own state: the `query` typed into the input. */
  class SearchBox {
    var query: string

    constructor ()
      ensures query == ""
    {
      query := "";
    }

    /** `setQuery(e.target.value)`, on every change of the input. */
    method SetQuery(value: string)
      modifies this
      ensures query == value
    {
      query := value;
    }

    /** The submit button's `disabled` expression. */
    predicate SubmitDisabled(isLoading: bool): (disabled: bool)
      reads this
      ensures disabled <==> isLoading || AllSpace(query)
    {
      Trim(query) == "" || isLoading
    }

    /** `handleSubmit`: returns the text handed to `onQuery`, or nothing when
        the guard holds it back. Only the trimmed text is ever forwarded; a
        blank input or a pending query forwards nothing; and the button is
        disabled exactly when submitting would do nothing. */
    method HandleSubmit(isLoading: bool) returns (forwarded: Option<string>)
      ensures forwarded == Forwarded(query, isLoading)
      ensures forwarded.None? <==> SubmitDisabled(isLoading)
    {
      forwarded := Forwarded(query, isLoading);
    }
  }

  /** What submitting the typed text forwards while `isLoading` holds. */
  function Forwarded(typed: string, isLoading: bool): (forwarded: Option<string>)
    ensures forwarded.None? <==> isLoading || AllSpace(typed)
    ensures forwarded.Some? ==> forwarded.value == Trim(typed) && forwarded.value != "" && Trim(forwarded.value) == forwarded.value
  {
    var trimmed := Trim(typed);
    if trimmed != "" && !isLoading then
      TrimIdempotent(typed);
      Some(trimmed)
    else None
  }

  /** The input is disabled while a query is pending. */
  predicate InputDisabled(isLoading: bool) { isLoading }

  /** The "Searching documentation for" banner: shown while loading, for a
      non-empty current query. */
  predicate ShowsSearchingBanner(isLoading: bool, currentQuery: string): (shown: bool)
    ensures !isLoading ==> !shown
    ensures currentQuery == "" ==> !shown
    ensures isLoading && |currentQuery| > 0 ==> shown
  {
    isLoading && currentQuery != ""
  }
}
