/** The home screen's filter bar: when the search button is enabled, and the filter
    state it reports to the screen. */
module WelcomeBar {
  import opened Wrappers
  import opened Text
  import opened Records
  import HomeScreen

  /** The argument of `applyFilters`: each key is either present with a value or absent. */
  datatype FilterOverride = FilterOverride(query: Option<string>, roleCategory: Option<string>, clubCategory: Option<string>)

  /** `applyFilters()` called with no argument. */
  const NoOverride: FilterOverride := FilterOverride(None, None, None)

  /** `canApply`: a non-blank query or a concrete category is selected. */
  function CanApply(state: Filters): bool
  {
    |Trim(state.query)| > 0 || state.roleCategory != Wildcard || state.clubCategory != Wildcard
  }

  /** `applyFilters(next)`: keys present in `next` override the bar's state, and the
      resulting query is trimmed before it is reported. */
  function ApplyFilters(state: Filters, next: FilterOverride): (emitted: Filters)
    ensures IsTrimmed(emitted.query)
    ensures Trim(emitted.query) == emitted.query
    ensures emitted.query == Trim(next.query.GetOr(state.query))
    ensures next.roleCategory.Some? ==> emitted.roleCategory == next.roleCategory.value
    ensures next.roleCategory.None? ==> emitted.roleCategory == state.roleCategory
    ensures next.clubCategory.Some? ==> emitted.clubCategory == next.clubCategory.value
    ensures next.clubCategory.None? ==> emitted.clubCategory == state.clubCategory
  {
    var nextQuery := Trim(if next.query.Some? then next.query.value else state.query);
    var nextRole := if next.roleCategory.Some? then next.roleCategory.value else state.roleCategory;
    var nextClub := if next.clubCategory.Some? then next.clubCategory.value else state.clubCategory;
    TrimIdempotent(if next.query.Some? then next.query.value else state.query);
    Filters(nextQuery, nextRole, nextClub)
  }

  /** With no override the bar reports its own categories and its trimmed query. */
  lemma ApplyWithoutOverride(state: Filters)
    ensures ApplyFilters(state, NoOverride) == state.(query := Trim(state.query))
  {
  }

  /** The search button is enabled exactly when applying would report something other
      than the initial filter state. */
  lemma CanApplyIffNotInitial(state: Filters)
    ensures CanApply(state) <==> ApplyFilters(state, NoOverride) != InitialFilters
  {
  }

  /** When the search button is disabled, applying the bar's state shows every posting. */
  lemma DisabledApplyShowsAll(state: Filters, postings: seq<Posting>)
    requires !CanApply(state)
    ensures HomeScreen.FilteredPostings(postings, ApplyFilters(state, NoOverride)) == postings
  {
    HomeScreen.FilterIdentity(postings, ApplyFilters(state, NoOverride));
  }

  /** Reporting an already reported state again changes nothing. */
  lemma ApplyIsStable(state: Filters, next: FilterOverride)
    ensures ApplyFilters(ApplyFilters(state, next), NoOverride) == ApplyFilters(state, next)
  {
  }
}
