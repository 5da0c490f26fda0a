/**
 * The seeker's contract list view (`useContractFilters`): a filter record,
 * the pipeline status filter → search → sort that derives the visible list
 * from it, single-field updates, reset to the defaults, and the "filters are
 * active" indicator. React's `useState`/`useMemo` become a plain record and a
 * pure function of it.
 */
module ContractFilters {
  import opened Seqs
  import opened Sorting
  import opened Text
  import opened Escrow
  import opened ContractHelpers

  datatype Filters = Filters(status: StatusFilter, searchQuery: string, sortBy: ContractOrder)

  /** `DEFAULT_FILTERS`: every status, no query, newest first. */
  const DefaultFilters := Filters(AllStatuses, "", NewestFirst)

  /** A contract survives the status and search stages of the pipeline. */
  ghost predicate Selected(filters: Filters, c: EscrowTX) {
    && (filters.status.OnlyStatus? ==> c.record.status == filters.status.status)
    && (!AllWhitespace(filters.searchQuery) ==> SearchHit(c, ToLower(filters.searchQuery)))
  }

  /**
   * `filteredContracts`: exactly the selected contracts, each as often as in
   * the input, in the chosen order, equal keys in input order.
   */
  function FilteredContracts(contracts: seq<EscrowTX>, filters: Filters): (r: seq<EscrowTX>)
    ensures forall c :: c in r <==> c in contracts && Selected(filters, c)
    ensures forall c :: multiset(r)[c] == if Selected(filters, c) then multiset(contracts)[c] else 0
    ensures forall i, j :: 0 <= i < j < |r| ==> ContractComesBefore(filters.sortBy, r[i], r[j])
  {
    var selection := Selection(contracts, filters);
    var r := SortContracts(selection, filters.sortBy);
    assert multiset(r) == multiset(selection);
    assert forall c :: c in r <==> c in multiset(selection);
    r
  }

  /** The status and search stages: an order-preserving selection of the selected contracts. */
  function Selection(contracts: seq<EscrowTX>, filters: Filters): (r: seq<EscrowTX>)
    ensures forall c :: c in r <==> c in contracts && Selected(filters, c)
    ensures forall c :: multiset(r)[c] == if Selected(filters, c) then multiset(contracts)[c] else 0
  {
    var byStatus := FilterByStatus(contracts, filters.status);
    var bySearch := FilterBySearch(byStatus, filters.searchQuery);
    assert forall c :: multiset(bySearch)[c] == if Selected(filters, c) then multiset(contracts)[c] else 0 by {
      forall c ensures multiset(bySearch)[c] == if Selected(filters, c) then multiset(contracts)[c] else 0 {
        assert multiset(byStatus)[c] == if filters.status.AllStatuses? || c.record.status == filters.status.status
          then multiset(contracts)[c] else 0;
      }
    }
    bySearch
  }

  /**
   * The pipeline is the stable sort of the selection: any ordered, stable
   * rearrangement of the status-and-search selection is the visible list.
   */
  lemma FilteredContractsIsSortedSelection(contracts: seq<EscrowTX>, filters: Filters, r: seq<EscrowTX>)
    requires var selection := Selection(contracts, filters);
             && multiset(r) == multiset(selection)
             && (forall i, j :: 0 <= i < j < |r| ==> ContractComesBefore(filters.sortBy, r[i], r[j]))
             && StableWrt(r, selection, ContractKeyOf(filters.sortBy))
    ensures r == FilteredContracts(contracts, filters)
  {
    SortContractsUnique(Selection(contracts, filters), filters.sortBy, r);
  }

  /** With every status and a blank query the list is a reordering of the whole input. */
  lemma NoSelectionKeepsEverything(contracts: seq<EscrowTX>, filters: Filters)
    requires filters.status.AllStatuses? && AllWhitespace(filters.searchQuery)
    ensures multiset(FilteredContracts(contracts, filters)) == multiset(contracts)
  {
  }

  /** One field of the filter record, with its new value (`updateFilter(key, value)`). */
  datatype FilterUpdate = SetStatus(status: StatusFilter) | SetSearchQuery(query: string) | SetSortBy(order: ContractOrder)

  /** `updateFilter`: the named field takes the new value and the other two are kept. */
  function UpdateFilter(filters: Filters, update: FilterUpdate): (r: Filters)
    ensures r.status == (if update.SetStatus? then update.status else filters.status)
    ensures r.searchQuery == (if update.SetSearchQuery? then update.query else filters.searchQuery)
    ensures r.sortBy == (if update.SetSortBy? then update.order else filters.sortBy)
  {
    match update
    case SetStatus(s) => filters.(status := s)
    case SetSearchQuery(q) => filters.(searchQuery := q)
    case SetSortBy(o) => filters.(sortBy := o)
  }

  /** Updating the same field twice keeps only the second value; updates to different fields commute. */
  lemma UpdateFilterLastWins(filters: Filters, u: FilterUpdate, v: FilterUpdate)
    ensures u.SetStatus? == v.SetStatus? && u.SetSearchQuery? == v.SetSearchQuery?
            ==> UpdateFilter(UpdateFilter(filters, u), v) == UpdateFilter(filters, v)
    ensures u.SetStatus? != v.SetStatus? || u.SetSearchQuery? != v.SetSearchQuery?
            ==> UpdateFilter(UpdateFilter(filters, u), v) == UpdateFilter(UpdateFilter(filters, v), u)
  {
  }

  /** `resetFilters`. */
  function ResetFilters(): (r: Filters)
    ensures !HasActiveFilters(r)
  {
    DefaultFilters
  }

  /** `hasActiveFilters`: some field differs from its default. */
  predicate HasActiveFilters(filters: Filters)
    ensures !HasActiveFilters(filters) <==> filters == DefaultFilters
  {
    filters.status != AllStatuses || filters.searchQuery != "" || filters.sortBy != NewestFirst
  }

  /**
   * The indicator is off exactly at the defaults, and then the list is the
   * whole input, newest first.
   */
  lemma InactiveFiltersAreDefaults(contracts: seq<EscrowTX>, filters: Filters)
    ensures !HasActiveFilters(filters) <==> filters == DefaultFilters
    ensures !HasActiveFilters(filters) ==> FilteredContracts(contracts, filters) == SortContracts(contracts, NewestFirst)
  {
  }

  /**
   * A query made only of whitespace turns the indicator on without removing
   * any contract: the search stage ignores it but the indicator compares with
   * the empty string.
   */
  lemma BlankQueryIsActiveButKeepsAll(contracts: seq<EscrowTX>)
    ensures HasActiveFilters(DefaultFilters.(searchQuery := " "))
    ensures FilteredContracts(contracts, DefaultFilters.(searchQuery := " ")) == FilteredContracts(contracts, DefaultFilters)
  {
    assert AllWhitespace(" ") by { assert IsWhitespace(" "[0]); }
  }
}
