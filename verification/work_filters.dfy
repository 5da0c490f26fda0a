/**
 * The furnisher's available-work view (`useWorkFilters`): a search over the
 * raw work description, a bounty range, an optional "no bids yet" filter and a
 * sort, applied to the listed contracts; partial updates of the filter record
 * and a reset to the defaults.
 */
module WorkFilters {
  import opened Wrappers
  import opened Seqs
  import opened Sorting
  import opened Text
  import opened Escrow

  datatype WorkOrder = Newest | Oldest | BountyHigh | BountyLow | Deadline

  datatype WorkFilters = WorkFilters(
    searchQuery: string,
    minBounty: int,
    maxBounty: int,
    sortBy: WorkOrder,
    showOnlyNoBids: bool)

  /** `DEFAULT_MIN_BOUNTY` and `DEFAULT_MAX_BOUNTY` (1 BSV). */
  const DefaultMinBounty := 0
  const DefaultMaxBounty := 100000000

  const DefaultWorkFilters := WorkFilters("", DefaultMinBounty, DefaultMaxBounty, Newest, false)

  /** The search stage: the raw (still hex-encoded) description, lower-cased, must contain the lower-cased query. */
  function MatchesSearch(lowerQuery: string): EscrowTX -> bool {
    (c: EscrowTX) => Contains(ToLower(c.record.workDescription), lowerQuery)
  }

  function InBountyRange(minBounty: int, maxBounty: int): EscrowTX -> bool {
    (c: EscrowTX) => minBounty <= c.satoshis <= maxBounty
  }

  /** `!bids || bids.length === 0`: no slot at all, placeholders included. */
  function HasNoBids(): EscrowTX -> bool {
    (c: EscrowTX) => |c.record.bids| == 0
  }

  /** A contract passes every stage the filters switch on. */
  predicate Admitted(filters: WorkFilters, c: EscrowTX) {
    && (|filters.searchQuery| > 0 ==> Contains(ToLower(c.record.workDescription), ToLower(filters.searchQuery)))
    && filters.minBounty <= c.satoshis <= filters.maxBounty
    && (filters.showOnlyNoBids ==> |c.record.bids| == 0)
  }

  function WorkKey(order: WorkOrder, c: EscrowTX): int {
    match order
    case Newest => -c.record.workCompletionDeadline
    case Oldest => c.record.workCompletionDeadline
    case BountyHigh => -c.satoshis
    case BountyLow => c.satoshis
    case Deadline => c.record.workCompletionDeadline
  }

  function WorkKeyOf(order: WorkOrder): EscrowTX -> int {
    (c: EscrowTX) => WorkKey(order, c)
  }

  /** `a` may precede `b`: "newest" is the latest deadline first, "oldest" and "deadline" the earliest. */
  predicate WorkComesBefore(order: WorkOrder, a: EscrowTX, b: EscrowTX) {
    match order
    case Newest => a.record.workCompletionDeadline >= b.record.workCompletionDeadline
    case Oldest => a.record.workCompletionDeadline <= b.record.workCompletionDeadline
    case BountyHigh => a.satoshis >= b.satoshis
    case BountyLow => a.satoshis <= b.satoshis
    case Deadline => a.record.workCompletionDeadline <= b.record.workCompletionDeadline
  }

  /** Sorting on the key puts the contracts in the chosen order. */
  lemma KeyOrder(order: WorkOrder, a: EscrowTX, b: EscrowTX)
    requires WorkKey(order, a) <= WorkKey(order, b)
    ensures WorkComesBefore(order, a, b)
  {
  }

  /** One filter stage: keeps the contracts `p` accepts when the stage is on, and everything otherwise. */
  function Stage(xs: seq<EscrowTX>, on: bool, p: EscrowTX -> bool): (r: seq<EscrowTX>)
    ensures IsSubsequence(r, xs)
    ensures forall c :: c in r <==> c in xs && (on ==> p(c))
    ensures forall c :: multiset(r)[c] == if on ==> p(c) then multiset(xs)[c] else 0
  {
    if on then
      FilterMultiset(xs, p);
      Filter(xs, p)
    else
      SubsequenceRefl(xs);
      xs
  }

  /** The three filter stages, in the order the hook applies them. */
  function Admit(contracts: seq<EscrowTX>, filters: WorkFilters): (r: seq<EscrowTX>)
    ensures forall c :: c in r <==> c in contracts && Admitted(filters, c)
    ensures forall c :: multiset(r)[c] == if Admitted(filters, c) then multiset(contracts)[c] else 0
  {
    var searched := Stage(contracts, |filters.searchQuery| > 0, MatchesSearch(ToLower(filters.searchQuery)));
    var ranged := Stage(searched, true, InBountyRange(filters.minBounty, filters.maxBounty));
    var result := Stage(ranged, filters.showOnlyNoBids, HasNoBids());
    assert forall c :: multiset(result)[c] == if Admitted(filters, c) then multiset(contracts)[c] else 0 by {
      forall c ensures multiset(result)[c] == if Admitted(filters, c) then multiset(contracts)[c] else 0 {
        assert multiset(searched)[c] == if |filters.searchQuery| > 0 ==> MatchesSearch(ToLower(filters.searchQuery))(c)
          then multiset(contracts)[c] else 0;
        assert multiset(ranged)[c] == if InBountyRange(filters.minBounty, filters.maxBounty)(c)
          then multiset(searched)[c] else 0;
      }
    }
    result
  }

  /** `filteredContracts`: the admitted contracts, each as often as in the input, in the chosen order. */
  function FilteredWork(contracts: seq<EscrowTX>, filters: WorkFilters): (r: seq<EscrowTX>)
    ensures forall c :: c in r <==> c in contracts && Admitted(filters, c)
    ensures forall c :: multiset(r)[c] == if Admitted(filters, c) then multiset(contracts)[c] else 0
    ensures forall i, j :: 0 <= i < j < |r| ==> WorkComesBefore(filters.sortBy, r[i], r[j])
    ensures StableWrt(r, Admit(contracts, filters), WorkKeyOf(filters.sortBy))
  {
    var admitted := Admit(contracts, filters);
    var key := WorkKeyOf(filters.sortBy);
    var r := SortByKey(admitted, key);
    assert multiset(r) == multiset(admitted);
    assert forall c :: c in r <==> c in admitted by {
      forall c ensures c in r <==> c in admitted {
        assert c in r <==> c in multiset(r);
      }
    }
    assert forall i, j :: 0 <= i < j < |r| ==> WorkComesBefore(filters.sortBy, r[i], r[j]) by {
      forall i, j | 0 <= i < j < |r| ensures WorkComesBefore(filters.sortBy, r[i], r[j]) {
        assert key(r[i]) <= key(r[j]);
        KeyOrder(filters.sortBy, r[i], r[j]);
      }
    }
    r
  }

  /** Any ordered, stable rearrangement of the admitted contracts is the visible list. */
  lemma FilteredWorkIsSortedSelection(contracts: seq<EscrowTX>, filters: WorkFilters, r: seq<EscrowTX>)
    requires multiset(r) == multiset(Admit(contracts, filters))
    requires forall i, j :: 0 <= i < j < |r| ==> WorkComesBefore(filters.sortBy, r[i], r[j])
    requires StableWrt(r, Admit(contracts, filters), WorkKeyOf(filters.sortBy))
    ensures r == FilteredWork(contracts, filters)
  {
    var key := WorkKeyOf(filters.sortBy);
    assert SortedBy(r, key) by {
      forall i, j | 0 <= i < j < |r| ensures key(r[i]) <= key(r[j]) {
        assert WorkComesBefore(filters.sortBy, r[i], r[j]);
      }
    }
    SortIsUniqueStableOrder(Admit(contracts, filters), r, key);
  }

  /** An empty query filters nothing: with the default filters only the bounty range can drop a contract. */
  lemma DefaultsKeepEveryBountyInRange(contracts: seq<EscrowTX>, c: EscrowTX)
    requires c in contracts && DefaultMinBounty <= c.satoshis <= DefaultMaxBounty
    ensures c in FilteredWork(contracts, DefaultWorkFilters)
  {
  }

  /**
   * The furnisher search looks at the stored description as it is: a query
   * matching only the decoded text of a hex-encoded description is not found.
   */
  lemma SearchIsOverRawDescription(c: EscrowTX, query: string)
    requires |query| > 0
    ensures c in FilteredWork([c], DefaultWorkFilters.(searchQuery := query))
            <==> Contains(ToLower(c.record.workDescription), ToLower(query)) && 0 <= c.satoshis <= DefaultMaxBounty
  {
  }

  /** `Partial<WorkFilters>`: the fields an update supplies. */
  datatype WorkFiltersPatch = WorkFiltersPatch(
    searchQuery: Option<string>,
    minBounty: Option<int>,
    maxBounty: Option<int>,
    sortBy: Option<WorkOrder>,
    showOnlyNoBids: Option<bool>)

  const EmptyPatch := WorkFiltersPatch(None, None, None, None, None)

  /** `updateFilters`: `{ ...prev, ...newFilters }`. */
  function UpdateFilters(filters: WorkFilters, patch: WorkFiltersPatch): (r: WorkFilters)
    ensures patch.searchQuery.Some? ==> r.searchQuery == patch.searchQuery.value
    ensures patch.searchQuery.None? ==> r.searchQuery == filters.searchQuery
    ensures patch.minBounty.Some? ==> r.minBounty == patch.minBounty.value
    ensures patch.minBounty.None? ==> r.minBounty == filters.minBounty
    ensures patch.maxBounty.Some? ==> r.maxBounty == patch.maxBounty.value
    ensures patch.maxBounty.None? ==> r.maxBounty == filters.maxBounty
    ensures patch.sortBy.Some? ==> r.sortBy == patch.sortBy.value
    ensures patch.sortBy.None? ==> r.sortBy == filters.sortBy
    ensures patch.showOnlyNoBids.Some? ==> r.showOnlyNoBids == patch.showOnlyNoBids.value
    ensures patch.showOnlyNoBids.None? ==> r.showOnlyNoBids == filters.showOnlyNoBids
  {
    WorkFilters(
      patch.searchQuery.GetOr(filters.searchQuery),
      patch.minBounty.GetOr(filters.minBounty),
      patch.maxBounty.GetOr(filters.maxBounty),
      patch.sortBy.GetOr(filters.sortBy),
      patch.showOnlyNoBids.GetOr(filters.showOnlyNoBids))
  }

  /** An empty update changes nothing, and applying the same update twice is applying it once. */
  lemma UpdateFiltersIdempotent(filters: WorkFilters, patch: WorkFiltersPatch)
    ensures UpdateFilters(filters, EmptyPatch) == filters
    ensures UpdateFilters(UpdateFilters(filters, patch), patch) == UpdateFilters(filters, patch)
  {
  }

  /** `resetFilters`: whatever the current filters, the defaults come back. */
  function ResetWorkFilters(): (r: WorkFilters)
    ensures r.searchQuery == "" && r.minBounty == 0 && r.maxBounty == 100000000
    ensures r.sortBy == Newest && !r.showOnlyNoBids
  {
    DefaultWorkFilters
  }
}
