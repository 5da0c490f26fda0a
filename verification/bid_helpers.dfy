/**
 * The seeker's view of the bids on a contract. The on-chain bid list is a
 * fixed-size array whose unused slots hold placeholder bids; every helper
 * first keeps the real ones.
 */
module BidHelpers {
  import opened Wrappers
  import opened Seqs
  import opened Sorting
  import opened Numerals
  import opened Escrow
  import Formatting

  /** A bid that occupies its slot: positive amount and positive time. */
  predicate IsRealBid(b: Bid) {
    b.bidAmount > 0 && b.timeOfBid > 0
  }

  /** The real bids, in their original order. */
  function RealBids(bids: seq<Bid>): (r: seq<Bid>)
    ensures IsSubsequence(r, bids)
    ensures forall b :: b in r <==> b in bids && IsRealBid(b)
    ensures forall b :: multiset(r)[b] == if IsRealBid(b) then multiset(bids)[b] else 0
  {
    FilterMultiset(bids, IsRealBid);
    Filter(bids, IsRealBid)
  }

  /** `getRealBidsCount`. */
  function RealBidsCount(contract: EscrowTX): (n: nat)
    ensures n <= |contract.record.bids|
    ensures n == 0 <==> forall b :: b in contract.record.bids ==> !IsRealBid(b)
  {
    NoneRealIffEmpty(contract.record.bids);
    |RealBids(contract.record.bids)|
  }

  lemma NoneRealIffEmpty(bids: seq<Bid>)
    ensures |RealBids(bids)| == 0 <==> forall b :: b in bids ==> !IsRealBid(b)
  {
    var r := RealBids(bids);
    if |r| > 0 {
      assert r[0] in r;
    }
  }

  /** A bid together with the metadata `enrichBidsWithMetadata` attaches. */
  datatype AnnotatedBid = AnnotatedBid(bid: Bid, index: nat, isAccepted: bool, isLatest: bool)

  /** The accepted bid is identified by its furnisher and its plans. */
  predicate MatchesAccepted(accepted: Option<Bid>, b: Bid) {
    accepted.Some? && accepted.value.furnisherKey == b.furnisherKey && accepted.value.plans == b.plans
  }

  function Annotate(realBids: seq<Bid>, accepted: Option<Bid>, i: nat): (a: AnnotatedBid)
    requires i < |realBids|
    ensures a.bid == realBids[i] && a.index == i
    ensures a.isLatest <==> i == |realBids| - 1
    ensures a.isAccepted <==> MatchesAccepted(accepted, a.bid)
  {
    AnnotatedBid(realBids[i], i, MatchesAccepted(accepted, realBids[i]), i == |realBids| - 1)
  }

  /** The bids carried by annotated bids, in order. */
  function BidsOf(xs: seq<AnnotatedBid>): (r: seq<Bid>)
    ensures |r| == |xs| && forall i :: 0 <= i < |xs| ==> r[i] == xs[i].bid
  {
    seq(|xs|, i requires 0 <= i < |xs| => xs[i].bid)
  }

  /** `enrichBidsWithMetadata`. */
  function EnrichBids(contract: EscrowTX): (r: seq<AnnotatedBid>)
    ensures BidsOf(r) == RealBids(contract.record.bids)
    ensures forall i :: 0 <= i < |r| ==> r[i].index == i
    ensures forall i :: 0 <= i < |r| ==> (r[i].isLatest <==> i == |r| - 1)
    ensures forall i :: 0 <= i < |r| ==> (r[i].isAccepted <==> MatchesAccepted(contract.record.acceptedBid, r[i].bid))
  {
    var realBids := RealBids(contract.record.bids);
    var r := seq(|realBids|, i requires 0 <= i < |realBids| => Annotate(realBids, contract.record.acceptedBid, i));
    assert |r| == |realBids|;
    assert forall i :: 0 <= i < |r| ==> r[i] == Annotate(realBids, contract.record.acceptedBid, i);
    assert BidsOf(r) == realBids;
    r
  }

  /** The enriched bids are real bids of the contract, in their original order, and at most one is marked latest. */
  lemma EnrichedBidsComeFromContract(contract: EscrowTX)
    ensures IsSubsequence(BidsOf(EnrichBids(contract)), contract.record.bids)
    ensures forall i :: 0 <= i < |EnrichBids(contract)| ==> IsRealBid(EnrichBids(contract)[i].bid)
    ensures forall i, j ::
      (0 <= i < |EnrichBids(contract)| && 0 <= j < |EnrichBids(contract)|
       && EnrichBids(contract)[i].isLatest && EnrichBids(contract)[j].isLatest) ==> i == j
  {
    var r := EnrichBids(contract);
    forall i | 0 <= i < |r| ensures IsRealBid(r[i].bid) {
      assert r[i].bid == BidsOf(r)[i];
      assert BidsOf(r)[i] in RealBids(contract.record.bids);
    }
  }

  /** The first annotated bid marked accepted. */
  function FirstAccepted(xs: seq<AnnotatedBid>): (r: Option<AnnotatedBid>)
    ensures r.None? <==> forall i :: 0 <= i < |xs| ==> !xs[i].isAccepted
    ensures r.Some? ==> exists i ::
      && 0 <= i < |xs| && xs[i] == r.value && r.value.isAccepted
      && (forall j :: 0 <= j < i ==> !xs[j].isAccepted)
    decreases |xs|
  {
    if |xs| == 0 then None
    else if xs[0].isAccepted then Some(xs[0])
    else
      var r := FirstAccepted(xs[1..]);
      assert forall i :: 1 <= i < |xs| ==> xs[i] == xs[1..][i - 1];
      r
  }

  /** `getAcceptedBid`: the first real bid matching the accepted bid, or null. */
  function GetAcceptedBid(contract: EscrowTX): (r: Option<AnnotatedBid>)
    ensures r.None? <==> forall b :: b in RealBids(contract.record.bids) ==> !MatchesAccepted(contract.record.acceptedBid, b)
    ensures r.Some? ==> r.value in EnrichBids(contract) && MatchesAccepted(contract.record.acceptedBid, r.value.bid)
    ensures r.Some? ==> exists i ::
      && 0 <= i < |EnrichBids(contract)| && EnrichBids(contract)[i] == r.value
      && forall j :: 0 <= j < i ==> !MatchesAccepted(contract.record.acceptedBid, EnrichBids(contract)[j].bid)
  {
    var r := FirstAccepted(EnrichBids(contract));
    FirstAcceptedOfEnriched(contract);
    r
  }

  lemma FirstAcceptedOfEnriched(contract: EscrowTX)
    ensures FirstAccepted(EnrichBids(contract)).None? <==>
      forall b :: b in RealBids(contract.record.bids) ==> !MatchesAccepted(contract.record.acceptedBid, b)
    ensures FirstAccepted(EnrichBids(contract)).Some? ==>
      MatchesAccepted(contract.record.acceptedBid, FirstAccepted(EnrichBids(contract)).value.bid)
    ensures FirstAccepted(EnrichBids(contract)).Some? ==> exists i ::
      && 0 <= i < |EnrichBids(contract)| && EnrichBids(contract)[i] == FirstAccepted(EnrichBids(contract)).value
      && forall j :: 0 <= j < i ==> !MatchesAccepted(contract.record.acceptedBid, EnrichBids(contract)[j].bid)
  {
    var enriched := EnrichBids(contract);
    var r := FirstAccepted(enriched);
    var realBids := RealBids(contract.record.bids);
    if r.None? {
      forall b | b in realBids ensures !MatchesAccepted(contract.record.acceptedBid, b) {
        var i :| 0 <= i < |realBids| && realBids[i] == b;
        assert enriched[i].bid == BidsOf(enriched)[i] == b;
      }
    } else {
      var i :| 0 <= i < |enriched| && enriched[i] == r.value && r.value.isAccepted;
      assert BidsOf(enriched)[i] in realBids;
    }
  }

  /** Without an accepted bid, no bid is ever reported as accepted. */
  lemma NoAcceptedBidWithoutAcceptance(contract: EscrowTX)
    requires contract.record.acceptedBid.None?
    ensures GetAcceptedBid(contract).None?
  {
  }

  // ---------------------------------------------------------------- sorting

  /** The orders the bid list can be shown in. */
  datatype BidOrder = Newest | Oldest | AmountLow | AmountHigh | TimeRequired

  /** The comparator of each order as a key: `(a, b) => key(a) - key(b)`; the descending orders negate their field. */
  function BidKey(order: BidOrder, b: AnnotatedBid): int {
    match order
    case Newest => -b.bid.timeOfBid
    case Oldest => b.bid.timeOfBid
    case AmountLow => b.bid.bidAmount
    case AmountHigh => -b.bid.bidAmount
    case TimeRequired => b.bid.timeRequired
  }

  function BidKeyOf(order: BidOrder): AnnotatedBid -> int {
    (b: AnnotatedBid) => BidKey(order, b)
  }

  /** `a` may precede `b` in the chosen order. */
  predicate ComesBefore(order: BidOrder, a: AnnotatedBid, b: AnnotatedBid) {
    match order
    case Newest => a.bid.timeOfBid >= b.bid.timeOfBid
    case Oldest => a.bid.timeOfBid <= b.bid.timeOfBid
    case AmountLow => a.bid.bidAmount <= b.bid.bidAmount
    case AmountHigh => a.bid.bidAmount >= b.bid.bidAmount
    case TimeRequired => a.bid.timeRequired <= b.bid.timeRequired
  }

  /** `sortBids`: a sorted copy; bids comparing equal keep their relative order. */
  function SortBids(bids: seq<AnnotatedBid>, order: BidOrder): (r: seq<AnnotatedBid>)
    ensures multiset(r) == multiset(bids)
    ensures forall i, j :: 0 <= i < j < |r| ==> ComesBefore(order, r[i], r[j])
    ensures StableWrt(r, bids, BidKeyOf(order))
  {
    var r := SortByKey(bids, BidKeyOf(order));
    assert forall i, j :: 0 <= i < j < |r| ==> BidKeyOf(order)(r[i]) <= BidKeyOf(order)(r[j]);
    r
  }

  /** Sorting is determined by the order: any ordered, stable rearrangement is the sorted one, and sorting twice changes nothing. */
  lemma SortBidsUnique(bids: seq<AnnotatedBid>, order: BidOrder, r: seq<AnnotatedBid>)
    requires multiset(r) == multiset(bids)
    requires forall i, j :: 0 <= i < j < |r| ==> ComesBefore(order, r[i], r[j])
    requires StableWrt(r, bids, BidKeyOf(order))
    ensures r == SortBids(bids, order)
  {
    SortIsUniqueStableOrder(bids, r, BidKeyOf(order));
  }

  lemma SortBidsIdempotent(bids: seq<AnnotatedBid>, order: BidOrder)
    ensures SortBids(SortBids(bids, order), order) == SortBids(bids, order)
  {
    SortIdempotent(bids, BidKeyOf(order));
  }

  // ---------------------------------------------------------------- statistics

  /** Position `i` holds the lowest amount of `xs`, and no earlier bid has that amount. */
  predicate IsEarliestLowest(xs: seq<Bid>, i: nat) {
    && i < |xs|
    && (forall j :: 0 <= j < |xs| ==> xs[i].bidAmount <= xs[j].bidAmount)
    && (forall j :: 0 <= j < i ==> xs[j].bidAmount > xs[i].bidAmount)
  }

  /** Position `i` holds the highest amount of `xs`, and no earlier bid has that amount. */
  predicate IsEarliestHighest(xs: seq<Bid>, i: nat) {
    && i < |xs|
    && (forall j :: 0 <= j < |xs| ==> xs[i].bidAmount >= xs[j].bidAmount)
    && (forall j :: 0 <= j < i ==> xs[j].bidAmount < xs[i].bidAmount)
  }

  /**
   * `reduce((lowest, bid) => bid.bidAmount < lowest.bidAmount ? bid : lowest)`
   * from position `k`, with the accumulator held as the index `best`.
   */
  function ReduceLowest(xs: seq<Bid>, k: nat, best: nat): (i: nat)
    requires best < k <= |xs| && IsEarliestLowest(xs[..k], best)
    ensures IsEarliestLowest(xs, i)
    decreases |xs| - k
  {
    if k == |xs| then
      assert xs[..k] == xs;
      best
    else
      var next := if xs[k].bidAmount < xs[best].bidAmount then k else best;
      assert IsEarliestLowest(xs[..k + 1], next) by {
        assert forall j :: 0 <= j < k ==> xs[..k + 1][j] == xs[..k][j];
      }
      ReduceLowest(xs, k + 1, next)
  }

  /** The same fold with `>`: the highest amount, earliest on ties. */
  function ReduceHighest(xs: seq<Bid>, k: nat, best: nat): (i: nat)
    requires best < k <= |xs| && IsEarliestHighest(xs[..k], best)
    ensures IsEarliestHighest(xs, i)
    decreases |xs| - k
  {
    if k == |xs| then
      assert xs[..k] == xs;
      best
    else
      var next := if xs[k].bidAmount > xs[best].bidAmount then k else best;
      assert IsEarliestHighest(xs[..k + 1], next) by {
        assert forall j :: 0 <= j < k ==> xs[..k + 1][j] == xs[..k][j];
      }
      ReduceHighest(xs, k + 1, next)
  }

  /** `getLowestBid`: null without real bids, else the earliest real bid of least amount. */
  function GetLowestBid(bids: seq<Bid>): (r: Option<Bid>)
    ensures r.None? <==> |RealBids(bids)| == 0
    ensures r.Some? ==> r.value in RealBids(bids)
    ensures r.Some? ==> exists i: nat :: IsEarliestLowest(RealBids(bids), i) && RealBids(bids)[i] == r.value
  {
    var realBids := RealBids(bids);
    if |realBids| == 0 then None
    else Some(realBids[ReduceLowest(realBids, 1, 0)])
  }

  /** `getHighestBid`: null without real bids, else the earliest real bid of greatest amount. */
  function GetHighestBid(bids: seq<Bid>): (r: Option<Bid>)
    ensures r.None? <==> |RealBids(bids)| == 0
    ensures r.Some? ==> r.value in RealBids(bids)
    ensures r.Some? ==> exists i: nat :: IsEarliestHighest(RealBids(bids), i) && RealBids(bids)[i] == r.value
  {
    var realBids := RealBids(bids);
    if |realBids| == 0 then None
    else Some(realBids[ReduceHighest(realBids, 1, 0)])
  }

  /** There is exactly one earliest lowest position, so the answer does not depend on how it is found. */
  lemma EarliestLowestUnique(xs: seq<Bid>, i: nat, j: nat)
    requires IsEarliestLowest(xs, i) && IsEarliestLowest(xs, j)
    ensures i == j
  {
    assert xs[i].bidAmount == xs[j].bidAmount;
  }

  function Amount(b: Bid): int {
    b.bidAmount
  }

  /** `getAverageBidAmount`: the floor of the mean real amount, 0 without real bids. */
  function AverageBidAmount(bids: seq<Bid>): (avg: int)
    ensures |RealBids(bids)| == 0 ==> avg == 0
    ensures |RealBids(bids)| > 0 ==>
      avg * |RealBids(bids)| <= SumOver(RealBids(bids), Amount) < (avg + 1) * |RealBids(bids)|
  {
    var realBids := RealBids(bids);
    if |realBids| == 0 then 0
    else
      FloorDivBounds(SumOver(realBids, Amount), |realBids|);
      SumOver(realBids, Amount) / |realBids|
  }

  /** Every term between `lo` and `hi` bounds the sum between `n * lo` and `n * hi`. */
  lemma {:induction false} SumBetween(xs: seq<Bid>, lo: int, hi: int)
    requires forall i :: 0 <= i < |xs| ==> lo <= xs[i].bidAmount <= hi
    ensures |xs| * lo <= SumOver(xs, Amount) <= |xs| * hi
    decreases |xs|
  {
    if |xs| > 0 {
      var n, tail := |xs|, xs[1..];
      assert forall i :: 0 <= i < |tail| ==> tail[i] == xs[i + 1];
      SumBetween(tail, lo, hi);
      assert SumOver(xs, Amount) == xs[0].bidAmount + SumOver(tail, Amount);
      MulSucc(n - 1, lo);
      MulSucc(n - 1, hi);
    }
  }

  /** With real bids present, the average lies between the lowest and the highest amount. */
  lemma AverageBetweenExtremes(bids: seq<Bid>)
    requires |RealBids(bids)| > 0
    ensures GetLowestBid(bids).value.bidAmount <= AverageBidAmount(bids) <= GetHighestBid(bids).value.bidAmount
  {
    var realBids := RealBids(bids);
    var lo := GetLowestBid(bids).value.bidAmount;
    var hi := GetHighestBid(bids).value.bidAmount;
    SumBetween(realBids, lo, hi);
    FloorDivBetween(SumOver(realBids, Amount), |realBids|, lo, hi);
  }

  /** The statistics panel; `lowest` and `highest` are null when absent. */
  datatype BidStatistics = BidStatistics(count: nat, lowest: Option<int>, highest: Option<int>, average: int)

  /** `x || null` on an optional amount: a missing or zero amount becomes null. */
  function OrNull(x: Option<int>): (r: Option<int>)
    ensures r.Some? <==> x.Some? && x.value != 0
    ensures r.Some? ==> r.value == x.value
  {
    if x.Some? && x.value != 0 then x else None
  }

  function AmountOf(b: Option<Bid>): Option<int> {
    if b.Some? then Some(b.value.bidAmount) else None
  }

  /** `getBidStatistics`. */
  function GetBidStatistics(bids: seq<Bid>): (r: BidStatistics)
    ensures |RealBids(bids)| == 0 ==> r == BidStatistics(0, None, None, 0)
    ensures |RealBids(bids)| > 0 ==>
      && r.count == |RealBids(bids)|
      && r.lowest == Some(GetLowestBid(bids).value.bidAmount)
      && r.highest == Some(GetHighestBid(bids).value.bidAmount)
      && r.average == AverageBidAmount(bids)
  {
    var realBids := RealBids(bids);
    if |realBids| == 0 then BidStatistics(0, None, None, 0)
    else
      LowestHighestAreReal(bids);
      BidStatistics(|realBids|, OrNull(AmountOf(GetLowestBid(bids))), OrNull(AmountOf(GetHighestBid(bids))), AverageBidAmount(bids))
  }

  lemma LowestHighestAreReal(bids: seq<Bid>)
    requires |RealBids(bids)| > 0
    ensures IsRealBid(GetLowestBid(bids).value) && IsRealBid(GetHighestBid(bids).value)
  {
    assert GetLowestBid(bids).value in RealBids(bids);
    assert GetHighestBid(bids).value in RealBids(bids);
  }

  /** The statistics of a contract count exactly the bids `getRealBidsCount` counts, and order the extremes around the average. */
  lemma StatisticsConsistent(contract: EscrowTX)
    ensures GetBidStatistics(contract.record.bids).count == RealBidsCount(contract)
    ensures RealBidsCount(contract) > 0 ==>
      var s := GetBidStatistics(contract.record.bids);
      s.lowest.value <= s.average <= s.highest.value
  {
    if RealBidsCount(contract) > 0 {
      AverageBetweenExtremes(contract.record.bids);
    }
  }

  // ---------------------------------------------------------------- validation

  /** `meetsMinimumBid`. */
  predicate MeetsMinimumBid(bid: Bid, minBid: int) {
    bid.bidAmount >= minBid
  }

  /** `hasRequiredBond`. */
  predicate HasRequiredBond(bid: Bid, requiredBond: int) {
    bid.bond >= requiredBond
  }

  datatype BidValidation = BidValidation(valid: bool, errors: seq<string>)

  function MinBidError(record: EscrowRecord): string {
    "Bid amount must be at least " + IntToDecimal(record.minAllowableBid) + " satoshis"
  }

  function BondError(record: EscrowRecord): string {
    "Bond amount must be at least " + IntToDecimal(record.requiredBondAmount) + " satoshis"
  }

  const BondNotAllowed := "Bond is not allowed for this contract"

  /** The bond complaint, if any, for the contract's bonding mode. */
  predicate BondRejected(bid: Bid, record: EscrowRecord) {
    || (record.furnisherBondingMode == BondRequired && !HasRequiredBond(bid, record.requiredBondAmount))
    || (record.furnisherBondingMode == BondForbidden && bid.bond > 0)
  }

  /** `validateBid`: the minimum-bid complaint first, then at most one bond complaint. */
  function ValidateBid(bid: Bid, contract: EscrowTX): (r: BidValidation)
    ensures r.valid <==> |r.errors| == 0
    ensures r.valid <==> MeetsMinimumBid(bid, contract.record.minAllowableBid) && !BondRejected(bid, contract.record)
    ensures |r.errors| <= 2
    ensures MinBidError(contract.record) in r.errors <==> bid.bidAmount < contract.record.minAllowableBid
    ensures !MeetsMinimumBid(bid, contract.record.minAllowableBid) ==> r.errors[0] == MinBidError(contract.record)
    ensures contract.record.furnisherBondingMode == BondRequired ==>
      (BondError(contract.record) in r.errors <==> bid.bond < contract.record.requiredBondAmount) && BondNotAllowed !in r.errors
    ensures contract.record.furnisherBondingMode == BondForbidden ==>
      (BondNotAllowed in r.errors <==> bid.bond > 0) && BondError(contract.record) !in r.errors
    ensures contract.record.furnisherBondingMode == BondOptional ==>
      BondNotAllowed !in r.errors && BondError(contract.record) !in r.errors
  {
    var record := contract.record;
    BidMessagesDiffer(record);
    var minErrors := if !MeetsMinimumBid(bid, record.minAllowableBid) then [MinBidError(record)] else [];
    var bondErrors :=
      if record.furnisherBondingMode == BondRequired then
        (if !HasRequiredBond(bid, record.requiredBondAmount) then [BondError(record)] else [])
      else if record.furnisherBondingMode == BondForbidden && bid.bond > 0 then [BondNotAllowed]
      else [];
    var errors := minErrors + bondErrors;
    BidValidation(|errors| == 0, errors)
  }

  lemma BidMessagesDiffer(record: EscrowRecord)
    ensures MinBidError(record) != BondError(record) && MinBidError(record) != BondNotAllowed
    ensures BondError(record) != BondNotAllowed
  {
    assert MinBidError(record)[1] == "Bid amount must be at least "[1] == 'i';
    assert BondError(record)[1] == "Bond amount must be at least "[1] == 'o';
    assert BondError(record)[5] == "Bond amount must be at least "[5] == 'a';
    assert BondNotAllowed[5] == 'i';
  }

  /** `calculateTotalCost`: what the furnisher locks, the amount plus the bond. */
  function CalculateTotalCost(bid: Bid): int {
    bid.bidAmount + bid.bond
  }

  /**
   * What a bid that passes `validateBid` costs the furnisher: under a required
   * bond at least the minimum bid plus the required bond, under a forbidden
   * bond no more than the bid amount, and under an optional bond at least the
   * minimum bid whenever the bond is not negative.
   */
  lemma TotalCostOfValidBid(bid: Bid, contract: EscrowTX)
    requires ValidateBid(bid, contract).valid
    ensures var record := contract.record;
      record.furnisherBondingMode == BondRequired ==>
        CalculateTotalCost(bid) >= record.minAllowableBid + record.requiredBondAmount
    ensures contract.record.furnisherBondingMode == BondForbidden ==> CalculateTotalCost(bid) <= bid.bidAmount
    ensures bid.bond >= 0 ==> CalculateTotalCost(bid) >= contract.record.minAllowableBid
  {
  }

  /** `isRecentBid`, with the current time in Unix seconds as a parameter: placed within the last hour (or later). */
  predicate IsRecentBid(bidTime: int, now: int) {
    bidTime >= now - 3600
  }

  /** A bid stays recent for exactly one hour: recent at `now` iff at most 3600 seconds old, and later bids are recent whenever earlier ones are. */
  lemma RecentBidWindow(bidTime: int, later: int, now: int)
    requires bidTime <= later
    ensures IsRecentBid(bidTime, now) <==> now - bidTime <= 3600
    ensures IsRecentBid(bidTime, now) ==> IsRecentBid(later, now)
  {
  }

  /**
   * Shown newest first, the recent bids come before all the others: once a bid
   * in the sorted list is no longer recent, no bid after it is.
   */
  lemma RecentBidsLeadNewestFirst(bids: seq<AnnotatedBid>, now: int)
    ensures var s := SortBids(bids, Newest);
      forall i, j :: 0 <= i <= j < |s| && IsRecentBid(s[j].bid.timeOfBid, now) ==> IsRecentBid(s[i].bid.timeOfBid, now)
  {
    var s := SortBids(bids, Newest);
    forall i, j | 0 <= i < j < |s|
      ensures s[i].bid.timeOfBid >= s[j].bid.timeOfBid
    {
      assert ComesBefore(Newest, s[i], s[j]);
    }
  }

  /** `formatBidPlans`: the decoded plans, cut to `maxLength` characters plus an ellipsis. */
  function FormatBidPlans(plans: string, maxLength: nat): (r: string)
    ensures |r| <= maxLength + 3
    ensures |Formatting.HexToAscii(plans)| <= maxLength ==> r == Formatting.HexToAscii(plans)
    ensures |Formatting.HexToAscii(plans)| > maxLength ==>
      |r| == maxLength + 3 && r[..maxLength] == Formatting.HexToAscii(plans)[..maxLength] && r[maxLength..] == "..."
  {
    Formatting.TruncateWithEllipsis(Formatting.HexToAscii(plans), maxLength)
  }
}
