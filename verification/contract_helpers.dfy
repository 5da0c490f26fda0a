/**
 * The seeker's rules over contracts: which actions the lifecycle state
 * permits, dashboard statistics, list filtering, searching and sorting, and
 * deadline tests against an explicit current time (Unix seconds).
 */
module ContractHelpers {
  import opened Seqs
  import opened Sorting
  import opened Text
  import opened Escrow
  import BidHelpers
  import Formatting

  // ---------------------------------------------------------------- permitted actions

  /** `canCancelContract`: only before any bid has been accepted, the first stage of the lifecycle. */
  predicate CanCancelContract(contract: EscrowTX)
    ensures CanCancelContract(contract) <==> StatusRank(contract.record.status) == 0
  {
    contract.record.status == Initial
  }

  /** `canAcceptBid`: open for bids and at least one real bid present. */
  predicate CanAcceptBid(contract: EscrowTX)
    ensures CanAcceptBid(contract) <==> CanCancelContract(contract) && |BidHelpers.RealBids(contract.record.bids)| > 0
  {
    contract.record.status == Initial && BidHelpers.RealBidsCount(contract) > 0
  }

  /** `canApproveWork`: only once work has been submitted and no dispute is open. */
  predicate CanApproveWork(contract: EscrowTX)
    ensures CanApproveWork(contract) <==> StatusRank(contract.record.status) == 3 && !IsDisputed(contract.record.status)
  {
    contract.record.status == WorkSubmitted
  }

  /** `canRaiseDispute`: while work is under way or submitted, and no dispute is open yet. */
  predicate CanRaiseDispute(contract: EscrowTX)
    ensures CanRaiseDispute(contract) <==> 2 <= StatusRank(contract.record.status) <= 3 && !IsDisputed(contract.record.status)
  {
    contract.record.status == WorkSubmitted || contract.record.status == WorkStarted
  }

  /** `canIncreaseBounty`: the allowance mode must let the seeker act, and the cutoff point must not have passed. */
  predicate CanIncreaseBounty(contract: EscrowTX)
    ensures CanIncreaseBounty(contract) <==>
      && contract.record.bountyIncreaseAllowanceMode !in {IncreaseForbidden, ByPlatform}
      && !contract.record.bountyIncreaseCutoffPoint.UnknownCutoff?
      && StatusRank(contract.record.status) < CutoffRank(contract.record.bountyIncreaseCutoffPoint)
  {
    var mode := contract.record.bountyIncreaseAllowanceMode;
    var status := contract.record.status;
    if mode == IncreaseForbidden || mode == ByPlatform then false
    else match contract.record.bountyIncreaseCutoffPoint
      case BidAcceptance => status == Initial
      case StartOfWork => status == Initial || status == BidAccepted
      case SubmissionOfWork => status == Initial || status == BidAccepted || status == WorkStarted
      case AcceptanceOfWork => status != Resolved
      case UnknownCutoff(_) => false
  }

  /** Placeholder slots alone never make a bid acceptable, whatever the status. */
  lemma NoAcceptWithoutRealBids(contract: EscrowTX)
    requires forall b :: b in contract.record.bids ==> !BidHelpers.IsRealBid(b)
    ensures !CanAcceptBid(contract)
  {
  }

  /**
   * The four status rules never offer contradictory steps: cancelling is only
   * possible before any work, approving only once work is submitted (when a
   * dispute is also possible), and a disputed or resolved contract offers none
   * of them. Accepting a bid is cancelling's precondition plus a real bid.
   */
  lemma PermissionsFollowLifecycle(contract: EscrowTX)
    ensures CanCancelContract(contract) ==> !CanApproveWork(contract) && !CanRaiseDispute(contract)
    ensures CanApproveWork(contract) ==> CanRaiseDispute(contract)
    ensures IsDisputed(contract.record.status) || contract.record.status == Resolved ==>
              !CanCancelContract(contract) && !CanAcceptBid(contract) && !CanApproveWork(contract) && !CanRaiseDispute(contract)
    ensures CanAcceptBid(contract) <==> CanCancelContract(contract) && exists b :: b in contract.record.bids && BidHelpers.IsRealBid(b)
  {
  }

  /** How far the lifecycle has progressed; both dispute states sit where submission does. */
  function StatusRank(status: Status): nat {
    match status
    case Initial => 0
    case BidAccepted => 1
    case WorkStarted => 2
    case WorkSubmitted => 3
    case DisputedBySeeker => 3
    case DisputedByFurnisher => 3
    case Resolved => 4
  }

  /** The rank a status must stay below for the cutoff not to have passed. */
  function CutoffRank(cutoff: CutoffPoint): nat
    requires !cutoff.UnknownCutoff?
  {
    match cutoff
    case BidAcceptance => 1
    case StartOfWork => 2
    case SubmissionOfWork => 3
    case AcceptanceOfWork => 4
  }

  /** The increase rule read as "the contract has not yet reached the cutoff event". */
  lemma IncreaseBountyBeforeCutoff(contract: EscrowTX)
    ensures CanIncreaseBounty(contract) <==>
      && contract.record.bountyIncreaseAllowanceMode !in {IncreaseForbidden, ByPlatform}
      && !contract.record.bountyIncreaseCutoffPoint.UnknownCutoff?
      && StatusRank(contract.record.status) < CutoffRank(contract.record.bountyIncreaseCutoffPoint)
  {
  }

  /** What the seeker can do with a contract. */
  datatype Action = AcceptBid | ApproveWork | RaiseDispute | CancelContract | IncreaseBounty | ViewDetails

  /** The identifiers `getAvailableActions` returns. */
  function ActionName(a: Action): string {
    match a
    case AcceptBid => "accept-bid"
    case ApproveWork => "approve-work"
    case RaiseDispute => "raise-dispute"
    case CancelContract => "cancel-contract"
    case IncreaseBounty => "increase-bounty"
    case ViewDetails => "view-details"
  }

  /** The fixed listing order of the actions. */
  function ActionRank(a: Action): nat {
    match a
    case AcceptBid => 0
    case ApproveWork => 1
    case RaiseDispute => 2
    case CancelContract => 3
    case IncreaseBounty => 4
    case ViewDetails => 5
  }

  predicate Permits(contract: EscrowTX, a: Action) {
    match a
    case AcceptBid => CanAcceptBid(contract)
    case ApproveWork => CanApproveWork(contract)
    case RaiseDispute => CanRaiseDispute(contract)
    case CancelContract => CanCancelContract(contract)
    case IncreaseBounty => CanIncreaseBounty(contract)
    case ViewDetails => true
  }

  /** `getAvailableActions`: every permitted action once, in the fixed order, ending with view-details. */
  function GetAvailableActions(contract: EscrowTX): (actions: seq<Action>)
    ensures forall a :: a in actions <==> Permits(contract, a)
    ensures forall i, j :: 0 <= i < j < |actions| ==> ActionRank(actions[i]) < ActionRank(actions[j])
    ensures |actions| > 0 && actions[|actions| - 1] == ViewDetails
  {
    var permitted := Permitted(contract);
    var actions := ActionsList(permitted, 0);
    ActionsListMembers(permitted, 0);
    ViewDetailsLast(actions);
    actions
  }

  /** View-details ranks last, so in a list of increasing rank it can only come at the end. */
  lemma ViewDetailsLast(actions: seq<Action>)
    requires ViewDetails in actions
    requires forall i, j :: 0 <= i < j < |actions| ==> ActionRank(actions[i]) < ActionRank(actions[j])
    ensures |actions| > 0 && actions[|actions| - 1] == ViewDetails
  {
    var i :| 0 <= i < |actions| && actions[i] == ViewDetails;
    if i < |actions| - 1 {
      assert ActionRank(actions[i]) < ActionRank(actions[|actions| - 1]);
    }
  }

  /** The five rule outcomes, in listing order. */
  function Permitted(contract: EscrowTX): (p: seq<bool>)
    ensures |p| == 6 && forall a :: p[ActionRank(a)] == Permits(contract, a)
  {
    [CanAcceptBid(contract), CanApproveWork(contract), CanRaiseDispute(contract),
     CanCancelContract(contract), CanIncreaseBounty(contract), true]
  }

  function ActionOfRank(k: nat): (a: Action)
    requires k < 6
    ensures ActionRank(a) == k
    ensures forall b :: ActionRank(b) == k ==> b == a
  {
    [AcceptBid, ApproveWork, RaiseDispute, CancelContract, IncreaseBounty, ViewDetails][k]
  }

  /** The pushes of `getAvailableActions` from the rule of rank `k` on, given the outcome of each rule. */
  function ActionsList(permitted: seq<bool>, k: nat): (actions: seq<Action>)
    requires |permitted| == 6 && k <= 6
    ensures forall i :: 0 <= i < |actions| ==> ActionRank(actions[i]) >= k
    ensures forall i, j :: 0 <= i < j < |actions| ==> ActionRank(actions[i]) < ActionRank(actions[j])
    decreases 6 - k
  {
    if k == 6 then []
    else
      var rest := ActionsList(permitted, k + 1);
      if permitted[k] then
        var r := [ActionOfRank(k)] + rest;
        assert forall i :: 1 <= i < |r| ==> r[i] == rest[i - 1];
        r
      else rest
  }

  /** The list holds exactly the actions of rank at least `k` whose rule permits them. */
  lemma {:induction false} ActionsListMembers(permitted: seq<bool>, k: nat)
    requires |permitted| == 6 && k <= 6
    ensures forall a :: a in ActionsList(permitted, k) <==> ActionRank(a) >= k && permitted[ActionRank(a)]
    decreases 6 - k
  {
    if k < 6 {
      ActionsListMembers(permitted, k + 1);
      var a := ActionOfRank(k);
      var rest := ActionsList(permitted, k + 1);
      if permitted[k] {
        assert ActionsList(permitted, k) == [a] + rest;
      }
    }
  }

  /** Approving and cancelling exclude each other, and a finished contract offers nothing but its details. */
  lemma ActionsByStatus(contract: EscrowTX)
    ensures !(ApproveWork in GetAvailableActions(contract) && CancelContract in GetAvailableActions(contract))
    ensures AcceptBid in GetAvailableActions(contract) ==> CancelContract in GetAvailableActions(contract)
    ensures contract.record.status == Resolved ==> forall a :: a in GetAvailableActions(contract) <==> a == ViewDetails
  {
    var actions := GetAvailableActions(contract);
    assert Permits(contract, ApproveWork) ==> !Permits(contract, CancelContract);
    assert Permits(contract, AcceptBid) ==> Permits(contract, CancelContract);
    if contract.record.status == Resolved {
      assert !CanIncreaseBounty(contract);
    }
  }

  // ---------------------------------------------------------------- statistics

  datatype ContractStats = ContractStats(
    totalContracts: int,
    openContracts: int,
    activeContracts: int,
    completedContracts: int,
    disputedContracts: int,
    totalBountyLocked: int)

  function OpenCount(c: EscrowTX): int {
    if c.record.status == Initial then 1 else 0
  }

  function ActiveCount(c: EscrowTX): int {
    if c.record.status in {BidAccepted, WorkStarted, WorkSubmitted} then 1 else 0
  }

  function CompletedCount(c: EscrowTX): int {
    if c.record.status == Resolved then 1 else 0
  }

  function DisputedCount(c: EscrowTX): int {
    if IsDisputed(c.record.status) then 1 else 0
  }

  /** The satoshis a contract still locks: all of them unless it is resolved. */
  function LockedBounty(c: EscrowTX): int {
    if c.record.status != Resolved then c.satoshis else 0
  }

  function One(c: EscrowTX): int {
    1
  }

  /** The statistics as sums over the list, one term per contract. */
  function StatsOf(contracts: seq<EscrowTX>): ContractStats {
    ContractStats(
      |contracts|,
      SumOver(contracts, OpenCount),
      SumOver(contracts, ActiveCount),
      SumOver(contracts, CompletedCount),
      SumOver(contracts, DisputedCount),
      SumOver(contracts, LockedBounty))
  }

  /** `calculateStats`: one pass over the contracts, counting by status and summing the locked bounty. */
  method CalculateStats(contracts: seq<EscrowTX>) returns (stats: ContractStats)
    ensures stats == StatsOf(contracts)
    ensures stats.openContracts + stats.activeContracts + stats.completedContracts + stats.disputedContracts
      == stats.totalContracts == |contracts|
  {
    stats := ContractStats(|contracts|, 0, 0, 0, 0, 0);
    var i := 0;
    while i < |contracts|
      invariant 0 <= i <= |contracts|
      invariant stats.totalContracts == |contracts|
      invariant stats.openContracts == SumOver(contracts[..i], OpenCount)
      invariant stats.activeContracts == SumOver(contracts[..i], ActiveCount)
      invariant stats.completedContracts == SumOver(contracts[..i], CompletedCount)
      invariant stats.disputedContracts == SumOver(contracts[..i], DisputedCount)
      invariant stats.totalBountyLocked == SumOver(contracts[..i], LockedBounty)
    {
      var c := contracts[i];
      var status := c.record.status;
      SumOverSnoc(contracts, i, OpenCount);
      SumOverSnoc(contracts, i, ActiveCount);
      SumOverSnoc(contracts, i, CompletedCount);
      SumOverSnoc(contracts, i, DisputedCount);
      SumOverSnoc(contracts, i, LockedBounty);
      if status == Initial {
        stats := stats.(openContracts := stats.openContracts + 1);
      } else if status == BidAccepted || status == WorkStarted || status == WorkSubmitted {
        stats := stats.(activeContracts := stats.activeContracts + 1);
      } else if status == Resolved {
        stats := stats.(completedContracts := stats.completedContracts + 1);
      } else if status == DisputedBySeeker || status == DisputedByFurnisher {
        stats := stats.(disputedContracts := stats.disputedContracts + 1);
      }
      if status != Resolved {
        stats := stats.(totalBountyLocked := stats.totalBountyLocked + c.satoshis);
      }
      i := i + 1;
    }
    assert contracts[..i] == contracts;
    StatusCountsPartition(contracts);
  }

  /** Every contract falls in exactly one of the four status groups. */
  lemma {:induction false} StatusCountsPartition(contracts: seq<EscrowTX>)
    ensures SumOver(contracts, OpenCount) + SumOver(contracts, ActiveCount)
      + SumOver(contracts, CompletedCount) + SumOver(contracts, DisputedCount) == |contracts|
    decreases |contracts|
  {
    if |contracts| > 0 {
      StatusCountsPartition(contracts[1..]);
    }
  }

  /** The statistics do not depend on the order of the list. */
  lemma StatsPermutationInvariant(xs: seq<EscrowTX>, ys: seq<EscrowTX>)
    requires multiset(xs) == multiset(ys)
    ensures StatsOf(xs) == StatsOf(ys)
  {
    assert |xs| == |multiset(xs)| == |ys|;
    SumOverPermutation(xs, ys, OpenCount);
    SumOverPermutation(xs, ys, ActiveCount);
    SumOverPermutation(xs, ys, CompletedCount);
    SumOverPermutation(xs, ys, DisputedCount);
    SumOverPermutation(xs, ys, LockedBounty);
  }

  // ---------------------------------------------------------------- filtering and searching

  /** A status to filter on, or `'all'`. */
  datatype StatusFilter = AllStatuses | OnlyStatus(status: Status)

  function HasStatus(status: Status): EscrowTX -> bool {
    (c: EscrowTX) => c.record.status == status
  }

  /** `filterByStatus`. */
  function FilterByStatus(contracts: seq<EscrowTX>, filter: StatusFilter): (r: seq<EscrowTX>)
    ensures filter.AllStatuses? ==> r == contracts
    ensures IsSubsequence(r, contracts)
    ensures filter.OnlyStatus? ==> forall c :: c in r <==> c in contracts && c.record.status == filter.status
    ensures filter.OnlyStatus? ==> forall c :: multiset(r)[c] == if c.record.status == filter.status then multiset(contracts)[c] else 0
  {
    if filter.AllStatuses? then
      SubsequenceRefl(contracts);
      contracts
    else
      FilterMultiset(contracts, HasStatus(filter.status));
      Filter(contracts, HasStatus(filter.status))
  }

  /** The description a contract is searched by: its decoded text, lower-cased. */
  function SearchText(c: EscrowTX): string {
    ToLower(Formatting.HexToAscii(c.record.workDescription))
  }

  /**
   * The contract's search text includes the lower-cased query; by
   * `Text.ContainsIffOccurs` this is an occurrence at some position.
   */
  predicate SearchHit(c: EscrowTX, lowerQuery: string) {
    Contains(SearchText(c), lowerQuery)
  }

  function MatchesQuery(lowerQuery: string): EscrowTX -> bool {
    (c: EscrowTX) => Contains(SearchText(c), lowerQuery)
  }

  /** `filterBySearch`: a blank query keeps everything; otherwise the untrimmed lower-cased query must occur in the description. */
  function FilterBySearch(contracts: seq<EscrowTX>, query: string): (r: seq<EscrowTX>)
    ensures AllWhitespace(query) ==> r == contracts
    ensures IsSubsequence(r, contracts)
    ensures !AllWhitespace(query) ==> forall c :: c in r <==> c in contracts && SearchHit(c, ToLower(query))
    ensures !AllWhitespace(query) ==>
      forall c :: multiset(r)[c] == if SearchHit(c, ToLower(query)) then multiset(contracts)[c] else 0
  {
    if |Trim(query)| == 0 then
      SubsequenceRefl(contracts);
      contracts
    else
      SearchSelection(contracts, ToLower(query));
      Filter(contracts, MatchesQuery(ToLower(query)))
  }

  /** The search filter keeps exactly the hits, each as often as in the input. */
  lemma SearchSelection(contracts: seq<EscrowTX>, lowerQuery: string)
    ensures var r := Filter(contracts, MatchesQuery(lowerQuery));
      && (forall c :: c in r <==> c in contracts && SearchHit(c, lowerQuery))
      && (forall c :: multiset(r)[c] == if SearchHit(c, lowerQuery) then multiset(contracts)[c] else 0)
  {
    var p := MatchesQuery(lowerQuery);
    assert forall c :: p(c) == SearchHit(c, lowerQuery);
    FilterMultiset(contracts, p);
  }

  /** Searching is insensitive to the case of ASCII letters in the query. */
  lemma SearchIgnoresQueryCase(contracts: seq<EscrowTX>, query: string)
    requires !AllWhitespace(query)
    ensures FilterBySearch(contracts, ToLower(query)) == FilterBySearch(contracts, query)
  {
    var l := ToLower(query);
    assert ToLower(l) == l;
    assert !AllWhitespace(l) by {
      var i :| 0 <= i < |query| && !IsWhitespace(query[i]);
      assert l[i] == LowerChar(query[i]);
    }
  }

  // ---------------------------------------------------------------- sorting

  /** The orders the contract list can be shown in. */
  datatype ContractOrder = NewestFirst | OldestFirst | BountyHigh | BountyLow | DeadlineFirst

  /** `bids[0]?.timeOfBid || 0`: the first slot's time, placeholders included, or 0. */
  function FirstBidTime(c: EscrowTX): int {
    if |c.record.bids| > 0 then c.record.bids[0].timeOfBid else 0
  }

  function ContractKey(order: ContractOrder, c: EscrowTX): int {
    match order
    case NewestFirst => -FirstBidTime(c)
    case OldestFirst => FirstBidTime(c)
    case BountyHigh => -c.satoshis
    case BountyLow => c.satoshis
    case DeadlineFirst => c.record.workCompletionDeadline
  }

  function ContractKeyOf(order: ContractOrder): EscrowTX -> int {
    (c: EscrowTX) => ContractKey(order, c)
  }

  /** `a` may precede `b` in the chosen order. */
  predicate ContractComesBefore(order: ContractOrder, a: EscrowTX, b: EscrowTX) {
    match order
    case NewestFirst => FirstBidTime(a) >= FirstBidTime(b)
    case OldestFirst => FirstBidTime(a) <= FirstBidTime(b)
    case BountyHigh => a.satoshis >= b.satoshis
    case BountyLow => a.satoshis <= b.satoshis
    case DeadlineFirst => a.record.workCompletionDeadline <= b.record.workCompletionDeadline
  }

  /** `sortContracts`: a sorted copy; contracts comparing equal keep their relative order. */
  function SortContracts(contracts: seq<EscrowTX>, order: ContractOrder): (r: seq<EscrowTX>)
    ensures multiset(r) == multiset(contracts)
    ensures forall i, j :: 0 <= i < j < |r| ==> ContractComesBefore(order, r[i], r[j])
    ensures StableWrt(r, contracts, ContractKeyOf(order))
  {
    var r := SortByKey(contracts, ContractKeyOf(order));
    assert forall i, j :: 0 <= i < j < |r| ==> ContractKeyOf(order)(r[i]) <= ContractKeyOf(order)(r[j]);
    r
  }

  /** Any ordered, stable rearrangement is the sorted one; sorting twice changes nothing. */
  lemma SortContractsUnique(contracts: seq<EscrowTX>, order: ContractOrder, r: seq<EscrowTX>)
    requires multiset(r) == multiset(contracts)
    requires forall i, j :: 0 <= i < j < |r| ==> ContractComesBefore(order, r[i], r[j])
    requires StableWrt(r, contracts, ContractKeyOf(order))
    ensures r == SortContracts(contracts, order)
  {
    SortIsUniqueStableOrder(contracts, r, ContractKeyOf(order));
  }

  lemma SortContractsIdempotent(contracts: seq<EscrowTX>, order: ContractOrder)
    ensures SortContracts(SortContracts(contracts, order), order) == SortContracts(contracts, order)
  {
    SortIdempotent(contracts, ContractKeyOf(order));
  }

  // ---------------------------------------------------------------- deadlines

  /** `isDeadlineApproaching`: between zero (exclusive) and 24 (inclusive) hours left, in real-valued hours. */
  predicate IsDeadlineApproaching(deadline: int, now: int)
    ensures IsDeadlineApproaching(deadline, now) <==> 0 < deadline - now <= 86400
  {
    var hoursRemaining := (deadline - now) as real / 3600.0;
    hoursRemaining > 0.0 && hoursRemaining <= 24.0
  }

  /** `isDeadlinePassed`: the deadline lies strictly before now, so no time remains and it is no longer approaching. */
  predicate IsDeadlinePassed(deadline: int, now: int)
    ensures IsDeadlinePassed(deadline, now) ==> GetTimeRemaining(deadline, now) == 0 && !IsDeadlineApproaching(deadline, now)
  {
    deadline < now
  }

  /** `getTimeRemaining`: seconds left, never negative. */
  function GetTimeRemaining(deadline: int, now: int): (r: nat)
    ensures r == 0 <==> deadline <= now
    ensures r > 0 ==> now + r == deadline
  {
    if deadline - now > 0 then deadline - now else 0
  }

  /** The deadline tests agree with the time remaining: approaching means at most a day left, passed means nothing left. */
  lemma DeadlinePredicates(deadline: int, now: int)
    ensures IsDeadlineApproaching(deadline, now) <==> 0 < deadline - now <= 86400
    ensures IsDeadlineApproaching(deadline, now) <==> 0 < GetTimeRemaining(deadline, now) <= 86400
    ensures IsDeadlinePassed(deadline, now) ==> GetTimeRemaining(deadline, now) == 0 && !IsDeadlineApproaching(deadline, now)
  {
  }
}
