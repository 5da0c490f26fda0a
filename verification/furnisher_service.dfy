/**
 * The guards of the furnisher service's `placeBid`: the service must be
 * initialised, a bounty contract only accepts a bid of exactly its locked
 * amount, and a bid contract only accepts a bid of at least its minimum. A bid
 * that passes is handed to the backend with its duration turned into a Unix
 * completion timestamp and a missing bond replaced by 0; the backend call is
 * modelled as the argument tuple it receives.
 */
module FurnisherService {
  import opened Wrappers
  import opened Numerals
  import opened Escrow
  import Validation

  const NotInitialized := NotInitializedError("FurnisherService")

  /** The completion window used when no duration is given: one day, in seconds. */
  const DefaultBidDuration := 86400

  /** The arguments of the backend `placeBid` call. */
  datatype BackendBid = BackendBid(
    escrow: EscrowTX,
    bidAmount: int,
    plans: string,
    timeRequiredTimestamp: int,
    bond: int)

  const BountyMismatchPrefix := "Invalid bid amount for BOUNTY contract. "
  const BelowMinimumPrefix := "Bid amount "

  function BountyMismatch(escrow: EscrowTX, bidAmount: int): (message: string)
    ensures |message| > |BountyMismatchPrefix| && message[..|BountyMismatchPrefix|] == BountyMismatchPrefix
  {
    BountyMismatchPrefix
    + ("Bid amount must be exactly " + IntToDecimal(escrow.satoshis) + " satoshis (the fixed bounty amount), "
       + "but received " + IntToDecimal(bidAmount) + " satoshis. "
       + "BOUNTY contracts have a fixed reward that cannot be changed.")
  }

  function BelowMinimum(escrow: EscrowTX, bidAmount: int): (message: string)
    ensures |message| > |BelowMinimumPrefix| && message[..|BelowMinimumPrefix|] == BelowMinimumPrefix
  {
    BelowMinimumPrefix
    + (IntToDecimal(bidAmount) + " is below the minimum allowable bid of "
       + IntToDecimal(escrow.record.minAllowableBid) + " satoshis.")
  }

  /** The bid amount a contract of this type will take. */
  predicate AcceptsAmount(escrow: EscrowTX, bidAmount: int) {
    match escrow.record.contractType
    case BountyContract => bidAmount == escrow.satoshis
    case BidContract => bidAmount >= escrow.record.minAllowableBid
  }

  /**
   * `timeRequired ? now + timeRequired : now + 86400`: an absent or zero
   * duration is falsy and falls back to one day.
   */
  function CompletionWindow(timeRequired: Option<int>): (window: int)
    ensures timeRequired.Some? && timeRequired.value != 0 ==> window == timeRequired.value
    ensures timeRequired.None? || timeRequired.value == 0 ==> window == DefaultBidDuration
  {
    match timeRequired
    case Some(t) => if t != 0 then t else DefaultBidDuration
    case None => DefaultBidDuration
  }

  /** A duration the bid form accepts is used as given: the completion window lies within one year. */
  lemma ValidatedDurationIsKept(t: int)
    requires Validation.ValidateTimeRequired(Validation.Num(t as real)).Valid?
    ensures CompletionWindow(Some(t)) == t
    ensures 0 < CompletionWindow(Some(t)) <= 31536000
  {
    Validation.TimeRequiredWindow(t);
  }

  /**
   * `placeBid`. `nowMillis` is `Date.now()`; the timestamp is computed from the
   * whole seconds, `Math.floor(Date.now() / 1000)`.
   */
  function PlaceBid(
    initialized: bool,
    escrow: EscrowTX,
    plans: string,
    bidAmount: int,
    bond: Option<int>,
    timeRequired: Option<int>,
    nowMillis: int): (r: Result<BackendBid, JsError>)
    ensures !initialized ==> r == Failure(Error(NotInitialized))
    ensures r.Success? <==> initialized && AcceptsAmount(escrow, bidAmount)
    ensures initialized && escrow.record.contractType == BountyContract && bidAmount != escrow.satoshis
            ==> r == Failure(Error(BountyMismatch(escrow, bidAmount)))
    ensures initialized && escrow.record.contractType == BidContract && bidAmount < escrow.record.minAllowableBid
            ==> r == Failure(Error(BelowMinimum(escrow, bidAmount)))
    ensures r.Success? ==>
              && r.value.escrow == escrow
              && r.value.bidAmount == bidAmount
              && r.value.plans == plans
              && r.value.bond == bond.GetOr(0)
              && r.value.timeRequiredTimestamp == nowMillis / 1000 + CompletionWindow(timeRequired)
  {
    if !initialized then Failure(Error(NotInitialized))
    else
      var isBounty := escrow.record.contractType == BountyContract;
      if isBounty && bidAmount != escrow.satoshis then Failure(Error(BountyMismatch(escrow, bidAmount)))
      else if !isBounty && bidAmount < escrow.record.minAllowableBid then Failure(Error(BelowMinimum(escrow, bidAmount)))
      else
        FloorDivBounds(nowMillis, 1000);
        var nowSeconds := nowMillis / 1000;
        var timestamp := if timeRequired.Some? && timeRequired.value != 0
                         then nowSeconds + timeRequired.value
                         else nowSeconds + DefaultBidDuration;
        Success(BackendBid(escrow, bidAmount, plans, timestamp, bond.GetOr(0)))
  }

  /** The two guard messages can never be confused with each other or with the initialisation error. */
  lemma GuardMessagesDiffer(escrow: EscrowTX, bidAmount: int)
    ensures BountyMismatch(escrow, bidAmount) != BelowMinimum(escrow, bidAmount)
    ensures BountyMismatch(escrow, bidAmount) != NotInitialized
    ensures BelowMinimum(escrow, bidAmount) != NotInitialized
  {
    var b, m := BountyMismatch(escrow, bidAmount), BelowMinimum(escrow, bidAmount);
    assert b[0] == BountyMismatchPrefix[0] == 'I';
    assert m[0] == BelowMinimumPrefix[0] == 'B';
    assert NotInitialized[0] == "FurnisherService"[0] == 'F';
  }

  /**
   * The minimum bid never applies to a bounty contract: a bid of exactly the
   * locked amount reaches the backend whatever the minimum, and whatever the
   * minimum, any other amount is refused.
   */
  lemma BountyIgnoresMinimum(escrow: EscrowTX, minAllowableBid: int, plans: string, bidAmount: int,
                             bond: Option<int>, timeRequired: Option<int>, nowMillis: int)
    requires escrow.record.contractType == BountyContract
    ensures var other := escrow.(record := escrow.record.(minAllowableBid := minAllowableBid));
            PlaceBid(true, escrow, plans, bidAmount, bond, timeRequired, nowMillis).Success?
            <==> PlaceBid(true, other, plans, bidAmount, bond, timeRequired, nowMillis).Success?
    ensures PlaceBid(true, escrow, plans, bidAmount, bond, timeRequired, nowMillis).Success? <==> bidAmount == escrow.satoshis
  {
  }

  /**
   * A positive (or missing) duration puts the completion time strictly after
   * the current second; an explicit zero is treated as missing.
   */
  lemma CompletionInFuture(escrow: EscrowTX, plans: string, bidAmount: int,
                           bond: Option<int>, timeRequired: Option<int>, nowMillis: int)
    requires timeRequired.None? || timeRequired.value >= 0
    requires PlaceBid(true, escrow, plans, bidAmount, bond, timeRequired, nowMillis).Success?
    ensures var b := PlaceBid(true, escrow, plans, bidAmount, bond, timeRequired, nowMillis).value;
            nowMillis / 1000 < b.timeRequiredTimestamp
            && (timeRequired == Some(0) ==> b == PlaceBid(true, escrow, plans, bidAmount, bond, None, nowMillis).value)
  {
  }
}
