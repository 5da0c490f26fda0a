/**
 * The platform service's `decideDispute`: the platform keeps a fee of
 * `escrowServiceFeeBasisPoints` ten-thousandths of the accepted bid, rounded
 * down, and the rest goes entirely to the side the dispute is decided for. The
 * backend call is modelled as the argument tuple it receives.
 */
module PlatformService {
  import opened Wrappers
  import opened Numerals
  import opened Escrow

  const NotInitialized := NotInitializedError("PlatformService")

  /** Basis points are ten-thousandths. */
  const BasisPointsPerUnit := 10000

  /** The arguments of the backend `decideDispute` call. */
  datatype DisputeDecision = DisputeDecision(
    escrow: EscrowRecord,
    amountForSeeker: int,
    amountForFurnisher: int,
    notes: seq<int>)

  /** `Math.floor(total * bps / 10000)`: the share of `total` the platform keeps. */
  function PlatformFee(total: int, basisPoints: int): (fee: int)
    ensures fee * BasisPointsPerUnit <= total * basisPoints < (fee + 1) * BasisPointsPerUnit
  {
    FloorDivBounds(total * basisPoints, BasisPointsPerUnit);
    total * basisPoints / BasisPointsPerUnit
  }

  /**
   * `decideDispute`. Reading `acceptedBid.bidAmount` of a record without an
   * accepted bid throws a `TypeError` before the backend is called.
   */
  function DecideDispute(initialized: bool, escrow: EscrowRecord, awardToFurnisher: bool): (r: Result<DisputeDecision, JsError>)
    ensures !initialized ==> r == Failure(Error(NotInitialized))
    ensures initialized && escrow.acceptedBid.None? ==> r == Failure(TypeError)
    ensures r.Success? <==> initialized && escrow.acceptedBid.Some?
    ensures r.Success? ==>
              var total := escrow.acceptedBid.value.bidAmount;
              var fee := PlatformFee(total, escrow.escrowServiceFeeBasisPoints);
              && r.value.escrow == escrow
              && r.value.notes == []
              && r.value.amountForSeeker + r.value.amountForFurnisher == total - fee
              && (if awardToFurnisher then r.value.amountForSeeker == 0 else r.value.amountForFurnisher == 0)
  {
    if !initialized then Failure(Error(NotInitialized))
    else if escrow.acceptedBid.None? then Failure(TypeError)
    else
      var total := escrow.acceptedBid.value.bidAmount;
      var platformFee := PlatformFee(total, escrow.escrowServiceFeeBasisPoints);
      if awardToFurnisher then Success(DisputeDecision(escrow, 0, total - platformFee, []))
      else Success(DisputeDecision(escrow, total - platformFee, 0, []))
  }

  /**
   * With a fee rate of at most 100% on a non-negative bid, the fee lies between
   * 0 and the bid, so neither side is ever asked to receive a negative amount
   * and nothing beyond the bid is paid out.
   */
  lemma FeeWithinBid(total: int, basisPoints: int)
    requires total >= 0 && 0 <= basisPoints <= BasisPointsPerUnit
    ensures 0 <= PlatformFee(total, basisPoints) <= total
  {
    assert 0 <= total * basisPoints;
    if total > 0 {
      MulMonotone(total, basisPoints, BasisPointsPerUnit);
    }
    FloorDivBetween(total * basisPoints, BasisPointsPerUnit, 0, total);
  }

  lemma DecisionAmountsNonNegative(escrow: EscrowRecord, awardToFurnisher: bool)
    requires escrow.acceptedBid.Some? && escrow.acceptedBid.value.bidAmount >= 0
    requires 0 <= escrow.escrowServiceFeeBasisPoints <= BasisPointsPerUnit
    ensures var d := DecideDispute(true, escrow, awardToFurnisher).value;
            && 0 <= d.amountForSeeker <= escrow.acceptedBid.value.bidAmount
            && 0 <= d.amountForFurnisher <= escrow.acceptedBid.value.bidAmount
  {
    FeeWithinBid(escrow.acceptedBid.value.bidAmount, escrow.escrowServiceFeeBasisPoints);
  }

  /** The decision only chooses the recipient: deciding either way pays out the same amount, to opposite sides. */
  lemma DecisionIsMirrored(escrow: EscrowRecord)
    requires escrow.acceptedBid.Some?
    ensures var f := DecideDispute(true, escrow, true).value;
            var s := DecideDispute(true, escrow, false).value;
            f.amountForFurnisher == s.amountForSeeker && f.amountForSeeker == s.amountForFurnisher == 0
  {
  }
}
