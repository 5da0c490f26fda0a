/**
 * The contract snapshot as the backend returns it: one escrow output
 * (`EscrowTX`) with its decoded record (`EscrowRecord`) and the bids placed
 * on it. String unions of the source become closed datatypes.
 */
module Escrow {
  import opened Wrappers

  /** The contract's lifecycle state. */
  datatype Status =
    | Initial
    | BidAccepted
    | WorkStarted
    | WorkSubmitted
    | Resolved
    | DisputedBySeeker
    | DisputedByFurnisher

  predicate IsDisputed(s: Status) {
    s == DisputedBySeeker || s == DisputedByFurnisher
  }

  datatype ContractType = BidContract | BountyContract

  datatype BondingMode = BondForbidden | BondOptional | BondRequired

  /** Who may raise the bounty of a live contract. */
  datatype AllowanceMode = IncreaseForbidden | BySeeker | ByPlatform | BySeekerOrPlatform | ByAnyone

  /**
   * The last lifecycle event before which the bounty may still be raised.
   * `UnknownCutoff` stands for any other string the record may carry.
   */
  datatype CutoffPoint = BidAcceptance | StartOfWork | SubmissionOfWork | AcceptanceOfWork | UnknownCutoff(name: string)

  /** One furnisher's offer; amounts in satoshis, times in Unix seconds. */
  datatype Bid = Bid(
    furnisherKey: string,
    plans: string,
    bidAmount: int,
    bond: int,
    timeOfBid: int,
    timeRequired: int)

  datatype EscrowRecord = EscrowRecord(
    txid: string,
    outputIndex: nat,
    minAllowableBid: int,
    escrowServiceFeeBasisPoints: int,
    furnisherBondingMode: BondingMode,
    requiredBondAmount: int,
    workCompletionDeadline: int,
    contractType: ContractType,
    bountyIncreaseAllowanceMode: AllowanceMode,
    bountyIncreaseCutoffPoint: CutoffPoint,
    bids: seq<Bid>,
    seekerKey: string,
    platformKey: string,
    acceptedBid: Option<Bid>,
    status: Status,
    workDescription: string,
    workCompletionDescription: string)

  /** A contract output: its record and the satoshis it locks. */
  datatype EscrowTX = EscrowTX(record: EscrowRecord, satoshis: int)

  /** The error a blockchain service throws when it is used before the wallet is connected; it starts with the service's name. */
  function NotInitializedError(service: string): string {
    service + " not initialized. Ensure wallet is connected first."
  }
}
