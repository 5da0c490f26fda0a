# Paragon escrow UI: the contract rule engine, in Dafny

This project models the client-side rule engine of the Paragon escrow
front end. A seeker posts paid work as an on-chain escrow contract, and
furnishers bid on it. The engine is the pure code that turns contract
snapshots into decisions and views. It covers:

- which seeker actions the lifecycle status permits (cancel, accept a bid,
  approve work, raise a dispute, increase the bounty);
- dashboard statistics, and the filtering, searching and sorting of contract
  lists;
- bid bookkeeping: placeholder filtering, metadata, sorting, lowest, highest
  and average bids, and bid validation against the contract's minimum bid and
  bonding mode;
- text and number helpers: the fail-soft hex decoder, truncation, duration
  text, title and description extraction, status labels and colours, and
  satoshi parsing;
- the form validators;
- the guards inside two service wrappers: the bid guards of `placeBid`, and
  the basis-point fee split of `decideDispute`;
- the seeker and furnisher list pipelines;
- the keyed contract cache, and contract-id parsing.

Contracts are immutable datatypes (`Escrow`). JavaScript arrays are
sequences, and strings are sequences of characters. Every operation is a
pure function. The one exception is `CalculateStats`, a method with a loop.

What the model turns into explicit values:

- **Time.** `Date.now()` becomes an explicit `now` argument.
- **Configuration.** The values the validators read from the global
  configuration become a `ValidationConfig` parameter. The defaults are
  1000 / optional / 0.
- **Backend calls.** A backend call becomes the argument tuple it would
  receive.
- **Exceptions.** A thrown error becomes the `Failure` side of a `Result`.
- **React state.** A React `useState`/`useMemo` pair becomes a record plus a
  pure function of it.

Shared modules:

- `Wrappers`: `Option`, `Result`, and the thrown error.
- `Seqs`: order-preserving `filter`, `findIndex`, `reduce`-sums, and a `Map`
  filled by `forEach`.
- `Sorting`: a stable sort by an integer key. Every comparator in the source
  has the form `key(a) - key(b)`, and `Array.prototype.sort` is stable. Such a
  sort is the unique ordered, stable permutation, which
  `Sorting.SortIsUniqueStableOrder` proves.
- `Text`: JavaScript `trim`, ASCII `toLowerCase`, `includes`, `split` and
  `join`.
- `Numerals`: decimal printing, `parseInt`, and hex digits.

JavaScript numbers are modelled as follows:

- Satoshi amounts and times are integers.
- The validators take a `JsNumber`, which is `NaN` or a real number, so that
  their `isNaN` and `Number.isInteger` branches are kept.
- `Math.floor` of a division by a positive constant is Dafny's `/`.
- JavaScript's `%`, which truncates toward zero, is written out as
  `Formatting.JsRemainder`.

Two rules of the code that the model keeps as written:

- A bid is real when `bidAmount > 0 && timeOfBid > 0`
  (src/features/seeker/utils/bidHelpers.ts:21-23).
- `validateBid` does not check the bounty amount; `placeBid` does
  (src/services/blockchain/FurnisherService.ts:81-96). It is modelled there,
  in `FurnisherService.PlaceBid`.

## Model

| member | source | states |
|---|---|---|
| Formatting.ParseSatoshis | src/utils/formatting.ts:36-47 | input counts as a BSV amount exactly when its trimmed lower-case form contains "bsv"; otherwise the value is the decimal number formed by the digit characters alone, in order, every other character ignored (0 when there are none) |
| Formatting.TrimKeepsDigits | src/utils/formatting.ts:37-46 | trimming never removes a digit, so the digits of the trimmed and untrimmed input agree |
| Formatting.ParseSatoshisRoundTrip | src/utils/formatting.ts:36-47 | a printed natural number, bare or followed by " sats", parses back to itself |
| Formatting.DecodePairs | src/utils/formatting.ts:194-210 | decoding succeeds exactly when every hex pair is TAB, LF, CR or at least 32; the text then has one character per pair, each equal to its pair's byte value |
| Formatting.HexToAscii | src/utils/formatting.ts:178-213 | empty input gives ""; input whose trim is not entirely hex or has odd length comes back unchanged; otherwise the decoded pairs when every byte is printable or TAB/LF/CR, else the input unchanged |
| Formatting.HexEncode | src/utils/formatting.ts:196-201 | the inverse encoding: two hex digits per character, each pair's value the character code |
| Formatting.HexRoundTrip | src/utils/formatting.ts:178-213 | decoding the hex encoding of text made of TAB/LF/CR and codes 32–255 gives the text back |
| Formatting.EncodedPairsDecode | src/utils/formatting.ts:194-210 | the pair decoder inverts the encoder on decodable text |
| Formatting.TruncateWithEllipsis | src/utils/formatting.ts:299-302 | at most max+3 characters; text within the limit is kept, longer text is its first max characters and "..." |
| Formatting.TruncateAddressAsWritten | src/utils/formatting.ts:116-122 | the source's truncation: unchanged within start+end characters, otherwise the first start characters, "...", and `slice(-end)` of the address |
| Formatting.TruncateAddressZeroEndFinding | src/utils/formatting.ts:116-122 | with end 0 the as-written result repeats the whole address after the ellipsis (length 20 instead of 9 for an 11-character address) |
| Formatting.TruncateAddress | src/utils/formatting.ts:116-122 | corrected truncation: unchanged within start+end characters; otherwise exactly start+end+3 characters, the address's first start characters, "...", and its last end characters |
| Formatting.TruncateAddressAgrees | src/utils/formatting.ts:116-122 | for every positive end count the corrected and as-written truncations agree |
| Formatting.TruncateTxid | src/utils/formatting.ts:127-129 | ids of at most 16 characters unchanged; longer ones become 19 characters: the first 8, "...", and the last 8 |
| Formatting.JsRemainder | src/utils/formatting.ts:136-137 | JavaScript `%` by a positive divisor: the remainder has the sign of the dividend and is smaller than the divisor in magnitude |
| Formatting.DurationComponents | src/utils/formatting.ts:135-137 | for a non-negative duration, hours are below 24 and minutes below 60, and days/hours/minutes account for all but under a minute of it |
| Formatting.DurationUnits | src/utils/formatting.ts:139-149 | the units shown: days iff there are days, hours iff there are hours, minutes iff there are minutes or nothing else was shown; never empty, always in the order days, hours, minutes, and no unit twice |
| Formatting.FormatDuration | src/utils/formatting.ts:134-152 | never empty; contains 'd' iff days > 0, 'h' iff hours > 0, 'm' iff minutes > 0 or neither days nor hours were emitted; under a minute it is "0m" |
| Formatting.FormatDurationReadBack | src/utils/formatting.ts:134-152 | splitting the result on spaces gives one part per shown unit, in order, each `${amount}` followed by its unit letter; for a non-negative duration `parseInt` of each part gives back that unit's amount |
| Formatting.InJoin | src/utils/formatting.ts:151 | a character other than the separator occurs in a join exactly when it occurs in one of the parts |
| Formatting.LineBeforeBreak | src/utils/formatting.ts:235-236 | the first line is a newline-free prefix of the text |
| Formatting.TextAfterBreak | src/utils/formatting.ts:284-292 | the text is its first line, a newline, and the returned rest |
| Formatting.SplitLines | src/utils/formatting.ts:235-236 | `split('\n')[0]` is the first line; there is a second piece iff the text has a newline, and the pieces after the first are the split of the rest |
| Formatting.LinesAfterFirst | src/utils/formatting.ts:292 | re-joining the lines after the first with '\n' gives exactly the text after the first newline |
| Formatting.ExtractContractTitle | src/utils/formatting.ts:223-262 | blank input gives "Untitled Contract"; otherwise at most maxLength+3 characters, taken from the trimmed first line of the decoded text when non-empty, else from the second line, else from the whole text |
| Formatting.ExtractContractDescription | src/utils/formatting.ts:272-303 | at most maxLength+3 characters; "" for blank input or single-line decoded text; otherwise the trimmed text after the first line, truncated |
| Formatting.TitleAndDescription | src/utils/formatting.ts:223-303 | a trimmed title line within its limit followed by a trimmed body within its limit are extracted back exactly |
| Formatting.FormatStatus | src/utils/formatting.ts:80-92 | every status has a non-empty display label |
| Formatting.FormatStatusInjective | src/utils/formatting.ts:80-92 | the labels are pairwise distinct: a label read back gives its status |
| Formatting.StatusColor | src/utils/formatting.ts:97-111 | every status has a non-default colour; the error colour marks exactly the two disputed statuses |
| Formatting.StatusColorTable | src/utils/formatting.ts:97-111 | reading a colour back through the table gives initial for info, bid-accepted for primary, work-started for warning, work-submitted for secondary and resolved for success; exactly the two disputed statuses do not read back |
| Formatting.StatusColorDistinguishes | src/utils/formatting.ts:97-111 | two statuses share a colour only when they are equal or both disputed |
| Validation.ValidateBounty | src/utils/validation.ts:11-27 | valid iff a number > 0 and at least the minimum bid; NaN or non-positive gives the positivity error first, otherwise the minimum-bid error |
| Validation.BountyMonotone | src/utils/validation.ts:11-27 | raising a valid bounty keeps it valid |
| Validation.ValidateDeadline | src/utils/validation.ts:32-59 | valid iff positive, after now and at most one year after now; each failing check has its own message, in that order |
| Validation.DeadlineWindow | src/utils/validation.ts:32-59 | for whole-second times the valid deadlines are exactly the half-open year (now, now + 31,536,000] |
| Validation.ValidateWorkDescription | src/utils/validation.ts:64-89 | valid iff the trimmed text has 10 to 5000 characters; blank, short and long each have their own message |
| Validation.WorkDescriptionIgnoresPadding | src/utils/validation.ts:64-89 | surrounding whitespace never changes the outcome |
| Validation.ValidateBidAmount | src/utils/validation.ts:94-117 | valid iff > 0, at least the minimum bid and at most the bounty; errors reported in that order |
| Validation.BidAmountWindow | src/utils/validation.ts:94-117 | with a positive minimum, the valid whole amounts are exactly the range from the minimum to the bounty |
| Validation.ValidateBond | src/utils/validation.ts:122-147 | valid iff not a positive bond under a forbidding mode, not below the required bond under a requiring mode, and not negative; checks in that order |
| Validation.BondModes | src/utils/validation.ts:122-147 | under the optional mode exactly the non-negative bonds are valid; a zero bond is valid unless a bond is required |
| Validation.ValidateTimeRequired | src/utils/validation.ts:152-170 | valid iff a number in (0, one year]; the positivity error precedes the upper-bound error |
| Validation.TimeRequiredWindow | src/utils/validation.ts:152-170 | the valid whole durations are exactly 1 to 31,536,000 seconds |
| Validation.ValidateBidPlans | src/utils/validation.ts:175-200 | valid iff the trimmed proposal has 20 to 3000 characters; blank, short and long each have their own message |
| Validation.BidPlansIgnorePadding | src/utils/validation.ts:175-200 | surrounding whitespace never changes the outcome |
| Validation.ValidatePublicKey | src/utils/validation.ts:205-232 | valid iff the trimmed key is 66 hex digits; blank, then wrong length, then non-hex |
| Validation.ValidateTxid | src/utils/validation.ts:237-264 | valid iff the trimmed id is 64 hex digits; blank, then wrong length, then non-hex |
| Validation.HexEncodedIdentifiersAreValid | src/utils/validation.ts:205-264 | the hex encoding of any 33 bytes is a valid public key and of any 32 bytes a valid transaction id |
| Validation.ValidateOutputIndex | src/utils/validation.ts:269-278 | valid iff a non-negative integer |
| Validation.OutputIndexNaturals | src/utils/validation.ts:269-278 | the valid indices are exactly the natural numbers |
| BidHelpers.RealBids | src/features/seeker/utils/bidHelpers.ts:21-23 | an order-preserving selection holding exactly the bids with positive amount and time, each as often as in the input |
| BidHelpers.RealBidsCount | src/features/seeker/utils/bidHelpers.ts:225-229 | at most the number of slots, and zero exactly when every slot is a placeholder |
| BidHelpers.EnrichBids | src/features/seeker/utils/bidHelpers.ts:13-34 | the annotated bids are the real bids in order; each index is its position, only the last is latest, and accepted means matching the accepted bid on furnisher key and plans |
| BidHelpers.EnrichedBidsComeFromContract | src/features/seeker/utils/bidHelpers.ts:13-34 | every annotated bid is a real bid of the contract, in the contract's order |
| BidHelpers.GetAcceptedBid | src/features/seeker/utils/bidHelpers.ts:39-44 | null exactly when no real bid matches the accepted bid; otherwise the first annotated bid that matches it: every earlier one does not |
| BidHelpers.FirstAccepted | src/features/seeker/utils/bidHelpers.ts:43 | `find` on the accepted flag: absent iff no element is flagged; otherwise a flagged element with no flagged element before it |
| BidHelpers.FirstAcceptedOfEnriched | src/features/seeker/utils/bidHelpers.ts:39-44 | the bid found by the search for the accepted flag matches the accepted bid, and no earlier annotated bid does; it is absent exactly when no real bid matches |
| BidHelpers.NoAcceptedBidWithoutAcceptance | src/features/seeker/utils/bidHelpers.ts:28-31 | with no accepted bid recorded, no bid is reported as accepted |
| BidHelpers.SortBids | src/features/seeker/utils/bidHelpers.ts:49-74 | a permutation of the bids, ordered by the chosen key (time desc/asc, amount asc/desc, time required asc), with ties in input order |
| BidHelpers.SortBidsUnique | src/features/seeker/utils/bidHelpers.ts:49-74 | any ordered, stable permutation is the sorted list, so the result is what any stable engine sort returns |
| BidHelpers.SortBidsIdempotent | src/features/seeker/utils/bidHelpers.ts:49-74 | sorting twice by the same key is sorting once |
| BidHelpers.ReduceLowest | src/features/seeker/utils/bidHelpers.ts:83-85 | the reduction keeps the earliest bid of minimum amount |
| BidHelpers.ReduceHighest | src/features/seeker/utils/bidHelpers.ts:95-97 | the reduction keeps the earliest bid of maximum amount |
| BidHelpers.GetLowestBid | src/features/seeker/utils/bidHelpers.ts:80-86 | null iff there is no real bid; otherwise the earliest real bid whose amount is at most every real bid's |
| BidHelpers.GetHighestBid | src/features/seeker/utils/bidHelpers.ts:92-98 | null iff there is no real bid; otherwise the earliest real bid whose amount is at least every real bid's |
| BidHelpers.EarliestLowestUnique | src/features/seeker/utils/bidHelpers.ts:80-86 | the earliest lowest bid is a single well-defined position |
| BidHelpers.AverageBidAmount | src/features/seeker/utils/bidHelpers.ts:104-109 | 0 without real bids; otherwise the floor of the mean: average × count ≤ sum < (average + 1) × count |
| BidHelpers.SumBetween | src/features/seeker/utils/bidHelpers.ts:107 | a sum of amounts each between two bounds lies between count × bound |
| BidHelpers.AverageBetweenExtremes | src/features/seeker/utils/bidHelpers.ts:80-109 | with real bids, lowest ≤ average ≤ highest |
| BidHelpers.OrNull | src/features/seeker/utils/bidHelpers.ts:195-196 | `x \|\| null`: absent exactly when the value is missing or zero |
| BidHelpers.GetBidStatistics | src/features/seeker/utils/bidHelpers.ts:170-199 | {0, null, null, 0} without real bids; otherwise the real-bid count, the lowest and highest amounts (null when zero) and the floor average |
| BidHelpers.LowestHighestAreReal | src/features/seeker/utils/bidHelpers.ts:80-98 | the lowest and highest bids are never placeholders |
| BidHelpers.StatisticsConsistent | src/features/seeker/utils/bidHelpers.ts:170-229 | the statistics' count is the real-bid count and its figures agree with the separate helpers |
| BidHelpers.ValidateBid | src/features/seeker/utils/bidHelpers.ts:114-157 | valid iff no errors; a minimum-bid error iff amount < minimum, and it comes first; a bond error iff required mode and bond < required, or forbidden mode and bond > 0; none in optional mode; at most two errors |
| BidHelpers.BidMessagesDiffer | src/features/seeker/utils/bidHelpers.ts:128-157 | the three error messages are distinct, so the errors list identifies the failed checks |
| BidHelpers.CalculateTotalCost | src/features/seeker/utils/bidHelpers.ts:162-164 | the amount plus the bond; it has no contract of its own, and TotalCostOfValidBid is its partner |
| BidHelpers.TotalCostOfValidBid | src/features/seeker/utils/bidHelpers.ts:128-164 | a bid that passes validation costs at least the minimum bid plus the required bond under a required bond, at most the bid amount under a forbidden bond, and at least the minimum bid whenever its bond is not negative |
| BidHelpers.RecentBidWindow | src/features/seeker/utils/bidHelpers.ts:215-219 | a bid is recent iff placed at most one hour before now, and any later bid is then recent too |
| BidHelpers.RecentBidsLeadNewestFirst | src/features/seeker/utils/bidHelpers.ts:215-219 | in the newest-first order the recent bids form a prefix: no bid after a non-recent one is recent |
| BidHelpers.IsRecentBid | src/features/seeker/utils/bidHelpers.ts:215-219 | the one-hour test, with the floored current second as a parameter; it has no contract of its own, and RecentBidWindow and RecentBidsLeadNewestFirst are its partners |
| BidHelpers.FormatBidPlans | src/features/seeker/utils/bidHelpers.ts:204-210 | the decoded plans, unchanged within the limit, otherwise their first maxLength characters and "..." |
| ContractHelpers.NoAcceptWithoutRealBids | src/features/seeker/utils/contractHelpers.ts:20-24 | a contract whose slots are all placeholders never offers accept-bid, whatever its status |
| ContractHelpers.CanCancelContract | src/features/seeker/utils/contractHelpers.ts:13-15 | cancelling is possible exactly at the first stage of the lifecycle, before any bid is accepted |
| ContractHelpers.CanAcceptBid | src/features/seeker/utils/contractHelpers.ts:20-24 | accepting is possible exactly when cancelling is and the selection of real bids is not empty |
| ContractHelpers.CanApproveWork | src/features/seeker/utils/contractHelpers.ts:29-31 | approving is possible exactly at the submission stage with no dispute open |
| ContractHelpers.CanRaiseDispute | src/features/seeker/utils/contractHelpers.ts:36-41 | a dispute can be raised exactly while work is started or submitted and no dispute is open |
| ContractHelpers.CanIncreaseBounty | src/features/seeker/utils/contractHelpers.ts:46-76 | the bounty can be raised iff the allowance mode lets the seeker act, the cutoff is a known event, and the lifecycle has not reached it |
| ContractHelpers.PermissionsFollowLifecycle | src/features/seeker/utils/contractHelpers.ts:13-41 | cancel excludes approve and dispute; approve implies dispute; a disputed or resolved contract permits none of the four; accept = cancel plus a real bid |
| ContractHelpers.IncreaseBountyBeforeCutoff | src/features/seeker/utils/contractHelpers.ts:46-76 | the bounty can be raised iff the allowance mode is neither forbidden nor platform-only, the cutoff is known, and the lifecycle has not reached the cutoff event |
| ContractHelpers.GetAvailableActions | src/features/seeker/utils/contractHelpers.ts:81-108 | each action listed iff permitted, each once, in the fixed order accept, approve, dispute, cancel, increase, and always ending with view-details |
| ContractHelpers.ActionsList | src/features/seeker/utils/contractHelpers.ts:81-108 | the actions pushed from a given rule on come in strictly increasing rule order, none from an earlier rule |
| ContractHelpers.ActionsListMembers | src/features/seeker/utils/contractHelpers.ts:81-108 | an action is pushed from a given rule on exactly when its rule comes at or after that point and permits it |
| ContractHelpers.ActionsByStatus | src/features/seeker/utils/contractHelpers.ts:81-108 | never both approve and cancel; accept only alongside cancel; a resolved contract offers view-details alone |
| ContractHelpers.CalculateStats | src/features/seeker/utils/contractHelpers.ts:113-151 | the loop computes the status counts and locked bounty, and open + active + completed + disputed = total = number of contracts |
| ContractHelpers.StatusCountsPartition | src/features/seeker/utils/contractHelpers.ts:123-142 | every contract falls in exactly one of the four status groups |
| ContractHelpers.StatsPermutationInvariant | src/features/seeker/utils/contractHelpers.ts:113-151 | the statistics do not depend on the order of the contracts |
| ContractHelpers.FilterByStatus | src/features/seeker/utils/contractHelpers.ts:156-164 | "all" returns the input; otherwise exactly the contracts with that status, each as often as in the input, in input order |
| ContractHelpers.FilterBySearch | src/features/seeker/utils/contractHelpers.ts:169-181 | a blank query returns the input; otherwise an order-preserving selection of exactly the contracts whose decoded, lower-cased description contains the lower-cased query, each kept as often as in the input |
| ContractHelpers.SearchIgnoresQueryCase | src/features/seeker/utils/contractHelpers.ts:169-181 | lower-casing the query beforehand changes nothing |
| ContractHelpers.SortContracts | src/features/seeker/utils/contractHelpers.ts:186-222 | a permutation ordered by first-slot bid time desc/asc, bounty desc/asc or deadline asc, with ties in input order |
| ContractHelpers.SortContractsUnique | src/features/seeker/utils/contractHelpers.ts:186-222 | any ordered, stable permutation is the sorted list |
| ContractHelpers.SortContractsIdempotent | src/features/seeker/utils/contractHelpers.ts:186-222 | sorting twice by the same key is sorting once |
| ContractHelpers.GetTimeRemaining | src/features/seeker/utils/contractHelpers.ts:244-247 | zero exactly when the deadline is not after now; otherwise now plus the result is the deadline |
| ContractHelpers.DeadlinePredicates | src/features/seeker/utils/contractHelpers.ts:227-247 | approaching iff more than zero and at most 86,400 seconds remain; a passed deadline has no time remaining and is not approaching |
| ContractHelpers.IsDeadlineApproaching | src/features/seeker/utils/contractHelpers.ts:227-231 | the real-valued hour test holds exactly when more than zero and at most 86,400 seconds remain |
| ContractHelpers.IsDeadlinePassed | src/features/seeker/utils/contractHelpers.ts:236-239 | a passed deadline leaves no time remaining and is not approaching |
| FurnisherService.CompletionWindow | src/services/blockchain/FurnisherService.ts:101-103 | a non-zero duration is used as given; an absent or zero duration falls back to one day |
| FurnisherService.ValidatedDurationIsKept | src/services/blockchain/FurnisherService.ts:101-103 | a duration the bid form accepts is used as the completion window unchanged, so the window lies within one year |
| FurnisherService.PlaceBid | src/services/blockchain/FurnisherService.ts:46-112 | an uninitialised service throws first; the bid reaches the backend iff a bounty contract gets exactly its locked amount or a bid contract at least its minimum, each refusal with its own message; the backend gets the bid, the plans, the bond or 0, and the current whole second plus the completion window |
| FurnisherService.GuardMessagesDiffer | src/services/blockchain/FurnisherService.ts:46-96 | the three thrown messages are distinct |
| FurnisherService.BountyIgnoresMinimum | src/services/blockchain/FurnisherService.ts:81-96 | for a bounty contract, the minimum bid never changes the outcome: exactly the locked amount is accepted |
| FurnisherService.CompletionInFuture | src/services/blockchain/FurnisherService.ts:98-103 | a non-negative or missing duration puts the completion time after the current second, and zero behaves as missing |
| PlatformService.PlatformFee | src/services/blockchain/PlatformService.ts:82-85 | the floor of total × basis points / 10000: fee × 10000 ≤ total × bps < (fee + 1) × 10000 |
| PlatformService.DecideDispute | src/services/blockchain/PlatformService.ts:46-109 | an uninitialised service throws; a record without an accepted bid raises a TypeError; otherwise the two amounts sum to the accepted bid less the fee, with the losing side getting 0, and no notes |
| PlatformService.FeeWithinBid | src/services/blockchain/PlatformService.ts:82-85 | with at most 10000 basis points on a non-negative bid, 0 ≤ fee ≤ bid |
| PlatformService.DecisionAmountsNonNegative | src/services/blockchain/PlatformService.ts:82-98 | under the same bounds both paid amounts lie between 0 and the bid |
| PlatformService.DecisionIsMirrored | src/services/blockchain/PlatformService.ts:90-98 | deciding either way pays the same amount, to opposite sides |
| ContractFilters.Selection | src/features/seeker/hooks/useContractFilters.ts:20-27 | the status and search stages keep exactly the contracts of the selected status whose description matches a non-blank query, each as often as in the input and no other |
| ContractFilters.FilteredContracts | src/features/seeker/hooks/useContractFilters.ts:20-33 | the visible list holds exactly the selected contracts, each as often as in the input, in the chosen order |
| ContractFilters.FilteredContractsIsSortedSelection | src/features/seeker/hooks/useContractFilters.ts:20-33 | any ordered, stable rearrangement of the selection is the visible list |
| ContractFilters.NoSelectionKeepsEverything | src/features/seeker/hooks/useContractFilters.ts:20-33 | all statuses and a blank query show a reordering of the whole input |
| ContractFilters.UpdateFilter | src/features/seeker/hooks/useContractFilters.ts:36-44 | the named field takes the new value; the other two are kept |
| ContractFilters.UpdateFilterLastWins | src/features/seeker/hooks/useContractFilters.ts:36-44 | two updates of one field keep the second; updates of different fields commute |
| ContractFilters.ResetFilters | src/features/seeker/hooks/useContractFilters.ts:47-49 | after a reset no filter is active |
| ContractFilters.HasActiveFilters | src/features/seeker/hooks/useContractFilters.ts:56-59 | the indicator is off exactly at the default filters |
| ContractFilters.InactiveFiltersAreDefaults | src/features/seeker/hooks/useContractFilters.ts:56-59 | the indicator is off exactly at the default filters (all, "", newest), and then the list is the whole input newest first |
| ContractFilters.BlankQueryIsActiveButKeepsAll | src/features/seeker/hooks/useContractFilters.ts:20-59 | a whitespace-only query counts as an active filter although it removes no contract |
| WorkFilters.Admit | src/features/furnisher/hooks/useWorkFilters.ts:24-45 | the filter stages keep exactly the contracts that match the query, lie in the bounty range and, when asked, have no bid slot, each as often as in the input and no other |
| WorkFilters.FilteredWork | src/features/furnisher/hooks/useWorkFilters.ts:21-66 | the admitted contracts, each as often as in the input, in the chosen order (deadline desc for newest, asc for oldest and deadline, bounty desc/asc), ties in input order |
| WorkFilters.FilteredWorkIsSortedSelection | src/features/furnisher/hooks/useWorkFilters.ts:47-63 | any ordered, stable rearrangement of the admitted contracts is the visible list |
| WorkFilters.DefaultsKeepEveryBountyInRange | src/features/furnisher/hooks/useWorkFilters.ts:10-37 | with the default filters every contract of 0 to 100,000,000 satoshis is shown |
| WorkFilters.SearchIsOverRawDescription | src/features/furnisher/hooks/useWorkFilters.ts:24-30 | a non-empty query matches the stored description as it is, lower-cased, without hex decoding |
| WorkFilters.UpdateFilters | src/features/furnisher/hooks/useWorkFilters.ts:68-70 | each supplied field takes its new value; every other field is kept |
| WorkFilters.UpdateFiltersIdempotent | src/features/furnisher/hooks/useWorkFilters.ts:68-70 | an empty update changes nothing, and repeating an update changes nothing more |
| WorkFilters.ResetWorkFilters | src/features/furnisher/hooks/useWorkFilters.ts:72-74 | the defaults of lines 10-16 come back: empty query, 0 to 100,000,000, newest, all contracts |
| ContractStore.ContractId | src/stores/useContractStore.ts:27-29 | the id starts with the txid, then a colon, then decimal digits whose value is the output index |
| Seqs.IndexBy | src/stores/useContractStore.ts:41-46 | a map filled in order has exactly the elements' keys, each mapped to the last element carrying it |
| ContractStore.SetContracts | src/stores/useContractStore.ts:40-49 | the cache keys are exactly the ids of the new contracts, each holding the last contract with that id; the error is cleared; selection and loading kept |
| ContractStore.AddContract | src/stores/useContractStore.ts:54-62 | the contract is stored under its id; every other entry and field is unchanged |
| ContractStore.SelectContract | src/stores/useContractStore.ts:67-76 | a cached id selects its contract; an unknown id leaves the selection and records "Contract not found: " and the id; the cache is unchanged |
| ContractStore.ClearContracts | src/stores/useContractStore.ts:81-87 | empty cache, no selection, no error; loading kept |
| ContractStore.SetLoading | src/stores/useContractStore.ts:92-94 | only the loading flag changes |
| ContractStore.SetError | src/stores/useContractStore.ts:99-101 | only the error changes |
| ContractStore.AddThenSelect | src/stores/useContractStore.ts:54-76 | a contract just added can be selected by its id |
| ContractStore.SetThenSelect | src/stores/useContractStore.ts:40-76 | after a reload, the last contract with each id can be selected by that id |
| ContractStore.ClearThenSelect | src/stores/useContractStore.ts:67-87 | after a clear every selection fails with the not-found error |
| ContractStore.SetContractsForgetsOldCache | src/stores/useContractStore.ts:40-49 | a reload replaces the cache: the previous entries have no influence |
| ContractLookup.ParseContractId | src/hooks/useContract.ts:21-33 | parses iff the id has exactly one colon, a non-empty part before it and a part after it that starts with an integer; the result is those two parts |
| ContractLookup.SplitInTwo | src/hooks/useContract.ts:24-25 | splitting gives two parts exactly when there is a single separator, and the parts are what surrounds it |
| ContractLookup.ParseContractIdRoundTrip | src/hooks/useContract.ts:21-33 | for a non-empty, colon-free txid, parsing the store's id gives back the txid and the output index |
| ContractLookup.ContractIdInjective | src/stores/useContractStore.ts:27-29 | for such txids, two contracts share an id iff they share txid and output index |
| ContractLookup.FindContract | src/hooks/useContract.ts:38-88 | an unparsable id throws "Invalid contract ID format: " and the id; otherwise the first listed contract with the parsed txid and index, or null iff none matches |
| ContractLookup.FindListedContract | src/hooks/useContract.ts:38-88 | looking up the id of a listed contract finds a contract with that same id |
| Sorting.SortIsUniqueStableOrder | src/features/seeker/utils/bidHelpers.ts:54-73 | the only ordered, stable permutation of a sequence is the sorted one, so the model's sort returns what any correct stable engine sort returns |

## Left out

- **React, routing and rendering.** Toasts, the zod form schemas, the user
  and notification stores, and every `.tsx` component are left out. They
  carry no rule of the engine.
- **Wallet, overlay and backend calls.** These include the role-dependent
  listing inside `fetchContract` and the service methods other than the two
  guarded ones. They are I/O into code this model cannot see.
  - Backend calls appear only as the argument tuples `BackendBid` and
    `DisputeDecision`.
  - The listed contracts are a parameter of `FindContract`.
  - The `initialized` flag stands for whether the singleton has its backend
    entity.
- **Floating point.** Left out: `formatSatoshis`, `formatPercentage`, the BSV
  branch of `parseSatoshis` (`parseFloat` × 10^8), and the date-fns
  `formatDate`/`formatRelativeTime`. `Formatting.ParseSatoshis` only reports
  that the input is a BSV amount, and returns its numeral unparsed.
- **JavaScript number limits.** Amounts and times are unbounded integers, so
  precision loss above 2^53 and `Infinity` are not modelled. The validators'
  `JsNumber` has no infinities.
- **Strings.** They are sequences of UTF-16 code units, read as characters.
  `toLowerCase` is modelled on ASCII letters only.
- **Global configuration.** The environment reading in `globalConfig` is left
  out. Its three values are a parameter.
- **Other key types.** `Map` iteration order and object identity are not
  modelled, and `ContractState.contracts` is an unordered map.
- **A missing `bids` array.** `bids` is a required field of `EscrowRecord`
  (src/types/blockchain.types.ts:45), and the model's record always holds a
  sequence, so the model never sees a missing array. The code is not uniform
  about one: `enrichBidsWithMetadata` (`|| []`) and `useWorkFilters`
  (`!contract.record.bids`) read it as empty, while `getRealBidsCount`,
  `canAcceptBid` (through it) and `sortContracts` (`a.record.bids[0]`) would
  throw a TypeError. Those throwing paths are not modelled.
- ContractHelpers.ActionsByStatus: for a resolved contract, the lemma states
  that view-details is the only action listed, as membership. It does not
  state the length of the list; `GetAvailableActions` gives order and
  uniqueness separately.
- Formatting.JsRemainder: states only the sign and magnitude bounds of
  JavaScript's `%`. `DurationComponents` proves the exact components for
  non-negative inputs. Negative durations follow the definition but have no
  separate lemma.
- ContractLookup.ParseContractIdRoundTrip: assumes a non-empty txid without a
  colon. Real txids are 64 hex digits, and an id built from any other txid
  does not parse back.

## Findings

| source | as written | input that shows it | evidently intended | confidence | as-written member | corrected member |
|---|---|---|---|---|---|---|
| src/utils/formatting.ts:116-122 | the end part is `address.slice(-endChars)`; with `endChars = 0` this is `slice(-0)` = `slice(0)`, the whole address | `truncateAddress("abcdefghijk", 6, 0)` gives `"abcdef...abcdefghijk"` (20 characters, longer than the input) | the first `startChars` characters, `"..."`, and the last `endChars` characters (none when 0), length `startChars + endChars + 3` | not executed | Formatting.TruncateAddressZeroEndFinding | Formatting.TruncateAddress |
