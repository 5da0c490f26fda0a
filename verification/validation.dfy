/**
 * The form validators. Each is total and returns the first failing check's
 * message. Numeric inputs are JavaScript numbers, so NaN is a possible
 * input; the configuration values they compare against are a parameter.
 */
module Validation {
  import opened Text
  import opened Numerals
  import opened Escrow
  import Formatting

  /** A JavaScript number other than ±Infinity. */
  datatype JsNumber = NaN | Num(value: real)

  /** The configuration values the validators read. */
  datatype ValidationConfig = ValidationConfig(
    minAllowableBid: int,
    furnisherBondingMode: BondingMode,
    requiredBondAmount: int)

  /** The values the shipped configuration uses. */
  const DefaultConfig := ValidationConfig(1000, BondOptional, 0)

  /** `{ valid: true }` or `{ valid: false, error }`. */
  datatype ValidationResult = Valid | Invalid(error: string)

  /** One year in seconds, the upper bound on deadlines and work durations. */
  const OneYear := 365 * 24 * 60 * 60

  /** `x <= 0` or `isNaN(x)`: NaN fails every comparison, so it lands here. */
  predicate NotPositive(x: JsNumber) {
    x.NaN? || x.value <= 0.0
  }

  function AtLeastMessage(what: string, amount: int): string {
    what + " must be at least " + IntToDecimal(amount) + " satoshis"
  }

  /** `validateBounty`. */
  function ValidateBounty(amount: JsNumber, config: ValidationConfig): (r: ValidationResult)
    ensures r.Valid? <==> amount.Num? && amount.value > 0.0 && amount.value >= config.minAllowableBid as real
    ensures r == Invalid("Bounty must be a positive number") <==> NotPositive(amount)
    ensures r == Invalid(AtLeastMessage("Bounty", config.minAllowableBid)) <==>
      !NotPositive(amount) && amount.value < config.minAllowableBid as real
  {
    if NotPositive(amount) then Invalid("Bounty must be a positive number")
    else if amount.value < config.minAllowableBid as real then Invalid(AtLeastMessage("Bounty", config.minAllowableBid))
    else Valid
  }

  /** Raising an accepted bounty keeps it accepted. */
  lemma BountyMonotone(a: real, b: real, config: ValidationConfig)
    requires a <= b
    ensures ValidateBounty(Num(a), config).Valid? ==> ValidateBounty(Num(b), config).Valid?
  {
  }

  /** `validateDeadline`, with the current time in Unix seconds as a parameter. */
  function ValidateDeadline(timestamp: JsNumber, now: int): (r: ValidationResult)
    ensures r.Valid? <==>
      timestamp.Num? && timestamp.value > 0.0 && timestamp.value > now as real && timestamp.value <= (now + OneYear) as real
    ensures r == Invalid("Please select a valid deadline") <==> NotPositive(timestamp)
    ensures r == Invalid("Deadline must be in the future") <==> !NotPositive(timestamp) && timestamp.value <= now as real
    ensures r == Invalid("Deadline cannot be more than 1 year in the future") <==>
      !NotPositive(timestamp) && timestamp.value > now as real && timestamp.value > (now + OneYear) as real
  {
    if NotPositive(timestamp) then Invalid("Please select a valid deadline")
    else if timestamp.value <= now as real then Invalid("Deadline must be in the future")
    else if timestamp.value > (now + OneYear) as real then Invalid("Deadline cannot be more than 1 year in the future")
    else Valid
  }

  /** With a non-negative clock, the accepted deadlines are exactly the whole seconds of the year after `now`. */
  lemma DeadlineWindow(now: nat, t: int)
    ensures ValidateDeadline(Num(t as real), now).Valid? <==> now < t <= now + OneYear
  {
  }

  /** `validateWorkDescription`: 10 to 5000 characters once trimmed. */
  function ValidateWorkDescription(text: string): (r: ValidationResult)
    ensures r.Valid? <==> 10 <= |Trim(text)| <= 5000
    ensures r == Invalid("Work description is required") <==> AllWhitespace(text)
    ensures r == Invalid("Work description must be at least 10 characters") <==> 0 < |Trim(text)| < 10
    ensures r == Invalid("Work description must be less than 5000 characters") <==> |Trim(text)| > 5000
  {
    var trimmed := Trim(text);
    if |trimmed| == 0 then Invalid("Work description is required")
    else if |trimmed| < 10 then Invalid("Work description must be at least 10 characters")
    else if |trimmed| > 5000 then Invalid("Work description must be less than 5000 characters")
    else Valid
  }

  /** Trimming is idempotent, so validating trimmed text gives the same verdict. */
  lemma TrimIdempotent(text: string)
    ensures Trim(Trim(text)) == Trim(text)
  {
    TrimNoop(Trim(text));
  }

  /** Leading and trailing whitespace never changes the verdict on a description. */
  lemma WorkDescriptionIgnoresPadding(text: string)
    ensures ValidateWorkDescription(Trim(text)) == ValidateWorkDescription(text)
  {
    var t := Trim(text);
    TrimIdempotent(text);
    assert Trim(t) == t;
    assert |Trim(t)| == |t|;
    assert AllWhitespace(t) <==> AllWhitespace(text);
  }

  /** `validateBidAmount`. */
  function ValidateBidAmount(amount: JsNumber, bounty: real, config: ValidationConfig): (r: ValidationResult)
    ensures r.Valid? <==> amount.Num? && 0.0 < amount.value && amount.value >= config.minAllowableBid as real && amount.value <= bounty
    ensures r == Invalid("Bid amount must be a positive number") <==> NotPositive(amount)
    ensures r == Invalid(AtLeastMessage("Bid amount", config.minAllowableBid)) <==>
      !NotPositive(amount) && amount.value < config.minAllowableBid as real
    ensures r == Invalid("Bid amount cannot exceed the bounty") <==>
      !NotPositive(amount) && amount.value >= config.minAllowableBid as real && amount.value > bounty
  {
    if NotPositive(amount) then Invalid("Bid amount must be a positive number")
    else if amount.value < config.minAllowableBid as real then Invalid(AtLeastMessage("Bid amount", config.minAllowableBid))
    else if amount.value > bounty then Invalid("Bid amount cannot exceed the bounty")
    else Valid
  }

  /** With a positive minimum, the accepted bids are exactly the amounts from the minimum up to the bounty. */
  lemma BidAmountWindow(a: int, bounty: int, config: ValidationConfig)
    requires config.minAllowableBid > 0
    ensures ValidateBidAmount(Num(a as real), bounty as real, config).Valid? <==> config.minAllowableBid <= a <= bounty
  {
  }

  /** `validateBond`, checked in the order forbidden, required, negative; NaN passes every check. */
  function ValidateBond(amount: JsNumber, config: ValidationConfig): (r: ValidationResult)
    ensures r.Valid? <==>
      || amount.NaN?
      || (&& amount.value >= 0.0
          && !(config.furnisherBondingMode == BondForbidden && amount.value > 0.0)
          && !(config.furnisherBondingMode == BondRequired && amount.value < config.requiredBondAmount as real))
    ensures r == Invalid("Bonds are not allowed in this configuration") <==>
      config.furnisherBondingMode == BondForbidden && amount.Num? && amount.value > 0.0
    ensures r == Invalid(AtLeastMessage("Bond", config.requiredBondAmount)) <==>
      config.furnisherBondingMode == BondRequired && amount.Num? && amount.value < config.requiredBondAmount as real
    ensures r == Invalid("Bond amount cannot be negative") <==>
      amount.Num? && amount.value < 0.0
      && !(config.furnisherBondingMode == BondRequired && amount.value < config.requiredBondAmount as real)
  {
    BondMessagesDiffer(config.requiredBondAmount);
    if config.furnisherBondingMode == BondForbidden && amount.Num? && amount.value > 0.0 then
      Invalid("Bonds are not allowed in this configuration")
    else if config.furnisherBondingMode == BondRequired && amount.Num? && amount.value < config.requiredBondAmount as real then
      Invalid(AtLeastMessage("Bond", config.requiredBondAmount))
    else if amount.Num? && amount.value < 0.0 then Invalid("Bond amount cannot be negative")
    else Valid
  }

  lemma BondMessagesDiffer(n: int)
    ensures AtLeastMessage("Bond", n) != "Bonds are not allowed in this configuration"
    ensures AtLeastMessage("Bond", n) != "Bond amount cannot be negative"
  {
    var m := AtLeastMessage("Bond", n);
    assert m[4] == ' ' && m[5] == 'm';
  }

  /** In optional mode exactly the non-negative bonds pass; a zero bond passes in every mode that does not require one. */
  lemma BondModes(b: real, config: ValidationConfig)
    ensures config.furnisherBondingMode == BondOptional ==> (ValidateBond(Num(b), config).Valid? <==> b >= 0.0)
    ensures config.furnisherBondingMode != BondRequired ==> ValidateBond(Num(0.0), config).Valid?
  {
  }

  /** `validateTimeRequired`: a positive number of seconds, at most one year. */
  function ValidateTimeRequired(seconds: JsNumber): (r: ValidationResult)
    ensures r.Valid? <==> seconds.Num? && 0.0 < seconds.value <= OneYear as real
    ensures r == Invalid("Time required must be a positive number") <==> NotPositive(seconds)
    ensures r == Invalid("Time required cannot exceed 1 year") <==> seconds.Num? && seconds.value > OneYear as real
  {
    if NotPositive(seconds) then Invalid("Time required must be a positive number")
    else if seconds.value > OneYear as real then Invalid("Time required cannot exceed 1 year")
    else Valid
  }

  /** The accepted whole durations are exactly 1 to 31,536,000 seconds. */
  lemma TimeRequiredWindow(t: int)
    ensures ValidateTimeRequired(Num(t as real)).Valid? <==> 1 <= t <= 31536000
  {
  }

  /** `validateBidPlans`: 20 to 3000 characters once trimmed. */
  function ValidateBidPlans(text: string): (r: ValidationResult)
    ensures r.Valid? <==> 20 <= |Trim(text)| <= 3000
    ensures r == Invalid("Bid proposal is required") <==> AllWhitespace(text)
    ensures r == Invalid("Bid proposal must be at least 20 characters") <==> 0 < |Trim(text)| < 20
    ensures r == Invalid("Bid proposal must be less than 3000 characters") <==> |Trim(text)| > 3000
  {
    var trimmed := Trim(text);
    if |trimmed| == 0 then Invalid("Bid proposal is required")
    else if |trimmed| < 20 then Invalid("Bid proposal must be at least 20 characters")
    else if |trimmed| > 3000 then Invalid("Bid proposal must be less than 3000 characters")
    else Valid
  }

  lemma BidPlansIgnorePadding(text: string)
    ensures ValidateBidPlans(Trim(text)) == ValidateBidPlans(text)
  {
    var t := Trim(text);
    TrimIdempotent(text);
    assert Trim(t) == t;
    assert |Trim(t)| == |t|;
    assert AllWhitespace(t) <==> AllWhitespace(text);
  }

  /** `validatePublicKey`: a compressed key is 66 hex digits; the length is checked before the digits. */
  function ValidatePublicKey(key: string): (r: ValidationResult)
    ensures r.Valid? <==> |Trim(key)| == 66 && AllHexDigits(Trim(key))
    ensures r == Invalid("Public key is required") <==> AllWhitespace(key)
    ensures r == Invalid("Invalid public key format") <==> 0 < |Trim(key)| != 66
    ensures r == Invalid("Public key must be hexadecimal") <==> |Trim(key)| == 66 && !AllHexDigits(Trim(key))
  {
    var trimmed := Trim(key);
    if |trimmed| == 0 then Invalid("Public key is required")
    else if |trimmed| != 66 then Invalid("Invalid public key format")
    else if !IsHexString(trimmed) then Invalid("Public key must be hexadecimal")
    else Valid
  }

  /** `validateTxid`: a transaction id is 64 hex digits; the length is checked before the digits. */
  function ValidateTxid(txid: string): (r: ValidationResult)
    ensures r.Valid? <==> |Trim(txid)| == 64 && AllHexDigits(Trim(txid))
    ensures r == Invalid("Transaction ID is required") <==> AllWhitespace(txid)
    ensures r == Invalid("Invalid transaction ID format") <==> 0 < |Trim(txid)| != 64
    ensures r == Invalid("Transaction ID must be hexadecimal") <==> |Trim(txid)| == 64 && !AllHexDigits(Trim(txid))
  {
    var trimmed := Trim(txid);
    if |trimmed| == 0 then Invalid("Transaction ID is required")
    else if |trimmed| != 64 then Invalid("Invalid transaction ID format")
    else if !IsHexString(trimmed) then Invalid("Transaction ID must be hexadecimal")
    else Valid
  }

  /** The hex encoding of 33 bytes is an acceptable public key and of 32 bytes an acceptable transaction id. */
  lemma HexEncodedIdentifiersAreValid(bytes: string)
    requires forall i :: 0 <= i < |bytes| ==> bytes[i] as int < 256
    ensures |bytes| == 33 ==> ValidatePublicKey(Formatting.HexEncode(bytes)) == Valid
    ensures |bytes| == 32 ==> ValidateTxid(Formatting.HexEncode(bytes)) == Valid
  {
    var e := Formatting.HexEncode(bytes);
    if |bytes| > 0 {
      Formatting.HexHasNoWhitespace(e);
      TrimNoop(e);
    }
  }

  /** `Number.isInteger` on a finite number. */
  predicate IsInteger(x: real) {
    x.Floor as real == x
  }

  /** `validateOutputIndex`. */
  function ValidateOutputIndex(index: JsNumber): (r: ValidationResult)
    ensures r.Valid? <==> index.Num? && index.value >= 0.0 && IsInteger(index.value)
    ensures r.Invalid? ==> r.error == "Output index must be a non-negative integer"
  {
    if index.NaN? || index.value < 0.0 || !IsInteger(index.value) then Invalid("Output index must be a non-negative integer")
    else Valid
  }

  /** The accepted indexes are exactly the natural numbers. */
  lemma OutputIndexNaturals(index: JsNumber)
    ensures ValidateOutputIndex(index).Valid? <==> exists n: nat {:trigger n as real} :: index == Num(n as real)
  {
    if ValidateOutputIndex(index).Valid? {
      var n: nat := index.value.Floor;
      assert index == Num(n as real);
    }
  }
}
