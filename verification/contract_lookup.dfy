/**
 * Reading a contract id back (`useContract`): `parseContractId` splits
 * `txid:outputIndex` on the colon and reads the index with `parseInt`, and
 * `fetchContract` refuses an unparsable id and otherwise returns the first
 * listed contract with that txid and output index. The listing itself, which
 * depends on the user's role and on the backend, is a parameter.
 */
module ContractLookup {
  import opened Wrappers
  import opened Seqs
  import opened Text
  import opened Numerals
  import opened Escrow
  import opened ContractStore

  datatype ParsedId = ParsedId(txid: string, outputIndex: int)

  /**
   * `parseContractId`: exactly two colon-separated parts, a non-empty txid,
   * and an index part that starts with an integer (anything after it is
   * ignored, as `parseInt` does).
   */
  function ParseContractId(contractId: string): (r: Option<ParsedId>)
    ensures r.Some? <==>
              && ':' in contractId
              && var i := IndexOf(contractId, ':');
                 i > 0 && ':' !in contractId[i + 1..] && ParseInt(contractId[i + 1..]).Some?
    ensures r.Some? ==>
              var i := IndexOf(contractId, ':');
              r.value == ParsedId(contractId[..i], ParseInt(contractId[i + 1..]).value)
  {
    var parts := Split(contractId, ':');
    SplitInTwo(contractId, ':');
    if |parts| != 2 then None
    else
      var txid := parts[0];
      var outputIndex := ParseInt(parts[1]);
      if |txid| == 0 || outputIndex.None? then None
      else Some(ParsedId(txid, outputIndex.value))
  }

  /** A split gives two parts exactly when there is one separator; the parts are what surrounds it. */
  lemma SplitInTwo(s: string, sep: char)
    ensures |Split(s, sep)| == 2 <==> sep in s && sep !in s[IndexOf(s, sep) + 1..]
    ensures |Split(s, sep)| == 2 ==>
              var i := IndexOf(s, sep);
              Split(s, sep)[0] == s[..i] && Split(s, sep)[1] == s[i + 1..]
  {
    if sep in s {
      var i := IndexOf(s, sep);
      assert Split(s, sep) == [s[..i]] + Split(s[i + 1..], sep);
    }
  }

  /** Parsing the id the store gives a contract returns its txid and output index. */
  lemma ParseContractIdRoundTrip(c: EscrowTX)
    requires |c.record.txid| > 0 && ':' !in c.record.txid
    ensures ParseContractId(ContractId(c)) == Some(ParsedId(c.record.txid, c.record.outputIndex))
  {
    var digits := NatToDecimal(c.record.outputIndex);
    assert ContractId(c) == c.record.txid + [':'] + digits;
    assert ':' !in digits by {
      assert forall k :: 0 <= k < |digits| ==> IsDigit(digits[k]);
    }
    ParseIntOfDecimal(c.record.outputIndex);
    ParseJoined(c.record.txid, digits, c.record.outputIndex);
  }

  lemma ParseJoined(txid: string, rest: string, n: int)
    requires |txid| > 0 && ':' !in txid && ':' !in rest && ParseInt(rest) == Some(n)
    ensures ParseContractId(txid + [':'] + rest) == Some(ParsedId(txid, n))
  {
    var id := txid + [':'] + rest;
    IndexOfAfter(txid, ':', rest);
    assert id[..|txid|] == txid;
    assert id[|txid| + 1..] == rest;
  }

  /** Contracts whose txids contain no colon share an id only if they share txid and output index. */
  lemma ContractIdInjective(a: EscrowTX, b: EscrowTX)
    requires |a.record.txid| > 0 && ':' !in a.record.txid
    requires |b.record.txid| > 0 && ':' !in b.record.txid
    ensures ContractId(a) == ContractId(b) <==> a.record.txid == b.record.txid && a.record.outputIndex == b.record.outputIndex
  {
    ParseContractIdRoundTrip(a);
    ParseContractIdRoundTrip(b);
  }

  function InvalidFormat(contractId: string): string {
    "Invalid contract ID format: " + contractId
  }

  predicate IsContract(id: ParsedId, c: EscrowTX) {
    c.record.txid == id.txid && c.record.outputIndex == id.outputIndex
  }

  function IsContractOf(id: ParsedId): EscrowTX -> bool {
    (c: EscrowTX) => IsContract(id, c)
  }

  /**
   * The lookup step of `fetchContract` over the listed contracts: an
   * unparsable id throws; otherwise the first contract with the parsed txid
   * and output index, or null when there is none.
   */
  function FindContract(contractId: string, contracts: seq<EscrowTX>): (r: Result<Option<EscrowTX>, JsError>)
    ensures r.Failure? <==> ParseContractId(contractId).None?
    ensures r.Failure? ==> r.error == Error(InvalidFormat(contractId))
    ensures r.Success? ==>
              var id := ParseContractId(contractId).value;
              && (r.value.None? <==> forall k :: 0 <= k < |contracts| ==> !IsContract(id, contracts[k]))
              && (r.value.Some? ==> exists k :: 0 <= k < |contracts| && contracts[k] == r.value.value
                                                && IsContract(id, contracts[k])
                                                && forall j :: 0 <= j < k ==> !IsContract(id, contracts[j]))
  {
    match ParseContractId(contractId)
    case None => Failure(Error(InvalidFormat(contractId)))
    case Some(id) =>
      match FindFirst(contracts, IsContractOf(id))
      case None => Success(None)
      case Some(k) => Success(Some(contracts[k]))
  }

  /** Looking up the id of a listed contract finds a contract with that same id. */
  lemma FindListedContract(c: EscrowTX, contracts: seq<EscrowTX>)
    requires c in contracts && |c.record.txid| > 0 && ':' !in c.record.txid
    ensures var r := FindContract(ContractId(c), contracts);
            r.Success? && r.value.Some? && ContractId(r.value.value) == ContractId(c)
  {
    ParseContractIdRoundTrip(c);
    var k :| 0 <= k < |contracts| && contracts[k] == c;
    assert IsContract(ParsedId(c.record.txid, c.record.outputIndex), contracts[k]);
  }
}
