/**
 * The contract cache (`useContractStore`): contracts keyed by
 * `txid:outputIndex`, the selected contract, a loading flag and an error
 * message. Every action is a function from the old state to the new one; a
 * field an action does not set keeps its value, as with Zustand's `set`.
 */
module ContractStore {
  import opened Wrappers
  import opened Seqs
  import opened Numerals
  import opened Escrow

  datatype ContractState = ContractState(
    contracts: map<string, EscrowTX>,
    selectedContract: Option<EscrowTX>,
    loading: bool,
    error: Option<string>)

  const InitialState := ContractState(map[], None, false, None)

  /** `getContractId`: the txid, a colon, and the output index in decimal. */
  function ContractId(c: EscrowTX): (id: string)
    ensures |id| > |c.record.txid| + 1
    ensures id[..|c.record.txid|] == c.record.txid && id[|c.record.txid|] == ':'
    ensures AllDigits(id[|c.record.txid| + 1..])
    ensures DecimalValue(id[|c.record.txid| + 1..]) == c.record.outputIndex
  {
    var id := c.record.txid + ":" + NatToDecimal(c.record.outputIndex);
    assert id[|c.record.txid| + 1..] == NatToDecimal(c.record.outputIndex);
    DecimalRoundTrip(c.record.outputIndex);
    id
  }

  function ContractIdOf(): EscrowTX -> string {
    (c: EscrowTX) => ContractId(c)
  }

  /** No later contract in `xs` has the id of `xs[i]`. */
  predicate LastWithId(xs: seq<EscrowTX>, i: int)
    requires 0 <= i < |xs|
  {
    LastWithKey(xs, ContractIdOf(), i)
  }

  /** `setContracts`: the cache is replaced, the error cleared, the selection kept. */
  function SetContracts(state: ContractState, xs: seq<EscrowTX>): (r: ContractState)
    ensures forall id :: id in r.contracts <==> exists i :: 0 <= i < |xs| && ContractId(xs[i]) == id
    ensures forall i :: 0 <= i < |xs| && LastWithId(xs, i) ==> r.contracts[ContractId(xs[i])] == xs[i]
    ensures r.error.None?
    ensures r.selectedContract == state.selectedContract && r.loading == state.loading
  {
    state.(contracts := IndexBy(xs, ContractIdOf()), error := None)
  }

  /** `addContract`: one entry is set; every other entry, and every other field, is kept. */
  function AddContract(state: ContractState, c: EscrowTX): (r: ContractState)
    ensures ContractId(c) in r.contracts && r.contracts[ContractId(c)] == c
    ensures forall id :: id != ContractId(c) ==> (id in r.contracts <==> id in state.contracts)
    ensures forall id :: id != ContractId(c) && id in state.contracts ==> r.contracts[id] == state.contracts[id]
    ensures r.selectedContract == state.selectedContract && r.loading == state.loading && r.error == state.error
  {
    state.(contracts := state.contracts[ContractId(c) := c])
  }

  function NotFound(contractId: string): string {
    "Contract not found: " + contractId
  }

  /** `selectContract`: a cached contract becomes the selection; an unknown id only records an error. */
  function SelectContract(state: ContractState, contractId: string): (r: ContractState)
    ensures contractId in state.contracts ==> r.selectedContract == Some(state.contracts[contractId]) && r.error == state.error
    ensures contractId !in state.contracts ==> r.selectedContract == state.selectedContract && r.error == Some(NotFound(contractId))
    ensures r.contracts == state.contracts && r.loading == state.loading
  {
    if contractId in state.contracts then state.(selectedContract := Some(state.contracts[contractId]))
    else state.(error := Some(NotFound(contractId)))
  }

  /** `clearContracts`: empties the cache and forgets the selection and the error; loading is kept. */
  function ClearContracts(state: ContractState): (r: ContractState)
    ensures |r.contracts| == 0 && r.selectedContract.None? && r.error.None?
    ensures r.loading == state.loading
  {
    state.(contracts := map[], selectedContract := None, error := None)
  }

  function SetLoading(state: ContractState, loading: bool): (r: ContractState)
    ensures r.loading == loading
    ensures r.contracts == state.contracts && r.selectedContract == state.selectedContract && r.error == state.error
  {
    state.(loading := loading)
  }

  function SetError(state: ContractState, error: Option<string>): (r: ContractState)
    ensures r.error == error
    ensures r.contracts == state.contracts && r.selectedContract == state.selectedContract && r.loading == state.loading
  {
    state.(error := error)
  }

  /** A contract just added can be selected by its id. */
  lemma AddThenSelect(state: ContractState, c: EscrowTX)
    ensures SelectContract(AddContract(state, c), ContractId(c)).selectedContract == Some(c)
  {
  }

  /** After a reload, every contract that is the last with its id can be selected by that id. */
  lemma SetThenSelect(state: ContractState, xs: seq<EscrowTX>, i: int)
    requires 0 <= i < |xs| && LastWithId(xs, i)
    ensures SelectContract(SetContracts(state, xs), ContractId(xs[i])).selectedContract == Some(xs[i])
  {
  }

  /** After a clear, every selection fails with the not-found error. */
  lemma ClearThenSelect(state: ContractState, contractId: string)
    ensures var r := SelectContract(ClearContracts(state), contractId);
            r.selectedContract.None? && r.error == Some(NotFound(contractId))
  {
  }

  /** Reloading replaces the cache: what was cached before has no influence on the new map. */
  lemma SetContractsForgetsOldCache(s1: ContractState, s2: ContractState, xs: seq<EscrowTX>)
    ensures SetContracts(s1, xs).contracts == SetContracts(s2, xs).contracts
  {
  }
}
