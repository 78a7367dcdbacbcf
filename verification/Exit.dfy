/** A full exit from the vault: the position, the request, and the Morpho adapter that
    simulates and builds it (internal/core/types.go, internal/withdraw/morpho_adapter.go). */
module Exit {
  import opened Wrappers
  import opened Ints

  type Address = x: int | 0 <= x < 0x1_00000000_00000000_00000000_00000000_00000000
  type Bytes = seq<bv8>

  const ZERO_ADDRESS: Address := 0

  datatype PositionSnapshot = PositionSnapshot(
    vault: Address, owner: Address, receiver: Address, shareBalance: Option<int>)

  datatype FullExitRequest = FullExitRequest(
    vault: Address, owner: Address, receiver: Address, shares: Option<int>)

  datatype TxCandidate = TxCandidate(to: Address, data: Bytes, value: Option<int>)

  datatype FullExitSimulation = FullExitSimulation(
    success: bool, expectedAssetUnits: Option<int>, gasUnits: uint64)

  /** Go hands back a simulation together with an error; both can be looked at. */
  datatype SimulationAnswer = SimulationAnswer(simulation: FullExitSimulation, failed: bool)

  const NO_SIMULATION := FullExitSimulation(false, None, 0)

  function RequestFor(position: PositionSnapshot): FullExitRequest {
    FullExitRequest(position.vault, position.owner, position.receiver, position.shareBalance)
  }

  datatype CallMsg = CallMsg(from: Address, to: Address, value: Option<int>, data: Bytes)

  /** One moment's answers of the chain and of the ABI encoder. */
  datatype Chain = Chain(
    balanceOf: Address -> Result<int, Unseen>,
    previewRedeem: int -> Result<int, Unseen>,
    packRedeem: (int, Address, Address) -> Result<Bytes, Unseen>,
    estimateGas: CallMsg -> Result<uint64, Unseen>)

  datatype AdapterError =
    | ZeroVault
    | VaultClientMismatch
    | RequestVaultMismatch
    | ZeroOwner
    | ZeroReceiver
    | InvalidShares
    | CallFailed

  datatype MorphoAdapter = MorphoAdapter(
    clientVault: Address, vault: Address, owner: Address, receiver: Address)
  {
    function ValidateVaultClient(): Option<AdapterError> {
      if vault == ZERO_ADDRESS then Some(ZeroVault)
      else if clientVault != vault then Some(VaultClientMismatch)
      else None
    }

    function ValidateRequest(req: FullExitRequest): Option<AdapterError> {
      match ValidateVaultClient()
      case Some(e) => Some(e)
      case None =>
        if req.vault == ZERO_ADDRESS then Some(ZeroVault)
        else if req.vault != vault then Some(RequestVaultMismatch)
        else if req.owner == ZERO_ADDRESS then Some(ZeroOwner)
        else if req.receiver == ZERO_ADDRESS then Some(ZeroReceiver)
        else if req.shares.None? || req.shares.value <= 0 then Some(InvalidShares)
        else None
    }

    function Position(chain: Chain): Result<PositionSnapshot, AdapterError> {
      match ValidateVaultClient()
      case Some(e) => Failure(e)
      case None =>
        match chain.balanceOf(owner)
        case Failure(_) => Failure(CallFailed)
        case Success(shares) => Success(PositionSnapshot(vault, owner, receiver, Some(shares)))
    }

    function BuildFullExit(chain: Chain, req: FullExitRequest): Result<TxCandidate, AdapterError> {
      match ValidateRequest(req)
      case Some(e) => Failure(e)
      case None =>
        match chain.packRedeem(req.shares.value, req.receiver, req.owner)
        case Failure(_) => Failure(CallFailed)
        case Success(data) => Success(TxCandidate(req.vault, data, Some(0)))
    }

    /** A failing gas estimate is an answer (the exit would revert), not an error. */
    function SimulateFullExit(chain: Chain, req: FullExitRequest): Result<FullExitSimulation, AdapterError> {
      match ValidateRequest(req)
      case Some(e) => Failure(e)
      case None =>
        match chain.previewRedeem(req.shares.value)
        case Failure(_) => Failure(CallFailed)
        case Success(expected) =>
          match BuildFullExit(chain, req)
          case Failure(e) => Failure(e)
          case Success(candidate) =>
            match chain.estimateGas(CallMsg(req.owner, candidate.to, candidate.value, candidate.data))
            case Failure(_) => Success(FullExitSimulation(false, Some(expected), 0))
            case Success(gas) => Success(FullExitSimulation(true, Some(expected), gas))
    }
  }

  /** A simulation succeeds exactly when the transaction that BuildFullExit would return for
      the same request has a gas estimate, and it reports that estimate. */
  lemma SimulationEstimatesTheBuiltTransaction(adapter: MorphoAdapter, chain: Chain, req: FullExitRequest, gas: uint64)
    ensures (adapter.SimulateFullExit(chain, req).Success?
             && adapter.SimulateFullExit(chain, req).value.success
             && adapter.SimulateFullExit(chain, req).value.gasUnits == gas)
       <==> (&& adapter.BuildFullExit(chain, req).Success?
             && req.shares.Some? && req.shares.value > 0
             && chain.previewRedeem(req.shares.value).Success?
             && var tx := adapter.BuildFullExit(chain, req).value;
                && tx.to == adapter.vault == req.vault
                && tx.value == Some(0)
                && chain.packRedeem(req.shares.value, req.receiver, req.owner) == Success(tx.data)
                && chain.estimateGas(CallMsg(req.owner, tx.to, tx.value, tx.data)) == Success(gas))
  {
  }

  /** The position is all the owner's shares, as long as the adapter talks to its own vault. */
  lemma PositionExactlyWhen(adapter: MorphoAdapter, chain: Chain, position: PositionSnapshot)
    ensures adapter.Position(chain) == Success(position) <==>
            && adapter.vault != 0 && adapter.clientVault == adapter.vault
            && position.vault == adapter.vault && position.owner == adapter.owner
                 && position.receiver == adapter.receiver
            && position.shareBalance.Some? && chain.balanceOf(adapter.owner) == Success(position.shareBalance.value)
  {
  }

  /** A request that the adapter can serve: for its own vault, from somebody to somebody, of
      something. */
  predicate Servable(adapter: MorphoAdapter, req: FullExitRequest) {
    && adapter.vault != 0 && adapter.clientVault == adapter.vault && req.vault == adapter.vault
    && req.owner != 0 && req.receiver != 0
    && req.shares.Some? && req.shares.value > 0
  }

  lemma BuildsExactlyWhen(adapter: MorphoAdapter, chain: Chain, req: FullExitRequest, tx: TxCandidate)
    ensures adapter.BuildFullExit(chain, req) == Success(tx) <==>
            && Servable(adapter, req)
            && chain.packRedeem(req.shares.value, req.receiver, req.owner) == Success(tx.data)
            && tx.to == req.vault && tx.value == Some(0)
  {
  }

  /** A simulation that comes back says what the redemption is expected to yield; it is a
      success with the estimated gas, or a failure without gas if the estimate fails. */
  lemma SimulatesExactlyWhen(adapter: MorphoAdapter, chain: Chain, req: FullExitRequest, simulation: FullExitSimulation)
    ensures adapter.SimulateFullExit(chain, req) == Success(simulation) <==>
            && Servable(adapter, req)
            && simulation.expectedAssetUnits.Some?
            && chain.previewRedeem(req.shares.value) == Success(simulation.expectedAssetUnits.value)
            && chain.packRedeem(req.shares.value, req.receiver, req.owner).Success?
            && var data := chain.packRedeem(req.shares.value, req.receiver, req.owner).value;
               var estimate := chain.estimateGas(CallMsg(req.owner, req.vault, Some(0), data));
               && (simulation.success <==> estimate.Success?)
               && simulation.gasUnits == (if estimate.Success? then estimate.value else 0)
  {
  }
}
