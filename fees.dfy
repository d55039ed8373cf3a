/**
 * Fee escalation and transaction building (src/ParallelSigner.ts:486-569):
 * the fee fields of the next attempt at a nonce, from the encoder's proposal
 * and the latest attempt already recorded at that nonce.
 */
module Fees {
  import opened Records

  /** The three optional fee fields of a proposal or of a built transaction. */
  datatype FeeFields = FeeFields(
    maxFeePerGas: Option<nat>,
    maxPriorityFeePerGas: Option<nat>,
    gasPrice: Option<nat>)

  /** Both fields of the dynamic (base/priority) scheme are present. */
  predicate HasDynamic(f: FeeFields)
  {
    f.maxFeePerGas.Some? && f.maxPriorityFeePerGas.Some?
  }

  /** The proposal names a usable scheme: the dynamic pair, or else a legacy gas price. */
  predicate HasScheme(f: FeeFields)
  {
    HasDynamic(f) || f.gasPrice.Some?
  }

  /** The fees carry exactly one scheme: the dynamic pair alone, or a gas price alone. */
  predicate OneScheme(f: FeeFields)
  {
    (HasDynamic(f) && f.gasPrice.None?)
    || (f.maxFeePerGas.None? && f.maxPriorityFeePerGas.None? && f.gasPrice.Some?)
  }

  /** `getFinalPrice`: take the bumped previous price, but never more than four times the proposed one. */
  function FinalPrice(current: nat, next: nat): (price: nat)
    ensures next <= current ==> price == current
    ensures current <= price <= 4 * current
    ensures price <= if next > current then next else current
    ensures price >= next <==> next <= 4 * current
    ensures price == current || price == next || price == 4 * current
    ensures current < next <= 4 * current ==> price == next
    ensures next > 4 * current ==> price == 4 * current
  {
    if next > current then
      var capped := current * 4;
      if capped > next then next else capped
    else current
  }

  /** A previous fee raised by ten percent, with BigInt (truncating) division. */
  function Bumped(previous: nat): (next: nat)
    ensures 100 * next <= 110 * previous < 100 * next + 100
  {
    previous * 110 / 100
  }

  /** A stored fee field as BigInt reads it: the empty string (absent) reads as 0. */
  function StoredFee(f: Option<nat>): nat
  {
    f.GetOr(0)
  }

  /**
   * The first attempt at a nonce AS WRITTEN (lines 518-526): the dynamic pair when
   * both are present, otherwise whatever gas price was proposed. The guard
   * `notNil(gasPrice) != null` compares a boolean with null, so it always holds and
   * the "gas price error" branch cannot be taken.
   */
  function FirstAttemptFeesAsWritten(proposed: FeeFields): (fees: FeeFields)
    ensures HasDynamic(proposed) ==> fees == FeeFields(proposed.maxFeePerGas, proposed.maxPriorityFeePerGas, None)
    ensures !HasDynamic(proposed) ==> fees.gasPrice == proposed.gasPrice && !HasDynamic(fees)
    ensures !HasDynamic(proposed) ==> fees.maxFeePerGas.None? && fees.maxPriorityFeePerGas.None?
  {
    if HasDynamic(proposed) then FeeFields(proposed.maxFeePerGas, proposed.maxPriorityFeePerGas, None)
    else FeeFields(None, None, proposed.gasPrice)
  }

  /**
   * Every proposal with neither scheme passes the first-attempt branch as written,
   * with no fee set, where the intended branch refuses it.
   */
  lemma FirstAttemptErrorUnreachable(proposed: FeeFields)
    requires !HasScheme(proposed)
    ensures FirstAttemptFeesAsWritten(proposed) == FeeFields(None, None, None)
    ensures !HasScheme(FirstAttemptFeesAsWritten(proposed))
    ensures FirstAttemptFees(proposed) == Failure(GasPriceError)
  {
  }

  /**
   * The first attempt at a nonce as evidently intended: the proposed fees are copied
   * unchanged, and a proposal with neither scheme is the "gas price error".
   */
  function FirstAttemptFees(proposed: FeeFields): (r: Result<FeeFields, Error>)
    ensures r.Failure? <==> !HasScheme(proposed)
    ensures r.Success? ==> r.value == FirstAttemptFeesAsWritten(proposed) && OneScheme(r.value)
  {
    if HasDynamic(proposed) then Success(FeeFields(proposed.maxFeePerGas, proposed.maxPriorityFeePerGas, None))
    else if proposed.gasPrice.Some? then Success(FeeFields(None, None, proposed.gasPrice))
    else Failure(GasPriceError)
  }

  /** A repack at a nonce that already has an attempt (lines 529-554). */
  function RepackFees(proposed: FeeFields, previous: PackedTransaction): (r: Result<FeeFields, Error>)
    ensures r.Failure? <==> !HasScheme(proposed)
    ensures r.Failure? ==> r.error == GasPriceError
    ensures HasDynamic(proposed) ==> r == Success(FeeFields(
      Some(FinalPrice(proposed.maxFeePerGas.value, Bumped(StoredFee(previous.maxFeePerGas)))),
      Some(FinalPrice(proposed.maxPriorityFeePerGas.value, Bumped(StoredFee(previous.maxPriorityFeePerGas)))),
      None))
    ensures !HasDynamic(proposed) && proposed.gasPrice.Some? ==> r == Success(FeeFields(
      None, None, Some(FinalPrice(proposed.gasPrice.value, Bumped(StoredFee(previous.gasPrice))))))
  {
    if HasDynamic(proposed) then
      var maxFee := FinalPrice(proposed.maxFeePerGas.value, Bumped(StoredFee(previous.maxFeePerGas)));
      var priorityFee := FinalPrice(proposed.maxPriorityFeePerGas.value, Bumped(StoredFee(previous.maxPriorityFeePerGas)));
      Success(FeeFields(Some(maxFee), Some(priorityFee), None))
    else if proposed.gasPrice.Some? then
      Success(FeeFields(None, None, Some(FinalPrice(proposed.gasPrice.value, Bumped(StoredFee(previous.gasPrice))))))
    else Failure(GasPriceError)
  }

  /** A fee field that is set lies between the proposed value and four times it. */
  ghost predicate WithinCapField(proposed: Option<nat>, fee: Option<nat>)
  {
    fee.Some? ==> proposed.Some? && proposed.value <= fee.value <= 4 * proposed.value
  }

  /** Each field of `fees` is capped by the proposal in this way. */
  ghost predicate WithinCap(proposed: FeeFields, fees: FeeFields)
  {
    && WithinCapField(proposed.maxFeePerGas, fees.maxFeePerGas)
    && WithinCapField(proposed.maxPriorityFeePerGas, fees.maxPriorityFeePerGas)
    && WithinCapField(proposed.gasPrice, fees.gasPrice)
  }

  /** A field clears the ten-percent replacement bump over `previous` unless the cap stops it. */
  ghost predicate ClearsBump(proposed: Option<nat>, fee: Option<nat>, previous: Option<nat>)
  {
    fee.Some? && proposed.Some? ==>
      (fee.value >= Bumped(StoredFee(previous)) <==> Bumped(StoredFee(previous)) <= 4 * proposed.value)
  }

  /**
   * The fee fields of the next attempt, given the latest attempt already recorded at
   * its nonce: the proposal as-is for a first attempt, otherwise each field of the
   * chosen scheme escalated with `FinalPrice` against the bumped previous field.
   */
  function EscalateFees(proposed: FeeFields, previous: Option<PackedTransaction>): (r: Result<FeeFields, Error>)
    ensures r.Failure? <==> !HasScheme(proposed)
    ensures r.Success? ==> OneScheme(r.value) && (HasDynamic(r.value) <==> HasDynamic(proposed))
    ensures r.Success? ==> WithinCap(proposed, r.value)
    ensures r.Success? && previous.None? ==>
      (HasDynamic(proposed) ==> r.value.maxFeePerGas == proposed.maxFeePerGas
                                && r.value.maxPriorityFeePerGas == proposed.maxPriorityFeePerGas)
      && (!HasDynamic(proposed) ==> r.value.gasPrice == proposed.gasPrice)
    ensures r.Success? && previous.Some? ==>
      && ClearsBump(proposed.maxFeePerGas, r.value.maxFeePerGas, previous.value.maxFeePerGas)
      && ClearsBump(proposed.maxPriorityFeePerGas, r.value.maxPriorityFeePerGas, previous.value.maxPriorityFeePerGas)
      && ClearsBump(proposed.gasPrice, r.value.gasPrice, previous.value.gasPrice)
    ensures r.Success? && previous.Some? ==>
      && (r.value.maxFeePerGas.Some? ==>
            r.value.maxFeePerGas.value == FinalPrice(proposed.maxFeePerGas.value, Bumped(StoredFee(previous.value.maxFeePerGas))))
      && (r.value.maxPriorityFeePerGas.Some? ==>
            r.value.maxPriorityFeePerGas.value
            == FinalPrice(proposed.maxPriorityFeePerGas.value, Bumped(StoredFee(previous.value.maxPriorityFeePerGas))))
      && (r.value.gasPrice.Some? ==>
            r.value.gasPrice.value == FinalPrice(proposed.gasPrice.value, Bumped(StoredFee(previous.value.gasPrice))))
  {
    if previous.None? then FirstAttemptFees(proposed) else RepackFees(proposed, previous.value)
  }

  /** What the caller's encoding callback returns for a batch. */
  datatype PopulateResult = PopulateResult(
    to: string, data: string, value: Option<nat>, gasLimit: nat, fees: FeeFields)

  /** The transaction handed to signing and broadcast. */
  datatype TxRequest = TxRequest(
    to: string, data: string, gasLimit: nat, nonce: int, value: Option<nat>, chainId: int, fees: FeeFields)

  /**
   * `buildTransactionRequest`: the encoder's call at `nonce`, with the fees escalated
   * against `previous`, the latest attempt recorded at that nonce.
   */
  function BuildTransactionRequest(param: PopulateResult, nonce: int, chainId: int, previous: Option<PackedTransaction>)
    : (r: Result<TxRequest, Error>)
    ensures r.Failure? <==> !HasScheme(param.fees)
    ensures r.Success? ==>
      && r.value.to == param.to && r.value.data == param.data && r.value.value == param.value
      && r.value.gasLimit == param.gasLimit && r.value.nonce == nonce && r.value.chainId == chainId
      && EscalateFees(param.fees, previous) == Success(r.value.fees)
  {
    match EscalateFees(param.fees, previous)
    case Failure(e) => Failure(e)
    case Success(fees) => Success(TxRequest(param.to, param.data, param.gasLimit, nonce, param.value, chainId, fees))
  }

  /** The gas-limit safety margin: `gasLimit * 15 / 10` in BigInt arithmetic. */
  function GasWithMargin(gasLimit: nat): (g: nat)
    ensures gasLimit <= g
    ensures 10 * g <= 15 * gasLimit < 10 * g + 10
  {
    gasLimit * 15 / 10
  }
}
