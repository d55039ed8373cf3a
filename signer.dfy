/**
 * The parallel signer (src/ParallelSigner.ts:106-705): options, the repack cycle
 * (batch selection, fee escalation, assembly and recording of one attempt), the
 * `repacking` exclusion flag, and the reconciliation cycle over the store.
 *
 * Signing is the function `txHashOf` from the built transaction to its hash, and
 * the caller's encoding callback is the function `populateFun`; the ledger's nonce
 * and receipts and the clock are parameters of each cycle.
 */
module Signer {
  import opened Records
  import opened RequestStore
  import opened Fees
  import opened Selection
  import opened Reconcile
  import Timer

  // ---------------------------------------------------------------- options

  /** The options a caller passes; `None` is a key left out. */
  datatype PartialOptions = PartialOptions(
    requestCountLimit: Option<nat>,
    delayedSecond: Option<nat>,
    checkPackedTransactionIntervalSecond: Option<nat>,
    confirmations: Option<nat>,
    layer1ChainId: Option<int>)

  datatype SignerOptions = SignerOptions(
    requestCountLimit: nat,
    delayedSecond: nat,
    checkPackedTransactionIntervalSecond: nat,
    confirmations: nat,
    layer1ChainId: int)

  /** The defaults the constructor spreads the caller's options over. */
  const DEFAULT_OPTIONS := SignerOptions(10, 0, 60, 64, 0)

  /**
   * The constructor's option handling: a missing or zero `layer1ChainId` is
   * refused, and every other option left out takes its default.
   */
  function ResolveOptions(given: PartialOptions): (r: Result<SignerOptions, Error>)
    ensures r.Failure? <==> given.layer1ChainId.GetOr(0) == 0
    ensures r.Failure? ==> r.error == ChainIdRequired
    ensures r.Success? ==>
      && r.value.layer1ChainId == given.layer1ChainId.value != 0
      && (given.requestCountLimit.Some? ==> r.value.requestCountLimit == given.requestCountLimit.value)
      && (given.requestCountLimit.None? ==> r.value.requestCountLimit == DEFAULT_OPTIONS.requestCountLimit)
      && (given.delayedSecond.Some? ==> r.value.delayedSecond == given.delayedSecond.value)
      && (given.delayedSecond.None? ==> r.value.delayedSecond == DEFAULT_OPTIONS.delayedSecond)
      && (given.checkPackedTransactionIntervalSecond.Some? ==>
            r.value.checkPackedTransactionIntervalSecond == given.checkPackedTransactionIntervalSecond.value)
      && (given.checkPackedTransactionIntervalSecond.None? ==>
            r.value.checkPackedTransactionIntervalSecond == DEFAULT_OPTIONS.checkPackedTransactionIntervalSecond)
      && (given.confirmations.Some? ==> r.value.confirmations == given.confirmations.value)
      && (given.confirmations.None? ==> r.value.confirmations == DEFAULT_OPTIONS.confirmations)
  {
    if given.layer1ChainId.GetOr(0) == 0 then Failure(ChainIdRequired)
    else Success(SignerOptions(
      given.requestCountLimit.GetOr(DEFAULT_OPTIONS.requestCountLimit),
      given.delayedSecond.GetOr(DEFAULT_OPTIONS.delayedSecond),
      given.checkPackedTransactionIntervalSecond.GetOr(DEFAULT_OPTIONS.checkPackedTransactionIntervalSecond),
      given.confirmations.GetOr(DEFAULT_OPTIONS.confirmations),
      given.layer1ChainId.value))
  }

  /** Only a chain id given: a limit of 10 requests per attempt, no delay, a threshold of 64 blocks. */
  lemma DefaultsApply(chainId: int)
    requires chainId != 0
    ensures ResolveOptions(PartialOptions(None, None, None, None, Some(chainId)))
            == Success(DEFAULT_OPTIONS.(layer1ChainId := chainId))
    ensures DEFAULT_OPTIONS.requestCountLimit == 10 && DEFAULT_OPTIONS.confirmations == 64
  {
  }

  // ---------------------------------------------------------------- assembly helpers

  /**
   * The request ids an attempt records, in batch order; a request whose id is
   * missing or 0 is the "request id has not been assigned" error.
   */
  function AssignedIds(rs: seq<Request>): (r: Result<seq<int>, Error>)
    ensures r.Failure? <==> exists i :: 0 <= i < |rs| && rs[i].id.GetOr(0) == 0
    ensures r.Failure? ==> r.error == RequestIdNotAssigned
    ensures r.Success? ==> r.value == Ids(rs) && forall k :: 0 <= k < |rs| ==> r.value[k] != 0
  {
    if rs == [] then Success([])
    else if rs[0].id.GetOr(0) == 0 then Failure(RequestIdNotAssigned)
    else
      match AssignedIds(rs[1..])
      case Failure(e) =>
        assert exists i :: 0 <= i < |rs| && rs[i].id.GetOr(0) == 0 by {
          var i :| 0 <= i < |rs[1..]| && rs[1..][i].id.GetOr(0) == 0;
          assert rs[i + 1] == rs[1..][i];
        }
        Failure(e)
      case Success(ids) =>
        assert forall i :: 0 < i < |rs| ==> rs[i] == rs[1..][i - 1];
        Success([rs[0].id.value] + ids)
  }

  /** The row recorded for a sent transaction: confirmation 0 and the fee fields it was built with. */
  function AttemptRecord(tx: TxRequest, hash: Hash, ids: seq<int>): (p: PackedTransaction)
    ensures p.nonce == tx.nonce && p.transactionHash == hash && p.requestIds == ids && p.confirmation == 0
    ensures p.maxFeePerGas == tx.fees.maxFeePerGas && p.maxPriorityFeePerGas == tx.fees.maxPriorityFeePerGas
    ensures p.gasPrice == tx.fees.gasPrice
  {
    PackedTransaction(0, tx.nonce, hash, tx.fees.maxFeePerGas, tx.fees.maxPriorityFeePerGas, tx.fees.gasPrice, ids, 0, None)
  }

  /** The latest attempt of all, `getLatestPackedTransaction(chainId)`. */
  function Latest(atts: seq<PackedTransaction>): Option<PackedTransaction>
  {
    Highest(atts, AnyAttempt)
  }

  /**
   * What `getRepackRequests` promises, with `floor` the cycle's decision:
   *  - no attempt yet: select from id 1;
   *  - the latest attempt is at the ledger nonce: repack it from its lowest id
   *    when new data arrived or it timed out, otherwise wait;
   *  - the ledger nonce moved: start above the newest landed attempt below it
   *    (or from id 1), as found by the backward walk.
   */
  ghost predicate FloorSpec(floor: Floor, reqs: seq<Request>, atts: seq<PackedTransaction>,
                            nonce: int, receipts: Receipts, now: int, timeoutMs: int, limit: nat)
  {
    && (Latest(atts).None? ==> floor == From(0))
    && (Latest(atts).Some? && Latest(atts).value.nonce == nonce && |Latest(atts).value.requestIds| > 0 ==>
          var latest := Latest(atts).value;
          && (NewDataArrived(latest, reqs, limit) ==> floor == From(Min(latest.requestIds) - 1))
          && (!NewDataArrived(latest, reqs, limit) && TimedOut(latest, now, timeoutMs) ==> floor == From(Min(latest.requestIds) - 1))
          && (!NewDataArrived(latest, reqs, limit) && !TimedOut(latest, now, timeoutMs) ==> floor == Wait))
    && (Latest(atts).Some? && Latest(atts).value.nonce != nonce ==>
          && floor.From? && FloorJustified(floor.minimalId, atts, nonce, receipts)
          && (NoncesMonotone(atts) ==> FloorIsNewestLanded(floor.minimalId, atts, nonce, receipts)))
  }

  /** The batch is the store's selection from `floor + 1`, or empty on `Wait`. */
  ghost predicate BatchOf(batch: seq<Request>, floor: Floor, reqs: seq<Request>, limit: nat)
  {
    && (floor.Wait? ==> batch == [])
    && (floor.From? ==> batch == RequestsFrom(reqs, floor.minimalId + 1, limit))
  }

  /** What `getRepackRequests` promises: the decision and the batch it selects. */
  ghost predicate SelectionSpec(batch: seq<Request>, floor: Floor, reqs: seq<Request>, atts: seq<PackedTransaction>,
                                nonce: int, receipts: Receipts, now: int, timeoutMs: int, limit: nat)
  {
    FloorSpec(floor, reqs, atts, nonce, receipts, now, timeoutMs, limit) && BatchOf(batch, floor, reqs, limit)
  }

  /** A non-empty batch the selector returns would make a contiguous attempt. */
  lemma SelectedContiguous(batch: seq<Request>, floor: Floor, reqs: seq<Request>, atts: seq<PackedTransaction>,
                           nonce: int, receipts: Receipts, now: int, timeoutMs: int, limit: nat)
    requires RequestsValid(reqs) && batch != []
    requires SelectionSpec(batch, floor, reqs, atts, nonce, receipts, now, timeoutMs, limit)
    ensures Ids(batch) == Ids(RequestsFrom(reqs, Min(Ids(batch)), |batch|))
  {
    NewBatchContiguous(reqs, floor.minimalId + 1, limit);
  }

  /**
   * When the latest attempt is at the ledger nonce, the repack re-selects its
   * requests: exactly them again after a timeout with no new data (a pure fee bump),
   * and them first, in order, when new data arrived; otherwise it waits.
   */
  lemma SameNonceRepack(batch: seq<Request>, floor: Floor, reqs: seq<Request>, atts: seq<PackedTransaction>,
                        nonce: int, receipts: Receipts, now: int, timeoutMs: int, limit: nat)
    requires RequestsValid(reqs) && AllContiguous(atts, reqs) && AttemptsWithin(atts, limit)
    requires SelectionSpec(batch, floor, reqs, atts, nonce, receipts, now, timeoutMs, limit)
    requires Latest(atts).Some? && Latest(atts).value.nonce == nonce
    ensures var latest := Latest(atts).value;
            && |latest.requestIds| > 0
            && (NewDataArrived(latest, reqs, limit) ==> latest.requestIds <= Ids(batch))
            && (!NewDataArrived(latest, reqs, limit) && TimedOut(latest, now, timeoutMs) ==> Ids(batch) == latest.requestIds)
            && (!NewDataArrived(latest, reqs, limit) && !TimedOut(latest, now, timeoutMs) ==> batch == [])
  {
    var latest := Latest(atts).value;
    assert latest in atts;
    if NewDataArrived(latest, reqs, limit) {
      RepackCarriesPrevious(reqs, latest, limit);
    } else if TimedOut(latest, now, timeoutMs) {
      FeeBumpKeepsSet(reqs, latest, limit);
    }
  }

  /** Requests drawn from a valid table all carry assigned ids, so the id check never fails on them. */
  lemma StoredIdsAssigned(batch: seq<Request>, reqs: seq<Request>)
    requires RequestsValid(reqs) && forall x :: x in batch ==> x in reqs
    ensures AssignedIds(batch).Success?
  {
    forall i | 0 <= i < |batch| ensures batch[i].id.GetOr(0) != 0 {
      assert batch[i] in reqs;
    }
  }

  /** The outcome of one `rePackedTransaction` call. */
  datatype RepackResult =
    | Busy                          // another repack holds the flag; nothing was done
    | Repacked(sent: Option<TxRequest>) // the cycle ran; `None` when there was nothing to send
    | Failed(error: Error)          // the cycle threw; nothing was recorded

  class ParallelSigner {
    const store: Store
    const timer: Timer.TimeoutTable
    const options: SignerOptions
    const populateFun: seq<Request> -> PopulateResult
    const txHashOf: TxRequest -> Hash
    var repacking: bool

    /**
     * The store is valid, and every recorded attempt carries a contiguous run of at
     * most `requestCountLimit` requests, as the repack cycle records them.
     */
    ghost predicate Valid()
      reads store
    {
      && store.Valid()
      && AllContiguous(store.attempts, store.requests)
      && AttemptsWithin(store.attempts, options.requestCountLimit)
    }

    function ChainId(): int
    {
      options.layer1ChainId
    }

    /**
     * The transaction `sendPackedTransaction` broadcasts for `requests` at `nonce`
     * over the attempts `atts`: built with fees escalated over the latest attempt at
     * that nonce and its gas limit widened, or the build's error.
     */
    function PackedTx(requests: seq<Request>, nonce: int, atts: seq<PackedTransaction>): (r: Result<TxRequest, Error>)
      ensures r.Failure? <==> !HasScheme(populateFun(requests).fees)
      ensures r.Success? ==> r.value.nonce == nonce && r.value.chainId == ChainId()
    {
      var built := BuildTransactionRequest(populateFun(requests), nonce, ChainId(), Highest(atts, AtNonce(nonce)));
      if built.Failure? then Failure(built.error) else Success(built.value.(gasLimit := GasWithMargin(built.value.gasLimit)))
    }

    /** The attempt row `sendPackedTransaction` appends to `atts` for `tx`, sent for `requests`. */
    function SentRecord(tx: TxRequest, requests: seq<Request>, atts: seq<PackedTransaction>, now: int): (p: PackedTransaction)
      ensures p.id == NextAttemptId(atts) && p.nonce == tx.nonce && p.requestIds == Ids(requests)
      ensures p.confirmation == 0 && p.transactionHash == txHashOf(tx) && p.createdAt == Some(now)
    {
      AttemptRecord(tx, txHashOf(tx), Ids(requests)).(id := NextAttemptId(atts), createdAt := Some(now))
    }

    constructor (store: Store, timer: Timer.TimeoutTable, options: SignerOptions,
                 populateFun: seq<Request> -> PopulateResult, txHashOf: TxRequest -> Hash)
      requires options.layer1ChainId != 0
      ensures this.store == store && this.timer == timer && this.options == options
      ensures this.populateFun == populateFun && this.txHashOf == txHashOf
      ensures !repacking
    {
      this.store := store;
      this.timer := timer;
      this.options := options;
      this.populateFun := populateFun;
      this.txHashOf := txHashOf;
      repacking := false;
    }

    // ------------------------------------------------------------ the repack cycle

    /** `getRepackRequests(currentNonce)`: decide where the next batch starts and select it. */
    method GetRepackRequests(currentNonce: int, receipts: Receipts, now: int) returns (batch: seq<Request>, ghost floor: Floor)
      requires Valid()
      ensures FloorSpec(floor, store.requests, store.attempts, currentNonce, receipts, now,
                        timer.GetTimeout(Some(ChainId())), options.requestCountLimit)
      ensures BatchOf(batch, floor, store.requests, options.requestCountLimit)
      ensures |batch| <= options.requestCountLimit && forall x :: x in batch ==> x in store.requests
      ensures batch != [] ==> Ids(batch) == Ids(RequestsFrom(store.requests, Min(Ids(batch)), |batch|))
      ensures Latest(store.attempts).Some? && Latest(store.attempts).value.nonce == currentNonce ==>
        var latest := Latest(store.attempts).value;
        && |latest.requestIds| > 0
        && (NewDataArrived(latest, store.requests, options.requestCountLimit) ==> latest.requestIds <= Ids(batch))
        && ((!NewDataArrived(latest, store.requests, options.requestCountLimit) &&
             TimedOut(latest, now, timer.GetTimeout(Some(ChainId())))) ==> Ids(batch) == latest.requestIds)
        && ((!NewDataArrived(latest, store.requests, options.requestCountLimit) &&
             !TimedOut(latest, now, timer.GetTimeout(Some(ChainId())))) ==> batch == [])
    {
      batch, floor := SelectBatch(currentNonce, receipts, now);
      if Latest(store.attempts).Some? && Latest(store.attempts).value.nonce == currentNonce {
        SameNonceRepack(batch, floor, store.requests, store.attempts, currentNonce, receipts, now,
                        timer.GetTimeout(Some(ChainId())), options.requestCountLimit);
      }
      if batch != [] {
        SelectedContiguous(batch, floor, store.requests, store.attempts, currentNonce, receipts, now,
                           timer.GetTimeout(Some(ChainId())), options.requestCountLimit);
      }
    }

    /** The selection itself: the floor `getRepackRequests` decides and the requests above it. */
    method SelectBatch(currentNonce: int, receipts: Receipts, now: int) returns (batch: seq<Request>, ghost floor: Floor)
      requires Valid()
      ensures FloorSpec(floor, store.requests, store.attempts, currentNonce, receipts, now,
                        timer.GetTimeout(Some(ChainId())), options.requestCountLimit)
      ensures BatchOf(batch, floor, store.requests, options.requestCountLimit)
      ensures |batch| <= options.requestCountLimit && forall x :: x in batch ==> x in store.requests
    {
      var reqs := store.requests;
      var atts := store.attempts;
      var latestPackedTx := Latest(atts);
      var decided := From(0);
      if latestPackedTx.Some? {
        var latest := latestPackedTx.value;
        assert latest in atts;
        if currentNonce == latest.nonce {
          decided := SameNonceFloor(latest, reqs, now);
        } else {
          var minimalId := Walk(atts, currentNonce, receipts, latest);
          decided := From(minimalId);
        }
      }
      floor := decided;
      if decided.Wait? {
        return [], floor;
      }
      batch := RequestsFrom(reqs, decided.minimalId + 1, options.requestCountLimit);
    }

    /**
     * The branch of `getRepackRequests` where the ledger nonce has not moved past the
     * latest attempt: re-select from its lowest request id when newer requests arrived
     * and it has room, or when it timed out; otherwise wait.
     */
    method SameNonceFloor(latest: PackedTransaction, reqs: seq<Request>, now: int) returns (floor: Floor)
      requires |latest.requestIds| > 0
      ensures NewDataArrived(latest, reqs, options.requestCountLimit) ==> floor == From(Min(latest.requestIds) - 1)
      ensures !NewDataArrived(latest, reqs, options.requestCountLimit) ==>
        floor == if TimedOut(latest, now, timer.GetTimeout(Some(ChainId()))) then From(Min(latest.requestIds) - 1) else Wait
    {
      var limit := options.requestCountLimit;
      var maxid := Max(latest.requestIds);
      var rqx := RequestsFrom(reqs, maxid + 1, limit);
      if |latest.requestIds| < limit {
        if |rqx| > 0 {
          assert rqx[0] in reqs && rqx[0].id.value > maxid;
        } else {
          assert forall r :: r in reqs && r.id.Some? ==> r.id.value <= maxid;
        }
      }
      if |latest.requestIds| < limit && |rqx| > 0 {
        return From(Min(latest.requestIds) - 1);
      }
      var gapTime := now - latest.createdAt.GetOr(0);
      if gapTime > timer.GetTimeout(Some(ChainId())) {
        return From(Min(latest.requestIds) - 1);
      }
      return Wait;
    }

    /**
     * The backward walk of `getRepackRequests` when the ledger nonce has moved:
     * from the latest attempt down, skip attempts at or above the ledger nonce; at
     * the first nonce below it scan the siblings, stopping at the first with a
     * receipt and taking the highest request id it carried; 0 when none landed.
     */
    method Walk(atts: seq<PackedTransaction>, currentNonce: int, receipts: Receipts, latest: PackedTransaction)
      returns (minimalId: int)
      requires AttemptsValid(atts) && Latest(atts) == Some(latest)
      ensures FloorJustified(minimalId, atts, currentNonce, receipts)
      ensures FloorFromFirstLanded(minimalId, atts, currentNonce, receipts)
      ensures NoncesMonotone(atts) ==> FloorIsNewestLanded(minimalId, atts, currentNonce, receipts)
    {
      assert latest in atts;
      var lastCheckedId := latest.id + 1;
      minimalId := 0;
      assert forall q :: q in atts ==> q.id < lastCheckedId;
      while true
        invariant lastCheckedId > 0 && minimalId == 0
        invariant NoncesMonotone(atts) ==> NoLandingFrom(atts, currentNonce, receipts, lastCheckedId)
        decreases lastCheckedId
      {
        var packedTx := Highest(atts, IdBelow(lastCheckedId));
        if packedTx.None? {
          if NoncesMonotone(atts) { ExhaustedMeansNone(atts, currentNonce, receipts, lastCheckedId); }
          return;
        }
        var next := packedTx.value;
        if next.nonce >= currentNonce {
          if NoncesMonotone(atts) { SkipKeepsNoLanding(atts, currentNonce, receipts, lastCheckedId, next); }
          lastCheckedId := next.id;
          continue;
        }
        var latestCheckedPackedTxs := Siblings(atts, next.nonce);
        SiblingIdsPositive(atts, next.nonce);
        ghost var cursor0 := lastCheckedId;
        var found;
        lastCheckedId, found := ScanSiblings(latestCheckedPackedTxs, lastCheckedId, receipts);
        if found.Some? {
          FoundFloor(atts, currentNonce, receipts, cursor0, next, found.value);
          minimalId := Max(found.value.requestIds);
          return;
        }
        ScanFloor(atts, currentNonce, receipts, cursor0, next, lastCheckedId);
      }
    }

    /**
     * The scan over the siblings at one nonce in `getRepackRequests`: the cursor
     * is lowered to each sibling id in turn, and the scan stops at the first
     * sibling with a receipt.
     */
    method ScanSiblings(sibs: seq<PackedTransaction>, cursor: int, receipts: Receipts)
      returns (lastCheckedId: int, found: Option<PackedTransaction>)
      requires cursor > 0 && forall j :: 0 <= j < |sibs| ==> sibs[j].id > 0
      ensures found.Some? ==> found.value in sibs && FirstLanded(found.value, sibs, receipts)
      ensures found.None? ==> forall p :: p in sibs ==> !Landed(p, receipts)
      ensures found.None? ==>
        && 0 < lastCheckedId <= cursor && (forall p :: p in sibs ==> lastCheckedId <= p.id)
        && (lastCheckedId == cursor || exists p :: p in sibs && p.id == lastCheckedId)
    {
      lastCheckedId := cursor;
      var k := 0;
      while k < |sibs|
        invariant 0 <= k <= |sibs|
        invariant 0 < lastCheckedId <= cursor
        invariant lastCheckedId == cursor || exists j :: 0 <= j < k && sibs[j].id == lastCheckedId
        invariant forall j :: 0 <= j < k ==> lastCheckedId <= sibs[j].id
        invariant forall j :: 0 <= j < k ==> !Landed(sibs[j], receipts)
        decreases |sibs| - k
      {
        var p := sibs[k];
        lastCheckedId := if p.id < lastCheckedId then p.id else lastCheckedId;
        if p.transactionHash in receipts {
          return lastCheckedId, Some(p);
        }
        k := k + 1;
      }
      found := None;
    }

    /**
     * `sendPackedTransaction(requests, nonce)` up to broadcast: build the transaction
     * with escalated fees, widen its gas limit, hash it, check the request ids and
     * record exactly one attempt with confirmation 0. Every error leaves the store
     * as it was.
     */
    method SendPackedTransaction(requests: seq<Request>, nonce: int, now: int)
      returns (res: Result<Option<TxRequest>, Error>)
      requires store.Valid()
      requires forall r :: r in requests && r.id.Some? ==> r.id.value >= 0
      modifies store
      ensures store.Valid()
      ensures store.requests == old(store.requests)
      ensures requests == [] ==> res == Success(None) && store.attempts == old(store.attempts)
      ensures requests != [] ==>
        var built := BuildTransactionRequest(populateFun(requests), nonce, ChainId(), Highest(old(store.attempts), AtNonce(nonce)));
        && (built.Failure? ==> res == Failure(built.error) && store.attempts == old(store.attempts))
        && (built.Success? && AssignedIds(requests).Failure? ==>
              res == Failure(RequestIdNotAssigned) && store.attempts == old(store.attempts))
        && (built.Success? && AssignedIds(requests).Success? ==>
              var sent := built.value.(gasLimit := GasWithMargin(built.value.gasLimit));
              && res == Success(Some(sent))
              && store.attempts == old(store.attempts) +
                   [AttemptRecord(sent, txHashOf(sent), Ids(requests)).(id := NextAttemptId(old(store.attempts)), createdAt := Some(now))])
      ensures res.Failure? || res == Success(None) ==> store.attempts == old(store.attempts)
      ensures res == Success(None) <==> requests == []
      ensures res.Success? && res.value.Some? ==>
        && res.value.value.nonce == nonce
        && |store.attempts| == |old(store.attempts)| + 1 && store.attempts[..|old(store.attempts)|] == old(store.attempts)
        && Last(store.attempts).requestIds == Ids(requests) && Last(store.attempts).nonce == nonce
        && Last(store.attempts).confirmation == 0 && Last(store.attempts).transactionHash == txHashOf(res.value.value)
    {
      if |requests| == 0 {
        return Success(None);
      }
      var txParam := populateFun(requests);
      var latestPackedTx := Highest(store.attempts, AtNonce(nonce));
      var built := BuildTransactionRequest(txParam, nonce, ChainId(), latestPackedTx);
      if built.Failure? {
        return Failure(built.error);
      }
      var rtx := built.value;
      rtx := rtx.(gasLimit := GasWithMargin(rtx.gasLimit));
      var txid := txHashOf(rtx);
      var requestsIds := AssignedIds(requests);
      if requestsIds.Failure? {
        return Failure(requestsIds.error);
      }
      assert forall k :: 0 <= k < |requests| ==> requestsIds.value[k] > 0 by {
        forall k | 0 <= k < |requests| ensures requestsIds.value[k] > 0 {
          assert requests[k] in requests;
        }
      }
      var packedTx := AttemptRecord(rtx, txid, requestsIds.value);
      var _ := store.SetPackedTransaction(packedTx, now);
      res := Success(Some(rtx));
    }

    /**
     * `rePackedTransaction()`: one repack cycle at the ledger nonce, serialized by
     * the `repacking` flag. A call that finds the flag set does nothing; otherwise
     * the flag is held for the cycle and cleared on success and on error alike.
     * `batch` is the selection the cycle made.
     */
    method RePackedTransaction(currentNonce: int, receipts: Receipts, now: int)
      returns (r: RepackResult, batch: seq<Request>, ghost floor: Floor)
      requires Valid()
      modifies this, store
      ensures Valid()
      ensures old(repacking) ==> r == Busy && repacking && batch == []
      ensures !old(repacking) ==> !repacking && !r.Busy?
      ensures !old(repacking) ==>
        SelectionSpec(batch, floor, old(store.requests), old(store.attempts), currentNonce, receipts, now,
                      timer.GetTimeout(Some(ChainId())), options.requestCountLimit)
      ensures store.requests == old(store.requests)
      ensures r.Busy? || r.Failed? || (r.Repacked? && r.sent.None?) ==> store.attempts == old(store.attempts)
      ensures !old(repacking) ==> (r.Repacked? && r.sent.None? <==> batch == [])
      ensures r.Repacked? && r.sent.Some? ==>
        && r.sent.value.nonce == currentNonce
        && |store.attempts| == |old(store.attempts)| + 1
        && store.attempts[..|old(store.attempts)|] == old(store.attempts)
      ensures r.Repacked? && r.sent.Some? ==>
        && Last(store.attempts).requestIds == Ids(batch)
        && Last(store.attempts).nonce == currentNonce && Last(store.attempts).confirmation == 0
        && Last(store.attempts).transactionHash == txHashOf(r.sent.value)
      ensures r.Repacked? && r.sent.Some? ==> Contiguous(Last(store.attempts), store.requests)
      ensures !old(repacking) && Latest(old(store.attempts)).Some? && Latest(old(store.attempts)).value.nonce == currentNonce ==>
        var latest := Latest(old(store.attempts)).value;
        && |latest.requestIds| > 0
        && (NewDataArrived(latest, old(store.requests), options.requestCountLimit) ==> latest.requestIds <= Ids(batch))
        && ((!NewDataArrived(latest, old(store.requests), options.requestCountLimit) &&
             TimedOut(latest, now, timer.GetTimeout(Some(ChainId())))) ==> Ids(batch) == latest.requestIds)
      ensures !old(repacking) && batch != [] ==>
        var packed := PackedTx(batch, currentNonce, old(store.attempts));
        && (packed.Failure? ==> r == Failed(packed.error))
        && (packed.Success? ==>
              && r == Repacked(Some(packed.value))
              && store.attempts == old(store.attempts) + [SentRecord(packed.value, batch, old(store.attempts), now)])
    {
      if repacking {
        return Busy, [], Wait;
      }
      repacking := true;
      r, batch, floor := RepackCycle(currentNonce, receipts, now);
      repacking := false;
    }

    /**
     * The body of one repack cycle, with the flag held: select the batch and submit
     * it. The outcome is never `Busy`.
     */
    method RepackCycle(currentNonce: int, receipts: Receipts, now: int)
      returns (r: RepackResult, batch: seq<Request>, ghost floor: Floor)
      requires Valid()
      modifies store
      ensures Valid()
      ensures !r.Busy?
      ensures SelectionSpec(batch, floor, old(store.requests), old(store.attempts), currentNonce, receipts, now,
                            timer.GetTimeout(Some(ChainId())), options.requestCountLimit)
      ensures store.requests == old(store.requests)
      ensures r.Failed? || (r.Repacked? && r.sent.None?) ==> store.attempts == old(store.attempts)
      ensures r.Repacked? && r.sent.None? <==> batch == []
      ensures r.Repacked? && r.sent.Some? ==>
        && r.sent.value.nonce == currentNonce
        && |store.attempts| == |old(store.attempts)| + 1
        && store.attempts[..|old(store.attempts)|] == old(store.attempts)
      ensures r.Repacked? && r.sent.Some? ==>
        && Last(store.attempts).requestIds == Ids(batch)
        && Last(store.attempts).nonce == currentNonce && Last(store.attempts).confirmation == 0
        && Last(store.attempts).transactionHash == txHashOf(r.sent.value)
      ensures r.Repacked? && r.sent.Some? ==> Contiguous(Last(store.attempts), store.requests)
      ensures Latest(old(store.attempts)).Some? && Latest(old(store.attempts)).value.nonce == currentNonce ==>
        var latest := Latest(old(store.attempts)).value;
        && |latest.requestIds| > 0
        && (NewDataArrived(latest, old(store.requests), options.requestCountLimit) ==> latest.requestIds <= Ids(batch))
        && ((!NewDataArrived(latest, old(store.requests), options.requestCountLimit) &&
             TimedOut(latest, now, timer.GetTimeout(Some(ChainId())))) ==> Ids(batch) == latest.requestIds)
      ensures batch != [] ==>
        var packed := PackedTx(batch, currentNonce, old(store.attempts));
        && (packed.Failure? ==> r == Failed(packed.error))
        && (packed.Success? ==>
              && r == Repacked(Some(packed.value))
              && store.attempts == old(store.attempts) + [SentRecord(packed.value, batch, old(store.attempts), now)])
    {
      batch, floor := GetRepackRequests(currentNonce, receipts, now);
      var res := SubmitBatch(batch, currentNonce, now);
      if res.Failure? {
        r := Failed(res.error);
      } else {
        r := Repacked(res.value);
      }
    }

    /**
     * The repack's call of `sendPackedTransaction` on a batch it selected: a
     * contiguous run of stored requests within the limit, so the attempt it records
     * keeps the invariant.
     */
    method SubmitBatch(batch: seq<Request>, nonce: int, now: int) returns (res: Result<Option<TxRequest>, Error>)
      requires Valid()
      requires |batch| <= options.requestCountLimit && forall x :: x in batch ==> x in store.requests
      requires batch != [] ==> Ids(batch) == Ids(RequestsFrom(store.requests, Min(Ids(batch)), |batch|))
      modifies store
      ensures Valid()
      ensures store.requests == old(store.requests)
      ensures res.Failure? || res == Success(None) ==> store.attempts == old(store.attempts)
      ensures res == Success(None) <==> batch == []
      ensures res.Success? && res.value.Some? ==>
        && res.value.value.nonce == nonce
        && |store.attempts| == |old(store.attempts)| + 1 && store.attempts[..|old(store.attempts)|] == old(store.attempts)
        && Last(store.attempts).requestIds == Ids(batch) && Last(store.attempts).nonce == nonce
        && Last(store.attempts).confirmation == 0 && Last(store.attempts).transactionHash == txHashOf(res.value.value)
      ensures batch != [] ==>
        var packed := PackedTx(batch, nonce, old(store.attempts));
        && (packed.Failure? ==> res == Failure(packed.error))
        && (packed.Success? ==>
              && res == Success(Some(packed.value))
              && store.attempts == old(store.attempts) + [SentRecord(packed.value, batch, old(store.attempts), now)])
    {
      StoredIdsAssigned(batch, store.requests);
      res := SendPackedTransaction(batch, nonce, now);
      if res.Success? && res.value.Some? {
        RecordKeepsBatches(old(store.attempts), store.attempts, store.requests, options.requestCountLimit);
      }
    }

    /**
     * `sendTransactions(txs)`: store the submissions and, when there is no packing
     * delay, run a repack at once (its errors are swallowed). An empty submission
     * does nothing. `repacked` is that repack's outcome, with the selection it made,
     * and `None` when none ran.
     */
    method SendTransactions(txs: seq<Submission>, currentNonce: int, receipts: Receipts, now: int)
      returns (ids: seq<int>, ghost repacked: Option<RepackResult>, ghost batch: seq<Request>, ghost floor: Floor)
      requires Valid()
      modifies this, store
      ensures Valid()
      ensures txs == [] ==> ids == [] && store.requests == old(store.requests) && store.attempts == old(store.attempts)
      ensures txs == [] ==> repacking == old(repacking)
      ensures repacked.Some? <==> txs != [] && options.delayedSecond == 0
      ensures txs != [] ==>
        && store.requests == old(store.requests) + NewRows(txs, NextRequestId(old(store.requests)), now)
        && |ids| == |txs| && (forall i :: 0 <= i < |txs| ==> ids[i] == NextRequestId(old(store.requests)) + i)
        && old(store.attempts) <= store.attempts && |store.attempts| <= |old(store.attempts)| + 1
        && repacking == old(repacking)
      ensures (repacked.None? || repacked.value.Busy? || repacked.value.Failed? ||
               (repacked.value.Repacked? && repacked.value.sent.None?)) ==> store.attempts == old(store.attempts)
      ensures repacked.Some? && old(repacking) ==> repacked.value == Busy
      ensures repacked.Some? && !old(repacking) ==>
        && !repacked.value.Busy?
        && SelectionSpec(batch, floor, old(store.requests) + NewRows(txs, NextRequestId(old(store.requests)), now),
                         old(store.attempts), currentNonce, receipts, now,
                         timer.GetTimeout(Some(ChainId())), options.requestCountLimit)
        && (repacked.value.Repacked? && repacked.value.sent.None? <==> batch == [])
      ensures repacked.Some? && repacked.value.Repacked? && repacked.value.sent.Some? ==>
        && |store.attempts| == |old(store.attempts)| + 1
        && Last(store.attempts).requestIds == Ids(batch)
        && Last(store.attempts).nonce == currentNonce && Last(store.attempts).confirmation == 0
        && Contiguous(Last(store.attempts), store.requests)
      ensures repacked.Some? && !old(repacking) && batch != [] ==>
        var packed := PackedTx(batch, currentNonce, old(store.attempts));
        && (packed.Failure? ==> repacked.value == Failed(packed.error))
        && (packed.Success? ==>
              && repacked.value == Repacked(Some(packed.value))
              && store.attempts == old(store.attempts) + [SentRecord(packed.value, batch, old(store.attempts), now)])
    {
      repacked, batch, floor := None, [], Wait;
      if |txs| == 0 {
        return [], None, [], Wait;
      }
      ids := store.SetRequests(txs, now);
      AppendKeepsContiguous(old(store.attempts), old(store.requests),
                            NewRows(txs, NextRequestId(old(store.requests)), now));
      if options.delayedSecond == 0 {
        var r, selected, decided := RePackedTransaction(currentNonce, receipts, now);
        repacked, batch, floor := Some(r), selected, decided;
      }
    }

    // ------------------------------------------------------------ the reconciliation cycle

    /**
     * `checkRecipt(v, result)`: look up `v`'s receipt; a receipt at the threshold
     * finalizes `v`'s requests and records the depth on `v`'s row.
     */
    method CheckReceipt(v: PackedTransaction, result: int, receipts: Receipts) returns (isBreak: bool, result': int)
      requires store.Valid()
      modifies store
      ensures store.Valid()
      ensures isBreak == ReceiptOutcome(v, result, receipts, options.confirmations).0
      ensures result' == ReceiptOutcome(v, result, receipts, options.confirmations).1
      ensures store.requests == AfterReceipt(old(store.requests), old(store.attempts), v, receipts, options.confirmations).0
      ensures store.attempts == AfterReceipt(old(store.requests), old(store.attempts), v, receipts, options.confirmations).1
    {
      result' := result;
      if v.transactionHash in receipts {
        var depth := receipts[v.transactionHash];
        if depth >= options.confirmations {
          store.UpdateRequestBatch(v.requestIds, v.transactionHash);
          result' := 0;
          store.SetPackedTransactionConfirmation(v.id, depth);
        }
        return true, result';
      }
      return false, result';
    }

    /**
     * `checkConfirmations(nonce)`: scan the siblings at `nonce` in table order; the
     * first already final or with a receipt decides, and the result is the next cursor.
     */
    method CheckConfirmations(nonce: int, receipts: Receipts) returns (result: int)
      requires store.Valid()
      modifies store
      ensures store.Valid()
      ensures result == Cursor(Siblings(old(store.attempts), nonce), receipts, options.confirmations)
      ensures (store.requests, store.attempts)
              == AfterVerdict(old(store.requests), old(store.attempts),
                              FirstVerdict(Siblings(old(store.attempts), nonce), receipts, options.confirmations),
                              receipts, options.confirmations)
    {
      var threshold := options.confirmations;
      var packedTxs := Siblings(store.attempts, nonce);
      if |packedTxs| == 0 {
        return 0;
      }
      ghost var verdict := FirstVerdict(packedTxs, receipts, threshold);
      ghost var r0, a0 := store.requests, store.attempts;
      result := Min(AttemptIds(packedTxs));
      var k := 0;
      while k < |packedTxs|
        invariant 0 <= k <= |packedTxs|
        invariant FirstVerdict(packedTxs[k..], receipts, threshold) == verdict
        invariant result == Min(AttemptIds(packedTxs))
        invariant store.requests == r0 && store.attempts == a0
        decreases |packedTxs| - k
      {
        var v := packedTxs[k];
        VerdictAt(packedTxs, k, receipts, threshold);
        if v.confirmation < threshold {
          var isBreak, r := CheckReceipt(v, result, receipts);
          result := r;
          if isBreak {
            return;
          }
        } else {
          return 0;
        }
        k := k + 1;
      }
      assert packedTxs[k..] == [];
    }

    /**
     * `checkPackedTransaction()`: walk the attempts below the ledger nonce from the
     * newest down, checking confirmations nonce by nonce until one is final, then
     * probe every unconfirmed attempt at the nonces below where the walk stopped.
     * `anomaly` is the logged case where some were probed and none had a receipt.
     * The ghost results are the attempts probed, the last nonce the walk checked,
     * and whether it stopped there on a final verdict (and wrote it).
     */
    method CheckPackedTransaction(currentNonce: int, receipts: Receipts)
      returns (anomaly: bool, ghost rechecked: seq<PackedTransaction>, ghost lastCheckedNonce: int, ghost stopped: bool)
      requires Valid()
      modifies store
      ensures Valid()
      ensures currentNonce == 0 || old(store.attempts) == [] ==>
        store.requests == old(store.requests) && store.attempts == old(store.attempts) && !anomaly && rechecked == []
      ensures currentNonce != 0 && old(store.attempts) != [] ==>
        var walked := if stopped then AfterVerdict(old(store.requests), old(store.attempts),
                                                   FirstVerdict(Siblings(old(store.attempts), lastCheckedNonce), receipts,
                                                                options.confirmations),
                                                   receipts, options.confirmations)
                      else (old(store.requests), old(store.attempts));
        && rechecked == Unconfirmed(walked.1, lastCheckedNonce)
        && (store.requests, store.attempts) == AfterReceipts(walked.0, walked.1, rechecked, receipts, options.confirmations)
      ensures stopped ==>
        && lastCheckedNonce < currentNonce
        && Finalizes(FirstVerdict(Siblings(old(store.attempts), lastCheckedNonce), receipts, options.confirmations),
                     options.confirmations)
      ensures currentNonce != 0 && old(store.attempts) != [] ==>
        WalkEnded(old(store.attempts), currentNonce, receipts, options.confirmations,
                  WalkStart(old(store.attempts), currentNonce).value, lastCheckedNonce, stopped)
      ensures Justified(old(store.requests), old(store.attempts), store.requests, store.attempts, receipts, options.confirmations)
      ensures anomaly <==> |rechecked| > 0 && forall p :: p in rechecked ==> !Landed(p, receipts)
      ensures forall p :: p in rechecked ==> p.confirmation == 0 && exists q :: q in old(store.attempts) && ShapeEq(p, q)
    {
      var threshold := options.confirmations;
      ghost var r0, a0 := store.requests, store.attempts;
      JustifiedRefl(r0, a0, receipts, threshold);
      if currentNonce == 0 {
        return false, [], 0, false;
      }
      var lastestTx := WalkStart(store.attempts, currentNonce);
      if lastestTx.None? {
        return false, [], 0, false;
      }
      anomaly, rechecked, lastCheckedNonce, stopped := ReconcileFrom(currentNonce, receipts, lastestTx.value);
    }

    /**
     * The part of `checkPackedTransaction` after the starting attempt `lastestTx` is
     * found: the confirmation walk from just above it, then the probe of the
     * unconfirmed attempts below the last nonce it checked.
     */
    method ReconcileFrom(currentNonce: int, receipts: Receipts, lastestTx: PackedTransaction)
      returns (anomaly: bool, ghost rechecked: seq<PackedTransaction>, ghost lastCheckedNonce: int, ghost stopped: bool)
      requires Valid()
      modifies store
      ensures Valid()
      ensures var walked := if stopped then AfterVerdict(old(store.requests), old(store.attempts),
                                                         FirstVerdict(Siblings(old(store.attempts), lastCheckedNonce), receipts,
                                                                      options.confirmations),
                                                         receipts, options.confirmations)
                            else (old(store.requests), old(store.attempts));
        && rechecked == Unconfirmed(walked.1, lastCheckedNonce)
        && (store.requests, store.attempts) == AfterReceipts(walked.0, walked.1, rechecked, receipts, options.confirmations)
      ensures stopped ==>
        && lastCheckedNonce < currentNonce
        && Finalizes(FirstVerdict(Siblings(old(store.attempts), lastCheckedNonce), receipts, options.confirmations),
                     options.confirmations)
      ensures WalkEnded(old(store.attempts), currentNonce, receipts, options.confirmations, lastestTx, lastCheckedNonce, stopped)
      ensures Justified(old(store.requests), old(store.attempts), store.requests, store.attempts, receipts, options.confirmations)
      ensures anomaly <==> |rechecked| > 0 && forall p :: p in rechecked ==> !Landed(p, receipts)
      ensures forall p :: p in rechecked ==> p.confirmation == 0 && exists q :: q in old(store.attempts) && ShapeEq(p, q)
    {
      var threshold := options.confirmations;
      ghost var r0, a0 := store.requests, store.attempts;
      var checkedNonce;
      checkedNonce, stopped := WalkConfirmations(currentNonce, receipts, lastestTx);
      lastCheckedNonce := checkedNonce;
      ghost var rS, aS := store.requests, store.attempts;
      var packedTxs := Unconfirmed(store.attempts, checkedNonce);
      UnconfirmedFromStart(r0, a0, rS, aS, checkedNonce, receipts, threshold);
      var isHaveSuccess := Recheck(packedTxs, receipts);
      JustifiedTrans(r0, a0, rS, aS, store.requests, store.attempts, receipts, threshold);
      JustifiedKeepsBatches(r0, a0, store.requests, store.attempts, receipts, threshold, options.requestCountLimit);
      anomaly := !isHaveSuccess && |packedTxs| > 0;
      rechecked := packedTxs;
    }

    /**
     * The cursor loop of `checkPackedTransaction`, from just above `lastestTx`:
     * attempts at or above the ledger nonce are skipped, and at each other nonce
     * `checkConfirmations` gives the next cursor, 0 to stop. The result is the
     * last nonce checked (that of `lastestTx` when none was); `stopped` says the walk
     * ended on a final verdict there rather than by running out of attempts. Only
     * that last check can write: a verdict below the threshold persists nothing.
     */
    method WalkConfirmations(currentNonce: int, receipts: Receipts, lastestTx: PackedTransaction)
      returns (lastCheckedNonce: int, ghost stopped: bool)
      requires store.Valid()
      modifies store
      ensures store.Valid()
      ensures Justified(old(store.requests), old(store.attempts), store.requests, store.attempts, receipts, options.confirmations)
      ensures lastCheckedNonce == lastestTx.nonce || lastCheckedNonce < currentNonce
      ensures !stopped ==> store.requests == old(store.requests) && store.attempts == old(store.attempts)
      ensures stopped ==>
        var v := FirstVerdict(Siblings(old(store.attempts), lastCheckedNonce), receipts, options.confirmations);
        && lastCheckedNonce < currentNonce && Finalizes(v, options.confirmations)
        && (store.requests, store.attempts) == AfterVerdict(old(store.requests), old(store.attempts), v, receipts,
                                                            options.confirmations)
      ensures WalkEnded(old(store.attempts), currentNonce, receipts, options.confirmations, lastestTx, lastCheckedNonce, stopped)
      ensures !stopped && NoncesMonotone(old(store.attempts)) ==>
        forall p :: p in old(store.attempts) && p.id <= lastestTx.id && p.nonce < currentNonce ==>
          !Finalizes(FirstVerdict(Siblings(old(store.attempts), p.nonce), receipts, options.confirmations), options.confirmations)
    {
      var threshold := options.confirmations;
      ghost var r0, a0 := store.requests, store.attempts;
      ghost var top := lastestTx.id + 1;
      var lastCheckedId := lastestTx.id + 1;
      lastCheckedNonce := lastestTx.nonce;
      stopped := false;
      while lastCheckedId > 0
        invariant store.requests == r0 && store.attempts == a0
        invariant lastCheckedNonce == lastestTx.nonce || lastCheckedNonce < currentNonce
        invariant NoncesMonotone(a0) ==> NothingFinalBetween(a0, currentNonce, receipts, threshold, lastCheckedId, top)
        invariant lastCheckedId <= top
        invariant lastCheckedNonce == LowestNonceOr(a0, currentNonce, lastCheckedId, top, lastestTx.nonce)
        decreases lastCheckedId
      {
        var nextTx := Highest(store.attempts, IdBelow(lastCheckedId));
        if nextTx.None? {
          break;
        }
        var next := nextTx.value;
        if next.nonce >= currentNonce {
          if NoncesMonotone(a0) {
            SkipKeepsNothingFinal(a0, currentNonce, receipts, threshold, lastCheckedId, top, next);
          }
          SkipKeepsLowest(a0, currentNonce, lastCheckedId, top, next);
          lastCheckedId := next.id;
          continue;
        }
        WalkVisit(a0, receipts, threshold, lastCheckedId, next);
        if Finalizes(FirstVerdict(Siblings(a0, next.nonce), receipts, threshold), threshold) {
          WalkStop(r0, a0, currentNonce, receipts, threshold, lastCheckedId, lastestTx, next);
        } else {
          WalkPass(r0, a0, currentNonce, receipts, threshold, lastCheckedId, top, next);
          PassSetsLowest(a0, currentNonce, receipts, threshold, lastCheckedId, top, next);
        }
        lastCheckedId := CheckConfirmations(next.nonce, receipts);
        lastCheckedNonce := next.nonce;
        if lastCheckedId == 0 {
          stopped := true;
          return;
        }
      }
      if NoncesMonotone(a0) {
        WalkExhausted(a0, currentNonce, receipts, threshold, lastCheckedId, top);
      }
      ExhaustedKeepsLowest(a0, currentNonce, receipts, threshold, lastCheckedId, lastestTx, lastCheckedNonce);
      JustifiedRefl(r0, a0, receipts, threshold);
    }

    /**
     * The closing loop of `checkPackedTransaction`: probe each attempt of
     * `packedTxs` (rows of the current table) with `checkRecipt`, in order; the
     * tables become the writes of each probe in turn, and the result says whether
     * any had a receipt.
     */
    method Recheck(packedTxs: seq<PackedTransaction>, receipts: Receipts) returns (isHaveSuccess: bool)
      requires store.Valid()
      requires forall p :: p in packedTxs ==> p in store.attempts
      modifies store
      ensures store.Valid()
      ensures (store.requests, store.attempts)
              == AfterReceipts(old(store.requests), old(store.attempts), packedTxs, receipts, options.confirmations)
      ensures Justified(old(store.requests), old(store.attempts), store.requests, store.attempts, receipts, options.confirmations)
      ensures isHaveSuccess <==> exists p :: p in packedTxs && Landed(p, receipts)
    {
      var threshold := options.confirmations;
      ghost var r0, a0 := store.requests, store.attempts;
      JustifiedRefl(r0, a0, receipts, threshold);
      isHaveSuccess := false;
      for i := 0 to |packedTxs|
        invariant store.Valid()
        invariant (store.requests, store.attempts) == AfterReceipts(r0, a0, packedTxs[..i], receipts, threshold)
        invariant Justified(r0, a0, store.requests, store.attempts, receipts, threshold)
        invariant isHaveSuccess <==> exists j :: 0 <= j < i && Landed(packedTxs[j], receipts)
      {
        var ptx := packedTxs[i];
        assert packedTxs[..i + 1][..i] == packedTxs[..i];
        ReceiptKeepsJustified(r0, a0, store.requests, store.attempts, ptx, receipts, threshold);
        var isBreak, _ := CheckReceipt(ptx, 0, receipts);
        isHaveSuccess := isBreak || isHaveSuccess;
      }
      assert packedTxs[..|packedTxs|] == packedTxs;
      assert isHaveSuccess ==> exists p :: p in packedTxs && Landed(p, receipts);
    }
  }

  /** Appending one contiguous attempt within the limit keeps the whole table so. */
  lemma RecordKeepsBatches(a0: seq<PackedTransaction>, a1: seq<PackedTransaction>, reqs: seq<Request>, limit: nat)
    requires AllContiguous(a0, reqs) && AttemptsWithin(a0, limit)
    requires |a1| == |a0| + 1 && a1[..|a0|] == a0
    requires Contiguous(Last(a1), reqs) && |Last(a1).requestIds| <= limit
    ensures AllContiguous(a1, reqs) && AttemptsWithin(a1, limit)
  {
    assert a1 == a0 + [Last(a1)];
  }

  /** The last row of a non-empty table. */
  function Last(ps: seq<PackedTransaction>): PackedTransaction
    requires |ps| > 0
  {
    ps[|ps| - 1]
  }
}
