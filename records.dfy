/**
 * The records the packing engine works on (src/ParallelSigner.ts, the
 * `Request` and `PackedTransaction` interfaces), with the small wrappers
 * used for absent fields and for errors.
 */
module Records {

  datatype Option<+T> = None | Some(value: T) {
    function GetOr(default: T): T {
      match this
      case Some(v) => v
      case None => default
    }
  }

  datatype Result<+T, +E> = Success(value: T) | Failure(error: E)

  /** The fatal errors: no usable fee scheme, a request without a store id, a signer without a chain id. */
  datatype Error = GasPriceError | RequestIdNotAssigned | ChainIdRequired

  /** A transaction hash as returned by signing; opaque to the engine. */
  type Hash = string

  /** Receipt lookup on the ledger: a hash that is present has a receipt with that confirmation depth. */
  type Receipts = map<Hash, nat>

  /** The ledger has a receipt for the attempt's hash. */
  predicate Landed(p: PackedTransaction, receipts: Receipts)
  {
    p.transactionHash in receipts
  }

  /**
   * One logical operation submitted by a caller. `id` is assigned by the store;
   * `txId` is set once the attempt that carries the request is final.
   */
  datatype Request = Request(
    id: Option<int>,
    functionData: string,
    txId: Option<Hash>,
    logId: int,
    createdAt: Option<int>)

  /**
   * One attempt: a signed transaction at a nonce carrying a batch of requests.
   * Absent fee fields (the empty string in storage) are `None`. `id` and
   * `createdAt` are assigned by the store on insertion.
   */
  datatype PackedTransaction = PackedTransaction(
    id: int,
    nonce: int,
    transactionHash: Hash,
    maxFeePerGas: Option<nat>,
    maxPriorityFeePerGas: Option<nat>,
    gasPrice: Option<nat>,
    requestIds: seq<int>,
    confirmation: nat,
    createdAt: Option<int>)

  /** `Math.max(...s)` on a non-empty list. */
  function Max(s: seq<int>): (m: int)
    requires |s| > 0
    ensures m in s
    ensures forall x :: x in s ==> x <= m
  {
    if |s| == 1 then s[0]
    else
      var rest := Max(s[1..]);
      assert forall x :: x in s ==> x == s[0] || x in s[1..];
      if s[0] >= rest then s[0] else rest
  }

  /** `Math.min(...s)` on a non-empty list. */
  function Min(s: seq<int>): (m: int)
    requires |s| > 0
    ensures m in s
    ensures forall x :: x in s ==> m <= x
  {
    if |s| == 1 then s[0]
    else
      var rest := Min(s[1..]);
      assert forall x :: x in s ==> x == s[0] || x in s[1..];
      if s[0] <= rest then s[0] else rest
  }

  /** The store-assigned ids of a list of requests, in list order (0 for a missing id). */
  function Ids(rs: seq<Request>): (ids: seq<int>)
    ensures |ids| == |rs|
    ensures forall i :: 0 <= i < |rs| ==> ids[i] == rs[i].id.GetOr(0)
  {
    if rs == [] then [] else [rs[0].id.GetOr(0)] + Ids(rs[1..])
  }

  /** The ids of a list of attempts, in list order. */
  function AttemptIds(ps: seq<PackedTransaction>): (ids: seq<int>)
    ensures |ids| == |ps|
    ensures forall i :: 0 <= i < |ps| ==> ids[i] == ps[i].id
  {
    if ps == [] then [] else [ps[0].id] + AttemptIds(ps[1..])
  }
}
