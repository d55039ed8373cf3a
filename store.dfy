/**
 * The request store the engine consumes (`IOrderedRequestStore`,
 * src/ParallelSigner.ts:37-104), as an in-memory class. Queries are pure
 * functions of its two tables, with the semantics of the SQL reference store;
 * the mutators are methods that reassign the tables.
 */
module RequestStore {
  import opened Records

  /** Store-assigned request ids are present, positive and strictly increasing in table order. */
  ghost predicate RequestsValid(rs: seq<Request>)
  {
    && (forall i :: 0 <= i < |rs| ==> rs[i].id.Some? && rs[i].id.value > 0)
    && (forall i, j :: 0 <= i < j < |rs| ==> rs[i].id.GetOr(0) < rs[j].id.GetOr(0))
  }

  /**
   * Attempt ids are positive and strictly increasing in table order, and every
   * attempt carries a non-empty list of assigned (positive) request ids.
   */
  ghost predicate AttemptsValid(ps: seq<PackedTransaction>)
  {
    && (forall i :: 0 <= i < |ps| ==> ps[i].id > 0 && |ps[i].requestIds| > 0)
    && (forall i, k :: 0 <= i < |ps| && 0 <= k < |ps[i].requestIds| ==> ps[i].requestIds[k] > 0)
    && (forall i, j :: 0 <= i < j < |ps| ==> ps[i].id < ps[j].id)
  }

  // ---------------------------------------------------------------- queries

  /** The row filter of `getRequests`: `id >= minimalId`. */
  predicate Qualifies(r: Request, minimalId: int)
  {
    r.id.Some? && r.id.value >= minimalId
  }

  /**
   * `getRequests(chainId, minimalId, limit)`: the first `limit` requests, in table
   * order, whose id is at least `minimalId`. Finalized requests are not filtered out.
   */
  function RequestsFrom(reqs: seq<Request>, minimalId: int, limit: nat): (r: seq<Request>)
    ensures |r| <= limit
    ensures forall x :: x in r ==> x in reqs && Qualifies(x, minimalId)
    ensures |r| < limit ==> forall x :: x in reqs && Qualifies(x, minimalId) ==> x in r
  {
    if limit == 0 || reqs == [] then []
    else
      assert forall x :: x in reqs ==> x == reqs[0] || x in reqs[1..];
      if Qualifies(reqs[0], minimalId) then [reqs[0]] + RequestsFrom(reqs[1..], minimalId, limit - 1)
      else RequestsFrom(reqs[1..], minimalId, limit)
  }

  /** A valid table's first row has a smaller id than every later row, and the rest is valid. */
  lemma HeadBelowTail(reqs: seq<Request>)
    requires RequestsValid(reqs) && reqs != []
    ensures RequestsValid(reqs[1..])
    ensures forall y :: y in reqs[1..] ==> reqs[0].id.GetOr(0) < y.id.GetOr(0)
  {
    forall y | y in reqs[1..] ensures reqs[0].id.GetOr(0) < y.id.GetOr(0) {
      var k :| 0 <= k < |reqs[1..]| && reqs[1..][k] == y;
      assert reqs[k + 1] == y;
    }
  }

  /**
   * On a valid table `getRequests` returns the lowest qualifying ids: every row it
   * returns has a smaller id than every qualifying row it leaves out.
   */
  lemma {:induction false} RequestsFromLowest(reqs: seq<Request>, minimalId: int, limit: nat)
    requires RequestsValid(reqs)
    ensures forall x, y ::
      (x in RequestsFrom(reqs, minimalId, limit) && y in reqs && Qualifies(y, minimalId) &&
       y !in RequestsFrom(reqs, minimalId, limit)) ==> x.id.GetOr(0) < y.id.GetOr(0)
  {
    if limit != 0 && reqs != [] {
      HeadBelowTail(reqs);
      var sel := RequestsFrom(reqs, minimalId, limit);
      var k := if Qualifies(reqs[0], minimalId) then limit - 1 else limit;
      var rest := RequestsFrom(reqs[1..], minimalId, k);
      RequestsFromLowest(reqs[1..], minimalId, k);
      assert sel == if Qualifies(reqs[0], minimalId) then [reqs[0]] + rest else rest;
      assert Qualifies(reqs[0], minimalId) ==> reqs[0] in sel;
      assert forall z :: z in reqs ==> z == reqs[0] || z in reqs[1..];
      forall x, y | x in sel && y in reqs && Qualifies(y, minimalId) && y !in sel
        ensures x.id.GetOr(0) < y.id.GetOr(0)
      {
        assert y in reqs[1..];
        assert y !in rest;
        assert x == reqs[0] || x in rest;
      }
    }
  }

  /** A row with a positive id below every id of a valid table extends it validly. */
  lemma ConsValid(x: Request, rest: seq<Request>)
    requires RequestsValid(rest) && x.id.Some? && x.id.value > 0
    requires forall y :: y in rest ==> x.id.GetOr(0) < y.id.GetOr(0)
    ensures RequestsValid([x] + rest)
  {
    var r := [x] + rest;
    forall i, j | 0 <= i < j < |r| ensures r[i].id.GetOr(0) < r[j].id.GetOr(0) {
      assert r[j] == rest[j - 1];
      if i > 0 { assert r[i] == rest[i - 1]; }
    }
    forall i | 0 <= i < |r| ensures r[i].id.Some? && r[i].id.value > 0 {
      if i > 0 { assert r[i] == rest[i - 1]; }
    }
  }

  /** A selection from a valid table lists its requests in increasing id order. */
  lemma {:induction false} RequestsFromValid(reqs: seq<Request>, minimalId: int, limit: nat)
    requires RequestsValid(reqs)
    ensures RequestsValid(RequestsFrom(reqs, minimalId, limit))
  {
    if limit != 0 && reqs != [] {
      HeadBelowTail(reqs);
      if Qualifies(reqs[0], minimalId) {
        RequestsFromValid(reqs[1..], minimalId, limit - 1);
        ConsValid(reqs[0], RequestsFrom(reqs[1..], minimalId, limit - 1));
      } else {
        RequestsFromValid(reqs[1..], minimalId, limit);
      }
    }
  }

  /** What a `getLatestPackedTransaction` / `getMaxIDPackedTransaction` call filters on. */
  datatype AttemptQuery =
    | AnyAttempt          // getLatestPackedTransaction(chainId)
    | AtNonce(n: int)     // getLatestPackedTransaction(chainId, nonce)
    | IdBelow(maxId: int) // getMaxIDPackedTransaction(chainId, maxId)

  predicate Matches(p: PackedTransaction, q: AttemptQuery)
  {
    match q
    case AnyAttempt => true
    case AtNonce(n) => p.nonce == n
    case IdBelow(maxId) => p.id < maxId
  }

  /** `ORDER BY id DESC LIMIT 1` over the attempts that match `q`; `None` when none match. */
  function Highest(ps: seq<PackedTransaction>, q: AttemptQuery): (r: Option<PackedTransaction>)
    ensures r.Some? ==> r.value in ps && Matches(r.value, q)
    ensures r.Some? ==> forall p :: p in ps && Matches(p, q) ==> p.id <= r.value.id
    ensures r.None? <==> forall p :: p in ps ==> !Matches(p, q)
  {
    if ps == [] then None
    else
      var rest := Highest(ps[1..], q);
      assert forall x :: x in ps ==> x == ps[0] || x in ps[1..];
      if Matches(ps[0], q) && (rest.None? || rest.value.id < ps[0].id) then Some(ps[0]) else rest
  }

  /** Every attempt matches `AnyAttempt`, so the query finds one in any non-empty table. */
  lemma AnyAttemptFinds(ps: seq<PackedTransaction>)
    ensures ps != [] ==> Highest(ps, AnyAttempt).Some?
  {
  }

  /** `getPackedTransaction(nonce, chainId)`: every attempt at `nonce`, in table order. */
  function Siblings(ps: seq<PackedTransaction>, nonce: int): (r: seq<PackedTransaction>)
    ensures forall p :: p in r <==> p in ps && p.nonce == nonce
  {
    if ps == [] then []
    else
      var rest := Siblings(ps[1..], nonce);
      assert forall x :: x in ps ==> x == ps[0] || x in ps[1..];
      if ps[0].nonce == nonce then [ps[0]] + rest else rest
  }

  /** No attempt at `nonce` has a recorded confirmation: `SUM(confirmation) = 0` over that group. */
  ghost predicate AllZeroAt(ps: seq<PackedTransaction>, nonce: int)
  {
    forall p :: p in ps && p.nonce == nonce ==> p.confirmation == 0
  }

  /**
   * `getUnconfirmedTransactionsWithSameNonce(chainId, nonce)`, as its query is written
   * in the interface: attempts with confirmation 0 at a nonce below `nonce` none of
   * whose attempts has a recorded confirmation.
   */
  function Unconfirmed(ps: seq<PackedTransaction>, nonce: int): (r: seq<PackedTransaction>)
    ensures forall p :: p in r <==> p in ps && p.confirmation == 0 && p.nonce < nonce && AllZeroAt(ps, p.nonce)
  {
    UnconfirmedAmong(ps, ps, nonce)
  }

  function UnconfirmedAmong(all: seq<PackedTransaction>, ps: seq<PackedTransaction>, nonce: int): (r: seq<PackedTransaction>)
    ensures forall p :: p in r <==> p in ps && p.confirmation == 0 && p.nonce < nonce && AllZeroAt(all, p.nonce)
  {
    if ps == [] then []
    else
      var rest := UnconfirmedAmong(all, ps[1..], nonce);
      assert forall x :: x in ps ==> x == ps[0] || x in ps[1..];
      if ps[0].confirmation == 0 && ps[0].nonce < nonce && AllZeroAtDecided(all, ps[0].nonce) then [ps[0]] + rest else rest
  }

  /** The compiled form of `AllZeroAt`. */
  function AllZeroAtDecided(ps: seq<PackedTransaction>, nonce: int): (b: bool)
    ensures b <==> AllZeroAt(ps, nonce)
  {
    if ps == [] then true
    else
      assert forall x :: x in ps ==> x == ps[0] || x in ps[1..];
      (ps[0].nonce != nonce || ps[0].confirmation == 0) && AllZeroAtDecided(ps[1..], nonce)
  }

  // ---------------------------------------------------------------- updates

  /** `UPDATE requests SET tx_id = txid WHERE id IN ids`. */
  function WithTxId(rs: seq<Request>, ids: seq<int>, txid: Hash): (r: seq<Request>)
    ensures |r| == |rs|
    ensures forall i :: 0 <= i < |rs| ==>
      r[i] == if rs[i].id.Some? && rs[i].id.value in ids then rs[i].(txId := Some(txid)) else rs[i]
  {
    seq(|rs|, i requires 0 <= i < |rs| =>
      if rs[i].id.Some? && rs[i].id.value in ids then rs[i].(txId := Some(txid)) else rs[i])
  }

  /** `UPDATE packed_transactions SET confirmation = c WHERE id = id`. */
  function WithConfirmation(ps: seq<PackedTransaction>, id: int, c: nat): (r: seq<PackedTransaction>)
    ensures |r| == |ps|
    ensures forall i :: 0 <= i < |ps| ==> r[i] == if ps[i].id == id then ps[i].(confirmation := c) else ps[i]
  {
    seq(|ps|, i requires 0 <= i < |ps| => if ps[i].id == id then ps[i].(confirmation := c) else ps[i])
  }

  /** The id AUTOINCREMENT gives the next request row. */
  function NextRequestId(rs: seq<Request>): int
  {
    if rs == [] then 1 else rs[|rs| - 1].id.GetOr(0) + 1
  }

  /** The id AUTOINCREMENT gives the next attempt row. */
  function NextAttemptId(ps: seq<PackedTransaction>): int
  {
    if ps == [] then 1 else ps[|ps| - 1].id + 1
  }

  /** What a caller submits: the payload for the encoder and its correlation token. */
  datatype Submission = Submission(functionData: string, logId: int)

  /** The rows `setRequests` inserts: ids from `first` on, no `txId`, stamped `now`. */
  function NewRows(subs: seq<Submission>, first: int, now: int): (rows: seq<Request>)
    ensures |rows| == |subs|
    ensures forall i :: 0 <= i < |subs| ==>
      rows[i] == Request(Some(first + i), subs[i].functionData, None, subs[i].logId, Some(now))
  {
    seq(|subs|, i requires 0 <= i < |subs| =>
      Request(Some(first + i), subs[i].functionData, None, subs[i].logId, Some(now)))
  }

  class Store {
    var requests: seq<Request>
    var attempts: seq<PackedTransaction>

    ghost predicate Valid()
      reads this
    {
      RequestsValid(requests) && AttemptsValid(attempts)
    }

    constructor ()
      ensures Valid() && requests == [] && attempts == []
    {
      requests := [];
      attempts := [];
    }

    /** `setRequests`: insert rows and return their ids, in input order. */
    method SetRequests(subs: seq<Submission>, now: int) returns (ids: seq<int>)
      requires Valid()
      modifies this
      ensures Valid()
      ensures requests == old(requests) + NewRows(subs, NextRequestId(old(requests)), now)
      ensures attempts == old(attempts)
      ensures |ids| == |subs| && forall i :: 0 <= i < |subs| ==> ids[i] == NextRequestId(old(requests)) + i
    {
      var first := NextRequestId(requests);
      var rows := NewRows(subs, first, now);
      ids := seq(|subs|, i requires 0 <= i < |subs| => first + i);
      assert first > 0;
      assert forall i :: 0 <= i < |requests| ==> requests[i].id.GetOr(0) < first by {
        forall i | 0 <= i < |requests| ensures requests[i].id.GetOr(0) < first {
          if i < |requests| - 1 { assert requests[i].id.GetOr(0) < requests[|requests| - 1].id.GetOr(0); }
        }
      }
      requests := requests + rows;
    }

    /** `updateRequestBatch(ids, txid)`. */
    method UpdateRequestBatch(ids: seq<int>, txid: Hash)
      requires Valid()
      modifies this
      ensures Valid()
      ensures requests == WithTxId(old(requests), ids, txid)
      ensures attempts == old(attempts)
    {
      requests := WithTxId(requests, ids, txid);
    }

    /** `setPackedTransaction(tx)`: insert an attempt; the store assigns its id and creation time. */
    method SetPackedTransaction(tx: PackedTransaction, now: int) returns (id: int)
      requires Valid()
      requires |tx.requestIds| > 0 && forall k :: 0 <= k < |tx.requestIds| ==> tx.requestIds[k] > 0
      modifies this
      ensures Valid()
      ensures id == NextAttemptId(old(attempts))
      ensures attempts == old(attempts) + [tx.(id := id, createdAt := Some(now))]
      ensures requests == old(requests)
    {
      id := NextAttemptId(attempts);
      assert forall i :: 0 <= i < |attempts| ==> attempts[i].id < id by {
        forall i | 0 <= i < |attempts| ensures attempts[i].id < id {
          if i < |attempts| - 1 { assert attempts[i].id < attempts[|attempts| - 1].id; }
        }
      }
      attempts := attempts + [tx.(id := id, createdAt := Some(now))];
    }

    /** `setPackedTransactionConfirmation(id, confirmation)`. */
    method SetPackedTransactionConfirmation(id: int, confirmation: nat)
      requires Valid()
      modifies this
      ensures Valid()
      ensures attempts == WithConfirmation(old(attempts), id, confirmation)
      ensures requests == old(requests)
    {
      attempts := WithConfirmation(attempts, id, confirmation);
    }
  }
}
